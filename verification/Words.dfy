/** 32-bit machine words as integers with explicit wrap-around, the bitwise operations the
    translator emits, and the numeric readings of a word that the ARM manual uses. */
module Words {

  type Word = x: int | 0 <= x < 0x1_0000_0000

  type Byte = x: int | 0 <= x < 0x100

  function Wrap(x: int): Word {
    x % 0x1_0000_0000
  }

  function Pow2(k: nat): (p: nat)
    ensures p >= 1
  {
    if k == 0 then 1 else 2 * Pow2(k - 1)
  }

  lemma Pow2Values()
    ensures Pow2(28) == 0x1000_0000 && Pow2(29) == 0x2000_0000
    ensures Pow2(30) == 0x4000_0000 && Pow2(31) == 0x8000_0000
    ensures Pow2(32) == 0x1_0000_0000
  {
    assert Pow2(8) == 0x100;
    assert Pow2(16) == 0x1_0000;
    assert Pow2(24) == 0x100_0000;
  }

  // Bitwise operations, one bit at a time from the least significant end.

  function And(a: nat, b: nat): (r: nat)
    ensures r <= a && r <= b
  {
    if a == 0 || b == 0 then 0
    else 2 * And(a / 2, b / 2) + (if a % 2 == 1 && b % 2 == 1 then 1 else 0)
  }

  function Or(a: nat, b: nat): nat {
    if a == 0 then b
    else if b == 0 then a
    else 2 * Or(a / 2, b / 2) + (if a % 2 == 1 || b % 2 == 1 then 1 else 0)
  }

  lemma {:induction false} OrBound(a: nat, b: nat, k: nat)
    requires a < Pow2(k) && b < Pow2(k)
    ensures Or(a, b) < Pow2(k)
  {
    if a != 0 && b != 0 {
      OrBound(a / 2, b / 2, k - 1);
    }
  }

  function OrWord(a: Word, b: Word): Word {
    Pow2Values();
    OrBound(a, b, 32);
    Or(a, b)
  }

  function NotWord(a: Word): Word {
    0xFFFF_FFFF - a
  }

  /** `x << k` and `x >> k` on 32 bits. The IR leaves shifts by 32 or more undefined; they are
      read as 0 here and no emitted code contains one. */
  function Shl(x: Word, k: nat): Word {
    if k >= 32 then 0 else Wrap(x * Pow2(k))
  }

  function Lshr(x: Word, k: nat): Word {
    if k >= 32 then 0
    else
      QuotientBound(x, Pow2(k));
      x / Pow2(k)
  }

  lemma QuotientBound(x: nat, p: nat)
    requires p >= 1
    ensures 0 <= x / p <= x
  {
    assert x == p * (x / p) + x % p;
  }

  /** Masking with the low `k` bits is the remainder modulo 2^k. */
  lemma {:induction false} AndLowMask(x: nat, k: nat)
    ensures And(x, Pow2(k) - 1) == x % Pow2(k)
  {
    hide And;
    if k == 0 {
      MaskNothing(x);
    } else {
      AndLowMask(x / 2, k - 1);
      MaskStep(x, Pow2(k - 1));
    }
  }

  lemma MaskNothing(x: nat)
    ensures And(x, 0) == 0 == x % 1
  {
  }

  lemma MaskStep(x: nat, p: nat)
    requires p >= 1 && And(x / 2, p - 1) == x / 2 % p
    ensures And(x, 2 * p - 1) == x % (2 * p)
  {
    hide And;
    HalveRemainder(x, p);
    OddMask(x, p - 1);
  }

  lemma OddMask(x: nat, m: nat)
    ensures And(x, 2 * m + 1) == 2 * And(x / 2, m) + x % 2
  {
    OddHalf(m);
  }

  lemma OddHalf(m: nat)
    ensures (2 * m + 1) / 2 == m && (2 * m + 1) % 2 == 1
  {
  }

  lemma HalveRemainder(x: nat, p: nat)
    requires p >= 1
    ensures x % (2 * p) == 2 * (x / 2 % p) + x % 2
  {
    var q := x / 2 / p;
    assert x / 2 == p * q + x / 2 % p;
    assert x == (2 * p) * q + (2 * (x / 2 % p) + x % 2);
    RemainderUnique(x, 2 * p, q, 2 * (x / 2 % p) + x % 2);
  }

  lemma RemainderUnique(x: int, m: int, q: int, r: int)
    requires 0 <= r < m && x == m * q + r
    ensures x % m == r && x / m == q
  {
    var d := x / m - q;
    assert m * d == r - x % m;
    MultipleBound(m, d);
  }

  lemma MultipleBound(m: int, d: int)
    requires m >= 1
    ensures d >= 1 ==> m * d >= m
    ensures d <= -1 ==> m * d <= -m
  {
  }

  /** Or of a multiple of 2^k with a number below 2^k is their sum. */
  lemma {:induction false} OrDisjoint(high: nat, low: nat, k: nat)
    requires low < Pow2(k) && high % Pow2(k) == 0
    ensures Or(high, low) == Or(low, high) == high + low
  {
    if k == 0 || low == 0 || high == 0 {
    } else {
      HalveRemainder(high, Pow2(k - 1));
      OrDisjoint(high / 2, low / 2, k - 1);
    }
  }

  /** A word is the little-endian number of its four bytes. */
  lemma SplitWord(v: Word)
    ensures v == v % 0x100 + 0x100 * (v / 0x100 % 0x100) + 0x1_0000 * (v / 0x1_0000 % 0x100)
                 + 0x100_0000 * (v / 0x100_0000)
    ensures 0 <= v / 0x100_0000 < 0x100
  {
  }

  // The three readings of ARM DDI 0406C used below: UInt is the word itself.

  function SInt(x: Word): int {
    if x < 0x8000_0000 then x else x - 0x1_0000_0000
  }

  predicate Bit(x: nat, k: nat) {
    x / Pow2(k) % 2 == 1
  }

  predicate Bit31(x: Word) {
    x >= 0x8000_0000
  }

  lemma TopBit(x: Word)
    ensures (Lshr(x, 31) != 0) == Bit31(x)
  {
    Pow2Values();
  }

  /** Shifting bit `k` down and masking it out tests it. */
  lemma TestBit(x: Word, k: nat)
    requires k < 32
    ensures (And(Lshr(x, k), 1) != 0) == Bit(x, k)
  {
    assert And(Lshr(x, k) / 2, 0) == 0;
  }

  lemma DivideTwice(x: nat, p: nat, q: nat)
    requires p >= 1 && q >= 1
    ensures p * q >= 1 && x / (p * q) == x / p / q
  {
    var d := x / p / q;
    assert x == p * (q * d + x / p % q) + x % p;
    var r := p * (x / p % q) + x % p;
    assert p * (x / p % q) <= p * (q - 1) by { MultipleMonotone(p, x / p % q, q - 1); }
    assert p * (q * d) == (p * q) * d;
    RemainderUnique(x, p * q, d, r);
  }

  lemma MultipleMonotone(p: nat, a: int, b: int)
    requires a <= b
    ensures p * a <= p * b
  {
  }

  lemma BitOfHalf(x: nat, k: nat)
    ensures Bit(x, k + 1) == Bit(x / 2, k)
    ensures Bit(x, 0) == (x % 2 == 1)
  {
    DivideTwice(x, 2, Pow2(k));
  }

  // The bitwise operations are what their names say, bit by bit.

  lemma AndStep(a: nat, b: nat)
    ensures And(a, b) / 2 == And(a / 2, b / 2)
    ensures And(a, b) % 2 == 1 <==> a % 2 == 1 && b % 2 == 1
  {
  }

  lemma OrStep(a: nat, b: nat)
    ensures Or(a, b) / 2 == Or(a / 2, b / 2)
    ensures Or(a, b) % 2 == 1 <==> a % 2 == 1 || b % 2 == 1
  {
  }

  lemma {:induction false} AndBits(a: nat, b: nat, k: nat)
    ensures Bit(And(a, b), k) == (Bit(a, k) && Bit(b, k))
  {
    hide And;
    AndStep(a, b);
    if k > 0 {
      AndBits(a / 2, b / 2, k - 1);
      BitOfHalf(a, k - 1);
      BitOfHalf(b, k - 1);
      BitOfHalf(And(a, b), k - 1);
    }
  }

  lemma {:induction false} OrBits(a: nat, b: nat, k: nat)
    ensures Bit(Or(a, b), k) == (Bit(a, k) || Bit(b, k))
  {
    hide Or;
    OrStep(a, b);
    if k > 0 {
      OrBits(a / 2, b / 2, k - 1);
      BitOfHalf(a, k - 1);
      BitOfHalf(b, k - 1);
      BitOfHalf(Or(a, b), k - 1);
    }
  }

  lemma ComplementHalf(a: nat, p: nat)
    requires a < 2 * p
    ensures a / 2 < p && (2 * p - 1 - a) / 2 == p - 1 - a / 2
    ensures (2 * p - 1 - a) % 2 == 1 <==> a % 2 != 1
  {
  }

  lemma {:induction false} ComplementBits(a: nat, n: nat, k: nat)
    requires a < Pow2(n) && k < n
    ensures Bit(Pow2(n) - 1 - a, k) == !Bit(a, k)
  {
    var p := Pow2(n - 1);
    assert Pow2(n) == 2 * p;
    hide Pow2, Bit;
    ComplementHalf(a, p);
    BitOfHalf(a, if k > 0 then k - 1 else 0);
    BitOfHalf(2 * p - 1 - a, if k > 0 then k - 1 else 0);
    if k > 0 {
      ComplementBits(a / 2, n - 1, k - 1);
    }
  }

  lemma NotBits(a: Word, k: nat)
    requires k < 32
    ensures Bit(NotWord(a), k) == !Bit(a, k)
  {
    Pow2Values();
    ComplementBits(a, 32, k);
  }

  /** Section A2.2.1 of ARM DDI 0406C. */
  datatype Sum = Sum(result: Word, carry: bool, overflow: bool)

  function AddWithCarry(x: Word, y: Word, carry: bool): Sum {
    var k := if carry then 1 else 0;
    var unsignedSum := x + y + k;
    var signedSum := SInt(x) + SInt(y) + k;
    var result := Wrap(unsignedSum);
    Sum(result, result != unsignedSum, SInt(result) != signedSum)
  }

  lemma SubtractionFlags(x: Word, y: Word)
    ensures var sum := AddWithCarry(x, NotWord(y), true);
            && sum.result == Wrap(x - y)
            && (sum.result == 0 <==> x == y)
            && (sum.carry <==> x >= y)
            && (sum.overflow <==> Bit31(x) != Bit31(y) && Bit31(x) != Bit31(sum.result))
  {
  }

  lemma AdditionFlags(x: Word, y: Word)
    ensures var sum := AddWithCarry(x, y, false);
            && sum.result == Wrap(x + y)
            && (sum.carry <==> sum.result < x)
            && (sum.overflow <==> Bit31(x) == Bit31(y) && Bit31(x) != Bit31(sum.result))
  {
  }
}
