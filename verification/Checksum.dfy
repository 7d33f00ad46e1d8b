/** The one-wire CRC8 of the stub link: two nibble tables against the bit-serial register for
    the polynomial x^8 + x^5 + x^4 + 1, and the errors that it detects. */
module Checksum {
  import opened Words

  /** Tables for the low and the high nibble. */
  const R1: seq<bv8> :=
    [0x00, 0x5e, 0xbc, 0xe2, 0x61, 0x3f, 0xdd, 0x83,
     0xc2, 0x9c, 0x7e, 0x20, 0xa3, 0xfd, 0x1f, 0x41]

  const R2: seq<bv8> :=
    [0x00, 0x9d, 0x23, 0xbe, 0x46, 0xdb, 0x65, 0xf8,
     0x8c, 0x11, 0xaf, 0x32, 0xca, 0x57, 0xe9, 0x74]

  lemma NibbleBound(x: bv8)
    ensures 0 <= (x & 0xF) as int < 16
    ensures 0 <= ((x >> 4) & 0xF) as int < 16
  {
  }

  function Lookup(x: bv8): bv8 {
    NibbleBound(x);
    R1[(x & 0xF) as int] ^ R2[((x >> 4) & 0xF) as int]
  }

  /** Exclusive or: the sum of two polynomials over the field with two elements. */
  function Plus(a: bv8, b: bv8): bv8 {
    a ^ b
  }

  function Crc(crc: bv8, data: seq<bv8>): bv8 {
    if data == [] then crc else Lookup(Plus(data[|data| - 1], Crc(crc, data[..|data| - 1])))
  }

  class Crc8 {
    var crc: bv8

    constructor (data: seq<bv8>)
      ensures crc == Crc(0, data)
    {
      crc := 0;
      new;
      var _ := AddBytes(data);
    }

    method AddBytes(data: seq<bv8>) returns (r: bv8)
      modifies this
      ensures crc == Crc(old(crc), data) && r == crc
    {
      hide Lookup;
      var k := 0;
      while k < |data|
        invariant k <= |data| && crc == Crc(old(crc), data[..k])
      {
        assert data[..k + 1][..k] == data[..k];
        var x := data[k] ^ crc;
        crc := Lookup(x);
        k := k + 1;
      }
      assert data[..k] == data;
      r := crc;
    }

    method GetCrc() returns (r: bv8)
      ensures r == crc
    {
      r := crc;
    }
  }

  // The polynomial, one bit at a time, least significant bit first.

  /** The shift register: x^8 + x^5 + x^4 + 1 read from the low end is 0x8C. */
  function ShiftBit(crc: bv8, bit: bool): bv8 {
    if (crc & 1 == 1) != bit then (crc >> 1) ^ 0x8C else crc >> 1
  }

  /** Feeds the low `n` bits of `b`. */
  function SerialBits(crc: bv8, b: bv8, n: nat): bv8
    decreases n
  {
    if n == 0 then crc else SerialBits(ShiftBit(crc, b & 1 == 1), b >> 1, n - 1)
  }

  function Serial(crc: bv8, data: seq<bv8>): bv8 {
    if data == [] then crc else SerialBits(Serial(crc, data[..|data| - 1]), data[|data| - 1], 8)
  }

  // One byte. Feeding a bit is the same as having added it to the register beforehand.

  function Shift(x: bv8): bv8 {
    ShiftBit(x, false)
  }

  function ShiftBy(x: bv8, n: nat): bv8
    decreases n
  {
    if n == 0 then x else ShiftBy(Shift(x), n - 1)
  }

  function Drop(b: bv8, n: nat): bv8
    decreases n
  {
    if n == 0 then b else Drop(b >> 1, n - 1)
  }

  lemma BitAddedFirst(c: bv8, b: bv8)
    ensures Plus(ShiftBit(c, b & 1 == 1), b >> 1) == Shift(Plus(c, b))
  {
  }

  lemma {:induction false} SerialIsShift(c: bv8, b: bv8, n: nat)
    ensures Plus(SerialBits(c, b, n), Drop(b, n)) == ShiftBy(Plus(c, b), n)
    decreases n
  {
    hide ShiftBit, Shift, Plus;
    if n > 0 {
      SerialIsShift(ShiftBit(c, b & 1 == 1), b >> 1, n - 1);
      BitAddedFirst(c, b);
    }
  }

  lemma {:induction false} ShiftBySum(x: bv8, m: nat, n: nat)
    ensures ShiftBy(x, m + n) == ShiftBy(ShiftBy(x, m), n)
    ensures Drop(x, m + n) == Drop(Drop(x, m), n)
    decreases m
  {
    if m > 0 {
      ShiftBySum(Shift(x), m - 1, n);
      ShiftBySum(x >> 1, m - 1, n);
    }
  }

  function Choose(b: bool, x: bv8): bv8 {
    if b then x else 0
  }

  function ShiftTwo(x: bv8): bv8 {
    (x >> 2) ^ Choose(x & 1 != 0, 0x46) ^ Choose(x & 2 != 0, 0x8c)
  }

  lemma ShiftTwice(x: bv8)
    ensures ShiftBy(x, 2) == ShiftTwo(x) && Drop(x, 2) == x >> 2
  {
    assert ShiftBy(x, 2) == Shift(Shift(x)) by {
      assert ShiftBy(Shift(Shift(x)), 0) == Shift(Shift(x));
      assert ShiftBy(Shift(x), 1) == Shift(Shift(x));
    }
    assert Drop(x, 2) == (x >> 1) >> 1 by {
      assert Drop(x >> 1, 1) == Drop((x >> 1) >> 1, 0);
    }
  }

  function LowTable(n: bv8): bv8 {
    Choose(n & 1 != 0, 0x5e) ^ Choose(n & 2 != 0, 0xbc) ^ Choose(n & 4 != 0, 0x61) ^ Choose(n & 8 != 0, 0xc2)
  }

  function HighTable(n: bv8): bv8 {
    Choose(n & 1 != 0, 0x9d) ^ Choose(n & 2 != 0, 0x23) ^ Choose(n & 4 != 0, 0x46) ^ Choose(n & 8 != 0, 0x8c)
  }

  lemma EightShifts(x: bv8)
    ensures ShiftTwo(ShiftTwo(ShiftTwo(ShiftTwo(x)))) == LowTable(x & 0xF) ^ HighTable((x >> 4) & 0xF)
  {
  }

  lemma EightBits(x: bv8)
    ensures ShiftBy(x, 8) == ShiftTwo(ShiftTwo(ShiftTwo(ShiftTwo(x))))
  {
    ShiftBySum(x, 2, 6);
    ShiftTwice(x);
    ShiftBySum(ShiftTwo(x), 2, 4);
    ShiftTwice(ShiftTwo(x));
    ShiftBySum(ShiftTwo(ShiftTwo(x)), 2, 2);
    ShiftTwice(ShiftTwo(ShiftTwo(x)));
    ShiftTwice(ShiftTwo(ShiftTwo(ShiftTwo(x))));
  }

  lemma EightDrops(x: bv8)
    ensures Drop(x, 8) == 0
  {
    ShiftBySum(x, 2, 6);
    ShiftTwice(x);
    ShiftBySum(x >> 2, 2, 4);
    ShiftTwice(x >> 2);
    ShiftBySum((x >> 2) >> 2, 2, 2);
    ShiftTwice((x >> 2) >> 2);
    ShiftTwice(((x >> 2) >> 2) >> 2);
  }

  lemma Tables(x: bv8)
    requires x & 0xF0 == 0
    ensures 0 <= x as int < 16
    ensures R1[x as int] == LowTable(x) && R2[x as int] == HighTable(x)
  {
    if x == 0 { } else if x == 1 { } else if x == 2 { } else if x == 3 { }
    else if x == 4 { } else if x == 5 { } else if x == 6 { } else if x == 7 { }
    else if x == 8 { } else if x == 9 { } else if x == 10 { } else if x == 11 { }
    else if x == 12 { } else if x == 13 { } else if x == 14 { }
    else { assert x == 15; }
  }

  lemma LookupTables(x: bv8)
    ensures Lookup(x) == LowTable(x & 0xF) ^ HighTable((x >> 4) & 0xF)
  {
    hide LowTable, HighTable;
    assert (x & 0xF) & 0xF0 == 0 && ((x >> 4) & 0xF) & 0xF0 == 0;
    Tables(x & 0xF);
    Tables((x >> 4) & 0xF);
  }

  lemma PlusRules(a: bv8, b: bv8)
    ensures Plus(a, b) == Plus(b, a) && Plus(a, 0) == a && Plus(a, a) == 0
  {
  }

  lemma LookupIsShift(x: bv8)
    ensures Lookup(x) == ShiftBy(x, 8)
  {
    hide LowTable, HighTable, ShiftTwo, Lookup, ShiftBy;
    EightBits(x);
    EightShifts(x);
    LookupTables(x);
  }

  /** The two nibble tables do what the polynomial says to one byte. */
  lemma TableByte(crc: bv8, b: bv8)
    ensures Lookup(Plus(b, crc)) == SerialBits(crc, b, 8)
  {
    hide Lookup, ShiftBy, SerialBits, Plus;
    SerialIsShift(crc, b, 8);
    EightDrops(b);
    PlusRules(crc, b);
    PlusRules(SerialBits(crc, b, 8), 0);
    LookupIsShift(Plus(b, crc));
  }

  // Byte strings.

  /** The table-driven checksum is the bit-serial one. */
  lemma {:induction false} TablesArePolynomial(crc: bv8, data: seq<bv8>)
    ensures Crc(crc, data) == Serial(crc, data)
  {
    hide Lookup;
    if data != [] {
      TablesArePolynomial(crc, data[..|data| - 1]);
      TableByte(Serial(crc, data[..|data| - 1]), data[|data| - 1]);
    }
  }

  lemma {:induction false} CrcAppend(crc: bv8, a: seq<bv8>, b: seq<bv8>)
    ensures Crc(crc, a + b) == Crc(Crc(crc, a), b)
  {
    hide Lookup;
    if b == [] {
      assert a + b == a;
    } else {
      assert (a + b)[..|a + b| - 1] == a + b[..|b| - 1];
      CrcAppend(crc, a, b[..|b| - 1]);
    }
  }

  function Xor(a: seq<bv8>, b: seq<bv8>): (r: seq<bv8>)
    requires |a| == |b|
    ensures |r| == |a| && forall i :: 0 <= i < |a| ==> r[i] == Plus(a[i], b[i])
  {
    seq(|a|, i requires 0 <= i < |a| => Plus(a[i], b[i]))
  }

  lemma ShiftLinear(x: bv8, y: bv8)
    ensures Shift(Plus(x, y)) == Plus(Shift(x), Shift(y))
  {
  }

  lemma {:induction false} ShiftByLinear(x: bv8, y: bv8, n: nat)
    ensures ShiftBy(Plus(x, y), n) == Plus(ShiftBy(x, n), ShiftBy(y, n))
    decreases n
  {
    hide Shift, Plus;
    if n > 0 {
      ShiftLinear(x, y);
      ShiftByLinear(Shift(x), Shift(y), n - 1);
    }
  }

  lemma PlusPairs(a: bv8, b: bv8, c: bv8, d: bv8)
    ensures Plus(Plus(a, b), Plus(c, d)) == Plus(Plus(a, c), Plus(b, d))
  {
    hide Plus;
    PlusAssociative(a, b, Plus(c, d));
    PlusAssociative(b, c, d);
    PlusRules(b, c);
    PlusAssociative(c, b, d);
    PlusAssociative(a, c, Plus(b, d));
  }

  lemma PlusAssociative(a: bv8, b: bv8, c: bv8)
    ensures Plus(Plus(a, b), c) == Plus(a, Plus(b, c))
  {
  }

  lemma LookupLinear(x: bv8, y: bv8)
    ensures Lookup(Plus(x, y)) == Plus(Lookup(x), Lookup(y))
  {
    hide Lookup, ShiftBy, Plus;
    LookupIsShift(x);
    LookupIsShift(y);
    LookupIsShift(Plus(x, y));
    ShiftByLinear(x, y, 8);
  }

  lemma {:induction false} CrcLinear(c: bv8, d: bv8, a: seq<bv8>, b: seq<bv8>)
    requires |a| == |b|
    ensures Crc(Plus(c, d), Xor(a, b)) == Plus(Crc(c, a), Crc(d, b))
  {
    hide Lookup, Plus;
    if a != [] {
      var k := |a| - 1;
      assert Xor(a, b)[..k] == Xor(a[..k], b[..k]);
      CrcLinear(c, d, a[..k], b[..k]);
      var p, q := Crc(c, a[..k]), Crc(d, b[..k]);
      PlusPairs(a[k], b[k], p, q);
      LookupLinear(Plus(a[k], p), Plus(b[k], q));
    }
  }

  // Errors. A difference is a byte string whose set bits are the bits that were changed.

  function Mask(j: nat): bv8
    requires j < 8
  {
    if j == 0 then 0x01 else if j == 1 then 0x02 else if j == 2 then 0x04 else if j == 3 then 0x08
    else if j == 4 then 0x10 else if j == 5 then 0x20 else if j == 6 then 0x40 else 0x80
  }

  /** Bit `i` of a byte string, least significant bit first. */
  predicate BitAt(d: seq<bv8>, i: nat)
    requires i < 8 * |d|
  {
    d[i / 8] & Mask(i % 8) != 0
  }

  /** All changed bits lie within 8 consecutive ones, and there is one. */
  predicate Burst(d: seq<bv8>, start: nat) {
    && (exists i: nat :: i < 8 * |d| && BitAt(d, i))
    && (forall i: nat :: i < 8 * |d| && BitAt(d, i) ==> start <= i < start + 8)
  }

  function Zeros(n: nat): (z: seq<bv8>)
    ensures |z| == n
  {
    seq(n, _ => 0)
  }

  lemma {:induction false} CrcZeros(crc: bv8, n: nat)
    ensures crc == 0 <==> Crc(crc, Zeros(n)) == 0
  {
    hide Lookup, Plus;
    if n > 0 {
      assert Zeros(n)[..n - 1] == Zeros(n - 1);
      CrcZeros(crc, n - 1);
      var c := Crc(crc, Zeros(n - 1));
      PlusRules(0, c);
      PlusRules(c, 0);
      LookupZero(c);
    }
  }

  lemma TablesZero(x: bv8)
    ensures LowTable(x & 0xF) ^ HighTable((x >> 4) & 0xF) == 0 <==> x == 0
  {
  }

  lemma LookupZero(x: bv8)
    ensures Lookup(x) == 0 <==> x == 0
  {
    hide LowTable, HighTable, Lookup;
    LookupTables(x);
    TablesZero(x);
  }

  function LowMask(s: nat): bv8
    requires s < 8
  {
    if s == 0 then 0x00 else if s == 1 then 0x01 else if s == 2 then 0x03 else if s == 3 then 0x07
    else if s == 4 then 0x0F else if s == 5 then 0x1F else if s == 6 then 0x3F else 0x7F
  }

  /** Two adjacent bytes whose set bits lie within the 8 bits that begin at bit `s` of the first. */
  predicate Window(a: bv8, b: bv8, s: nat)
    requires s < 8
  {
    a & LowMask(s) == 0 && b | LowMask(s) == LowMask(s)
  }

  lemma WindowSeen(a: bv8, b: bv8, s: nat)
    requires s < 8 && Window(a, b, s) && (a != 0 || b != 0)
    ensures LowTable(a & 0xF) ^ HighTable((a >> 4) & 0xF) != b
  {
    if s == 0 { } else if s == 1 { } else if s == 2 { } else if s == 3 { }
    else if s == 4 { } else if s == 5 { } else if s == 6 { } else { }
  }

  lemma WindowChangesCrc(a: bv8, b: bv8, s: nat)
    requires s < 8 && Window(a, b, s) && (a != 0 || b != 0)
    ensures Lookup(Plus(b, Lookup(a))) != 0
  {
    hide LowTable, HighTable, Lookup, Window;
    WindowSeen(a, b, s);
    LookupTables(a);
    LookupZero(Plus(b, Lookup(a)));
    PlusZero(b, Lookup(a));
  }

  lemma PlusZero(a: bv8, b: bv8)
    ensures Plus(a, b) == 0 <==> a == b
  {
  }

  lemma ClearBits(a: bv8, b: bv8, s: nat)
    requires s < 8
    requires forall j: nat :: j < s ==> a & Mask(j) == 0
    requires forall j: nat :: s <= j < 8 ==> b & Mask(j) == 0
    ensures Window(a, b, s)
  {
    EightMasks(a);
    EightMasks(b);
    if s == 0 { } else if s == 1 { } else if s == 2 { } else if s == 3 { }
    else if s == 4 { } else if s == 5 { } else if s == 6 { } else { }
  }

  lemma EightMasks(a: bv8)
    ensures Mask(0) == 0x01 && Mask(1) == 0x02 && Mask(2) == 0x04 && Mask(3) == 0x08
    ensures Mask(4) == 0x10 && Mask(5) == 0x20 && Mask(6) == 0x40 && Mask(7) == 0x80
  {
  }

  lemma ZeroByte(a: bv8)
    requires forall j: nat :: j < 8 ==> a & Mask(j) == 0
    ensures a == 0
  {
    EightMasks(a);
    assert a & 0x01 == 0 && a & 0x02 == 0 && a & 0x04 == 0 && a & 0x08 == 0;
    assert a & 0x10 == 0 && a & 0x20 == 0 && a & 0x40 == 0 && a & 0x80 == 0;
  }

  lemma BitIndex(d: seq<bv8>, i: nat, j: nat)
    requires i < |d| && j < 8
    ensures BitAt(d, 8 * i + j) == (d[i] & Mask(j) != 0)
  {
    assert (8 * i + j) / 8 == i && (8 * i + j) % 8 == j;
  }

  lemma BurstByte(d: seq<bv8>, start: nat, i: nat)
    requires Burst(d, start) && i < |d|
    ensures i != start / 8 && i != start / 8 + 1 ==> d[i] == 0
    ensures i == start / 8 ==> forall j: nat :: j < start % 8 ==> d[i] & Mask(j) == 0
    ensures i == start / 8 + 1 ==> forall j: nat :: start % 8 <= j < 8 ==> d[i] & Mask(j) == 0
  {
    hide BitAt, Mask;
    forall j: nat | j < 8
      ensures d[i] & Mask(j) != 0 ==> start <= 8 * i + j < start + 8
    {
      BitIndex(d, i, j);
    }
    if i != start / 8 && i != start / 8 + 1 {
      ZeroByte(d[i]);
    }
  }

  /** The byte string `d` with at most two adjacent bytes that are not 0. */
  predicate TwoBytes(d: seq<bv8>, k: nat, b: bv8) {
    k < |d| && d == Zeros(k) + [d[k]] + (if k + 1 < |d| then [b] + Zeros(|d| - k - 2) else [])
    && (k + 1 == |d| ==> b == 0)
  }

  lemma BurstTouches(d: seq<bv8>, start: nat)
    requires Burst(d, start)
    ensures var k := start / 8;
            k < |d| && (d[k] != 0 || (k + 1 < |d| && d[k + 1] != 0))
  {
    hide BitAt, Mask;
    var i: nat :| i < 8 * |d| && BitAt(d, i);
    BitIndex(d, i / 8, i % 8);
    MaskZero(i % 8);
  }

  lemma BurstWithin(d: seq<bv8>, start: nat)
    requires Burst(d, start) && start / 8 < |d|
    ensures forall i :: 0 <= i < |d| && i != start / 8 && i != start / 8 + 1 ==> d[i] == 0
    ensures var k := start / 8;
            Window(d[k], if k + 1 < |d| then d[k + 1] else 0, start % 8)
  {
    hide Burst, Window, Mask;
    forall i | 0 <= i < |d| && i != start / 8 && i != start / 8 + 1
      ensures d[i] == 0
    {
      BurstByte(d, start, i);
    }
    var k := start / 8;
    BurstByte(d, start, k);
    if k + 1 < |d| {
      BurstByte(d, start, k + 1);
      ClearBits(d[k], d[k + 1], start % 8);
    } else {
      forall j: nat | j < 8
        ensures 0 & Mask(j) == 0
      {
        MaskZero(j);
      }
      ClearBits(d[k], 0, start % 8);
    }
  }

  lemma BurstShape(d: seq<bv8>, start: nat)
    requires Burst(d, start)
    ensures var k := start / 8;
            k < |d|
            && var b := if k + 1 < |d| then d[k + 1] else 0;
            Window(d[k], b, start % 8) && (d[k] != 0 || b != 0) && TwoBytes(d, k, b)
  {
    hide Burst, Window;
    BurstTouches(d, start);
    BurstWithin(d, start);
  }

  lemma MaskZero(j: nat)
    requires j < 8
    ensures 0 & Mask(j) == 0
  {
  }

  lemma BurstChangesCrc(d: seq<bv8>, start: nat)
    requires Burst(d, start)
    ensures Crc(0, d) != 0
  {
    hide Lookup, Plus, Window;
    BurstShape(d, start);
    var k := start / 8;
    var a, b := d[k], if k + 1 < |d| then d[k + 1] else 0;
    CrcZeros(0, k);
    CrcAppend(0, Zeros(k), [a]);
    CrcOne(0, a);
    PlusRules(a, 0);
    WindowChangesCrc(a, b, start % 8);
    if k + 1 < |d| {
      CrcAppend(0, Zeros(k) + [a], [b] + Zeros(|d| - k - 2));
      CrcAppend(Lookup(a), [b], Zeros(|d| - k - 2));
      CrcOne(Lookup(a), b);
      CrcZeros(Lookup(Plus(b, Lookup(a))), |d| - k - 2);
    } else {
      assert d == Zeros(k) + [a];
      LookupZero(a);
    }
  }

  lemma CrcOne(crc: bv8, a: bv8)
    ensures Crc(crc, [a]) == Lookup(Plus(a, crc))
  {
    assert [a][..0] == [];
    assert Crc(crc, []) == crc;
  }

  /** The last byte is the checksum of the rest. */
  predicate Checked(body: seq<bv8>) {
    body != [] && body[|body| - 1] == Crc(0, body[..|body| - 1])
  }

  lemma CheckedIsZero(body: seq<bv8>)
    requires body != []
    ensures Checked(body) <==> Crc(0, body) == 0
  {
    hide Lookup, Plus;
    var k := |body| - 1;
    PlusZero(body[k], Crc(0, body[..k]));
    LookupZero(Plus(body[k], Crc(0, body[..k])));
  }

  /** A body with its checksum, changed by `d`, passes exactly if `d` has checksum 0. */
  lemma CheckedAfter(payload: seq<bv8>, d: seq<bv8>)
    requires |d| == |payload| + 1
    ensures var body := payload + [Crc(0, payload)];
            Checked(body) && (Checked(Xor(body, d)) <==> Crc(0, d) == 0)
  {
    hide Lookup, Plus;
    var body := payload + [Crc(0, payload)];
    assert body[..|payload|] == payload;
    CheckedIsZero(body);
    CheckedIsZero(Xor(body, d));
    PlusRules(0, 0);
    CrcLinear(0, 0, body, d);
    PlusRules(0, Crc(0, d));
    PlusRules(Crc(0, d), 0);
  }

  lemma CrcNext(data: seq<bv8>, x: bv8, crc: bv8, after: bv8)
    requires Crc(0, data) == crc && Lookup(Plus(x, crc)) == after
    ensures Crc(0, data + [x]) == after
  {
    hide Lookup, Plus;
    assert (data + [x])[..|data|] == data;
  }

  /** The check value that is published for this checksum: that of the text 123456789. */
  lemma CheckValue()
    ensures Crc(0, [0x31] + [0x32] + [0x33] + [0x34] + [0x35] + [0x36] + [0x37] + [0x38] + [0x39]) == 0xA1
  {
    hide Crc;
    CrcOne(0, 0x31);
    CrcNext([0x31], 0x32, 0xE0, 0xEB);
    CrcNext([0x31] + [0x32], 0x33, 0xEB, 0x95);
    CrcNext([0x31] + [0x32] + [0x33], 0x34, 0x95, 0xF1);
    CrcNext([0x31] + [0x32] + [0x33] + [0x34], 0x35, 0xF1, 0xAB);
    CrcNext([0x31] + [0x32] + [0x33] + [0x34] + [0x35], 0x36, 0xAB, 0xEC);
    CrcNext([0x31] + [0x32] + [0x33] + [0x34] + [0x35] + [0x36], 0x37, 0xEC, 0x77);
    CrcNext([0x31] + [0x32] + [0x33] + [0x34] + [0x35] + [0x36] + [0x37], 0x38, 0x77, 0x07);
    CrcNext([0x31] + [0x32] + [0x33] + [0x34] + [0x35] + [0x36] + [0x37] + [0x38], 0x39, 0x07, 0xA1);
  }

  // An odd number of changed bits. The polynomial is divisible by x + 1, so the register keeps
  // the parity of what it is fed.

  function Ones(b: bv8): nat {
    (if b & 0x01 != 0 then 1 else 0) + (if b & 0x02 != 0 then 1 else 0)
    + (if b & 0x04 != 0 then 1 else 0) + (if b & 0x08 != 0 then 1 else 0)
    + (if b & 0x10 != 0 then 1 else 0) + (if b & 0x20 != 0 then 1 else 0)
    + (if b & 0x40 != 0 then 1 else 0) + (if b & 0x80 != 0 then 1 else 0)
  }

  function ChangedBits(d: seq<bv8>): nat {
    if d == [] then 0 else ChangedBits(d[..|d| - 1]) + Ones(d[|d| - 1])
  }

  function FoldFour(b: bv8): bv8 {
    b ^ (b >> 4)
  }

  function FoldTwo(b: bv8): bv8 {
    b ^ (b >> 2)
  }

  function FoldOne(b: bv8): bv8 {
    b ^ (b >> 1)
  }

  predicate Parity(b: bv8) {
    FoldOne(FoldTwo(FoldFour(b))) & 1 == 1
  }

  lemma OnesParity(b: bv8)
    ensures Parity(b) <==> Ones(b) % 2 == 1
  {
  }

  lemma FoldsLinear(a: bv8, b: bv8)
    ensures FoldFour(Plus(a, b)) == Plus(FoldFour(a), FoldFour(b))
    ensures FoldTwo(Plus(a, b)) == Plus(FoldTwo(a), FoldTwo(b))
    ensures FoldOne(Plus(a, b)) == Plus(FoldOne(a), FoldOne(b))
  {
  }

  lemma LowBit(a: bv8, b: bv8)
    ensures Plus(a, b) & 1 == 1 <==> (a & 1 == 1) != (b & 1 == 1)
  {
  }

  lemma PlusParity(a: bv8, b: bv8)
    ensures Parity(Plus(a, b)) <==> Parity(a) != Parity(b)
  {
    hide Plus, FoldFour, FoldTwo, FoldOne;
    FoldsLinear(a, b);
    FoldsLinear(FoldFour(a), FoldFour(b));
    FoldsLinear(FoldTwo(FoldFour(a)), FoldTwo(FoldFour(b)));
    LowBit(FoldOne(FoldTwo(FoldFour(a))), FoldOne(FoldTwo(FoldFour(b))));
  }

  lemma TablesParity(x: bv8)
    ensures Parity(LowTable(x & 0xF) ^ HighTable((x >> 4) & 0xF)) == Parity(x)
  {
  }

  lemma LookupParity(x: bv8)
    ensures Parity(Lookup(x)) == Parity(x)
  {
    hide LowTable, HighTable, Lookup, Parity;
    LookupTables(x);
    TablesParity(x);
  }

  lemma {:induction false} CrcParity(d: seq<bv8>)
    ensures Parity(Crc(0, d)) <==> ChangedBits(d) % 2 == 1
  {
    hide Lookup, Plus, Ones;
    if d != [] {
      hide Parity;
      var k := |d| - 1;
      CrcParity(d[..k]);
      OnesParity(d[k]);
      PlusParity(d[k], Crc(0, d[..k]));
      LookupParity(Plus(d[k], Crc(0, d[..k])));
    }
  }

  lemma OddChangesCrc(d: seq<bv8>)
    requires ChangedBits(d) % 2 == 1
    ensures Crc(0, d) != 0
  {
    CrcParity(d);
  }

  // Bytes as numbers.

  function ToBits(s: seq<Byte>): (r: seq<bv8>)
    ensures |r| == |s|
  {
    seq(|s|, i requires 0 <= i < |s| => s[i] as bv8)
  }

  function OfBits(b: bv8): Byte {
    b as int
  }

  lemma OfBitsBack(b: bv8)
    ensures OfBits(b) as bv8 == b
  {
  }

  /** The checksum of a byte string, and whether the last byte of a body is the checksum of the rest. */
  function ChecksumOf(s: seq<Byte>): Byte {
    OfBits(Crc(0, ToBits(s)))
  }

  predicate Accepted(body: seq<Byte>) {
    body != [] && body[|body| - 1] == ChecksumOf(body[..|body| - 1])
  }

  function DamagedByte(x: Byte, c: bv8): Byte {
    OfBits(Plus(x as bv8, c))
  }

  /** The bytes with the bits of `d` changed. */
  function Damage(body: seq<Byte>, d: seq<bv8>): (r: seq<Byte>)
    requires |body| == |d|
    ensures |r| == |body|
  {
    seq(|body|, i requires 0 <= i < |body| => DamagedByte(body[i], d[i]))
  }

  function AsBytes(bits: seq<bv8>): (r: seq<Byte>)
    ensures |r| == |bits|
  {
    seq(|bits|, i requires 0 <= i < |bits| => OfBits(bits[i]))
  }

  lemma ToBitsBack(bits: seq<bv8>)
    ensures ToBits(AsBytes(bits)) == bits
  {
    forall i | 0 <= i < |bits|
      ensures ToBits(AsBytes(bits))[i] == bits[i]
    {
      OfBitsBack(bits[i]);
    }
  }

  lemma AcceptedBits(bits: seq<bv8>)
    requires bits != []
    ensures Accepted(AsBytes(bits)) <==> Checked(bits)
  {
    hide Crc;
    var k := |bits| - 1;
    assert AsBytes(bits)[..k] == AsBytes(bits[..k]);
    ToBitsBack(bits[..k]);
    OfBitsBack(bits[k]);
    OfBitsBack(Crc(0, bits[..k]));
  }

  lemma DamageIsXor(body: seq<Byte>, d: seq<bv8>)
    requires |body| == |d|
    ensures Damage(body, d) == AsBytes(Xor(ToBits(body), d))
  {
    hide Plus;
  }

  /** A body with its checksum is accepted; damaged by `d` it is accepted exactly if `d` has
      checksum 0. */
  lemma AcceptedAfter(payload: seq<Byte>, d: seq<bv8>)
    requires |d| == |payload| + 1
    ensures var body := payload + [ChecksumOf(payload)];
            Accepted(body) && (Accepted(Damage(body, d)) <==> Crc(0, d) == 0)
  {
    hide Crc, Checked, Plus, Damage;
    var body := payload + [ChecksumOf(payload)];
    assert body[..|payload|] == payload;
    OfBitsBack(Crc(0, ToBits(payload)));
    assert ToBits(body) == ToBits(payload) + [Crc(0, ToBits(payload))];
    DamageIsXor(body, d);
    AcceptedBits(Xor(ToBits(body), d));
    CheckedAfter(ToBits(payload), d);
  }

  /** Change any bits of an accepted body, the checksum included, within 8 consecutive ones, and
      it is no longer accepted. */
  lemma BurstRejected(payload: seq<Byte>, d: seq<bv8>, start: nat)
    requires |d| == |payload| + 1 && Burst(d, start)
    ensures var body := payload + [ChecksumOf(payload)];
            Accepted(body) && !Accepted(Damage(body, d))
  {
    hide Crc, Burst;
    AcceptedAfter(payload, d);
    BurstChangesCrc(d, start);
  }

  /** The same for an odd number of changed bits, wherever they are. */
  lemma OddRejected(payload: seq<Byte>, d: seq<bv8>)
    requires |d| == |payload| + 1 && ChangedBits(d) % 2 == 1
    ensures var body := payload + [ChecksumOf(payload)];
            Accepted(body) && !Accepted(Damage(body, d))
  {
    hide Crc;
    AcceptedAfter(payload, d);
    OddChangesCrc(d);
  }
}
