/** Frames that are damaged on the wire, after they have been escaped: what becomes of the
    receiver and of the frame when the damage creates and destroys no marker and no escape. */
module WireDamage {
  import opened Words
  import opened Checksum
  import opened Framing

  /** The damage leaves the end markers and the escape bytes where they are. */
  predicate KeepsMarkers(w: seq<Byte>, w': seq<Byte>) {
    |w'| == |w| && forall i :: 0 <= i < |w| ==> (w'[i] == 0x55 <==> w[i] == 0x55) && (w'[i] == 0xAA <==> w[i] == 0xAA)
  }

  /** What damage `d` to the escaped form of a byte does to the byte. The second byte of an
      escape counts as 1 or as anything else. */
  function ByteDiff(x: Byte, d: seq<bv8>): bv8
    requires |d| == |EscapeByte(x)|
  {
    if x == 0xAA then (if d[1] == 0x03 then 0xFF else 0x00)
    else if x == 0x55 then (if d[1] == 0x00 then 0x00 else 0xFF)
    else d[0]
  }

  /** Where the escaped form of body byte `j` begins. */
  function Offset(body: seq<Byte>, j: nat): nat
    requires j <= |body|
  {
    |EscapeBytes(body[..j])|
  }

  lemma OffsetNext(body: seq<Byte>, j: nat)
    requires j < |body|
    ensures Offset(body, j + 1) == Offset(body, j) + |EscapeByte(body[j])|
    ensures Offset(body, |body|) == |EscapeBytes(body)|
  {
    assert body[..j + 1][..j] == body[..j] && body[..|body|] == body;
  }

  function BodyDiff(body: seq<Byte>, d: seq<bv8>): (e: seq<bv8>)
    requires |d| == |EscapeBytes(body)|
    ensures |e| == |body|
  {
    if body == [] then []
    else
      var k := |body| - 1;
      var n := |EscapeBytes(body[..k])|;
      BodyDiff(body[..k], d[..n]) + [ByteDiff(body[k], d[n..])]
  }

  // What the receiver makes of it.

  lemma DamageSplit(a: seq<Byte>, b: seq<Byte>, d: seq<bv8>)
    requires |d| == |a| + |b|
    ensures Damage(a + b, d) == Damage(a, d[..|a|]) + Damage(b, d[|a|..])
  {
    hide DamagedByte;
  }

  lemma KeepsSplit(a: seq<Byte>, b: seq<Byte>, a': seq<Byte>, b': seq<Byte>)
    requires |a'| == |a| && |b'| == |b| && KeepsMarkers(a + b, a' + b')
    ensures KeepsMarkers(a, a') && KeepsMarkers(b, b')
  {
    forall i | 0 <= i < |a|
      ensures (a'[i] == 0x55 <==> a[i] == 0x55) && (a'[i] == 0xAA <==> a[i] == 0xAA)
    {
      assert (a + b)[i] == a[i] && (a' + b')[i] == a'[i];
    }
    forall i | 0 <= i < |b|
      ensures (b'[i] == 0x55 <==> b[i] == 0x55) && (b'[i] == 0xAA <==> b[i] == 0xAA)
    {
      assert (a + b)[|a| + i] == b[i] && (a' + b')[|a| + i] == b'[i];
    }
  }

  lemma Flips(c: bv8)
    ensures DamagedByte(0x01, c) == 1 <==> c == 0
    ensures DamagedByte(0x02, c) == 1 <==> c == 3
    ensures DamagedByte(0xAA, c) == 0xAA <==> c == 0
    ensures DamagedByte(0x55, 0xFF) == 0xAA && DamagedByte(0xAA, 0xFF) == 0x55
    ensures DamagedByte(0x55, 0x00) == 0x55 && DamagedByte(0xAA, 0x00) == 0xAA
  {
    OfBitsBack(Plus(0x01, c));
    OfBitsBack(Plus(0x02, c));
    OfBitsBack(Plus(0xAA, c));
  }

  lemma DamagedPair(x: Byte, d: seq<bv8>)
    requires |EscapeByte(x)| == 2 && |d| == 2
    ensures Damage(EscapeByte(x), d) == [DamagedByte(0xAA, d[0]), DamagedByte(EscapeByte(x)[1], d[1])]
    ensures DamagedByte(x, ByteDiff(x, d)) == Unescape(DamagedByte(EscapeByte(x)[1], d[1]))
  {
    hide DamagedByte;
    Flips(d[1]);
  }

  lemma FeedDamagedByte(s: Rx, x: Byte, d: seq<bv8>)
    requires !s.escaping && |d| == |EscapeByte(x)| && KeepsMarkers(EscapeByte(x), Damage(EscapeByte(x), d))
    ensures Feed(s, Damage(EscapeByte(x), d)) == s.(buffer := s.buffer + [DamagedByte(x, ByteDiff(x, d))])
  {
    hide Feed, DamagedByte;
    var w' := Damage(EscapeByte(x), d);
    if |EscapeByte(x)| == 2 {
      DamagedPair(x, d);
      FeedPair(s, w'[0], w'[1]);
    } else {
      assert w' == [DamagedByte(x, d[0])];
      FeedOne(s, w'[0]);
    }
  }

  /** The receiver reads a damaged body from the damaged bytes and stays in step with the frame. */
  lemma {:induction false} FeedDamaged(s: Rx, body: seq<Byte>, d: seq<bv8>)
    requires !s.escaping && |d| == |EscapeBytes(body)|
    requires KeepsMarkers(EscapeBytes(body), Damage(EscapeBytes(body), d))
    ensures Feed(s, Damage(EscapeBytes(body), d)) == s.(buffer := s.buffer + Damage(body, BodyDiff(body, d)))
  {
    hide DamagedByte, Receive, ByteDiff, EscapeByte, KeepsMarkers;
    if body == [] {
      assert s.buffer + [] == s.buffer;
    } else {
      hide Feed, BodyDiff, Damage;
      var k := |body| - 1;
      var a, b := EscapeBytes(body[..k]), EscapeByte(body[k]);
      var d0, d1 := d[..|a|], d[|a|..];
      DamageSplit(a, b, d);
      KeepsSplit(a, b, Damage(a, d0), Damage(b, d1));
      FeedDamaged(s, body[..k], d0);
      var e := Damage(body[..k], BodyDiff(body[..k], d0));
      FeedDamagedByte(s.(buffer := s.buffer + e), body[k], d1);
      FeedNext(s, Damage(a, d0), Damage(b, d1), e, DamagedByte(body[k], ByteDiff(body[k], d1)));
      DamagedLast(body, d);
    }
  }

  lemma DamagedLast(body: seq<Byte>, d: seq<bv8>)
    requires body != [] && |d| == |EscapeBytes(body)|
    ensures var k := |body| - 1;
            var n := |EscapeBytes(body[..k])|;
            Damage(body, BodyDiff(body, d))
              == Damage(body[..k], BodyDiff(body[..k], d[..n])) + [DamagedByte(body[k], ByteDiff(body[k], d[n..]))]
  {
    hide DamagedByte, ByteDiff;
  }

  /** Whatever the damage, if it keeps the markers, the receiver is fresh behind the frame. */
  lemma StaysInStep(accepted: seq<seq<Byte>>, body: seq<Byte>, d: seq<bv8>)
    requires |d| == |EscapeBytes(body)|
    requires var w, w' := EscapeBytes(body), Damage(EscapeBytes(body), d);
             forall i :: 0 <= i < |w| ==> (w'[i] == 0x55 <==> w[i] == 0x55) && (w'[i] == 0xAA <==> w[i] == 0xAA)
    ensures Feed(Fresh(accepted), Damage(EscapeBytes(body), d) + [END_MARKER])
              == Fresh(Deliver(accepted, Damage(body, BodyDiff(body, d))))
  {
    hide Feed, EscapeBytes, BodyDiff, Damage, Deliver;
    assert KeepsMarkers(EscapeBytes(body), Damage(EscapeBytes(body), d));
    var body' := Damage(body, BodyDiff(body, d));
    FeedAppend(Fresh(accepted), Damage(EscapeBytes(body), d), [END_MARKER]);
    FeedDamaged(Fresh(accepted), body, d);
    assert [] + body' == body';
    FeedOne(Rx(body', false, accepted), END_MARKER);
  }

  // Which bursts get through.

  predicate AllZero(d: seq<bv8>) {
    forall i :: 0 <= i < |d| ==> d[i] == 0
  }

  /** The last byte of the body that the damage touches. */
  predicate LastTouched(body: seq<Byte>, d: seq<bv8>, j: nat)
    requires |d| == |EscapeBytes(body)|
  {
    j < |body| && Offset(body, j) <= Offset(body, j + 1) <= |d|
    && !AllZero(d[Offset(body, j)..Offset(body, j + 1)]) && AllZero(d[Offset(body, j + 1)..])
  }

  /** A burst that keeps the markers gets through in two cases: it touches only the second byte
      of an escaped 0xAA and does not make it 1, which changes nothing; or it touches the second
      byte of an escaped 0x55, which becomes 0xAA, and changes the next byte by 0x35, the
      checksum of the difference. */
  predicate GetsThrough(body: seq<Byte>, d: seq<bv8>, j: nat)
    requires |d| == |EscapeBytes(body)| && LastTouched(body, d, j)
  {
    var o := Offset(body, j);
    OffsetNext(body, j);
    if body[j] == 0xAA then d[o + 1] != 0x03
    else if body[j] == 0x55 then false
    else j > 0 && body[j - 1] == 0x55 && o > 0 && d[o - 1] != 0 && d[o] == 0x35
  }

  /** At most two adjacent bytes differ from 0, within 8 consecutive bits. */
  predicate Adjacent(d: seq<bv8>, p: nat, s: nat) {
    s < 8 && (forall i :: 0 <= i < |d| && i != p && i != p + 1 ==> d[i] == 0)
    && (p + 1 < |d| ==> Window(d[p], d[p + 1], s))
  }

  lemma BurstIsAdjacent(d: seq<bv8>, start: nat)
    requires Burst(d, start)
    ensures Adjacent(d, start / 8, start % 8) && !AllZero(d)
  {
    hide Burst, Window;
    BurstTouches(d, start);
    BurstWithin(d, start);
  }

  lemma {:induction false} ZeroDiff(body: seq<Byte>, d: seq<bv8>)
    requires |d| == |EscapeBytes(body)| && AllZero(d)
    ensures BodyDiff(body, d) == Checksum.Zeros(|body|)
  {
    if body != [] {
      var k := |body| - 1;
      ZeroDiff(body[..k], d[..|EscapeBytes(body[..k])|]);
    }
  }

  /** The checksum of a difference that ends in one byte, or in two. */
  lemma OneDiff(k: nat, a: bv8)
    ensures Crc(0, Checksum.Zeros(k) + [a]) == 0 <==> a == 0
  {
    hide Lookup, Plus;
    CrcZeros(0, k);
    CrcAppend(0, Checksum.Zeros(k), [a]);
    CrcOne(0, a);
    PlusRules(a, 0);
    LookupZero(a);
  }

  lemma TwoDiff(k: nat, a: bv8, b: bv8)
    ensures Crc(0, Checksum.Zeros(k) + [a] + [b]) == 0 <==> b == Lookup(a)
  {
    hide Lookup, Plus;
    CrcZeros(0, k);
    CrcAppend(0, Checksum.Zeros(k), [a]);
    CrcOne(0, a);
    PlusRules(a, 0);
    CrcAppend(0, Checksum.Zeros(k) + [a], [b]);
    CrcOne(Lookup(a), b);
    LookupZero(Plus(b, Lookup(a)));
    PlusZero(b, Lookup(a));
  }

  lemma TrailingZero(e: seq<bv8>)
    ensures Crc(0, e + [0]) == 0 <==> Crc(0, e) == 0
  {
    hide Lookup, Plus;
    CrcAppend(0, e, [0]);
    CrcOne(Crc(0, e), 0);
    PlusRules(0, Crc(0, e));
    PlusRules(Crc(0, e), 0);
    LookupZero(Crc(0, e));
  }

  lemma LastOffset(body: seq<Byte>)
    requires body != []
    ensures var k := |body| - 1;
            Offset(body, k) == |EscapeBytes(body[..k])| && Offset(body, |body|) == |EscapeBytes(body)|
            && |EscapeBytes(body)| == |EscapeBytes(body[..k])| + |EscapeByte(body[k])|
  {
    hide EscapeByte;
    assert body[..|body|] == body;
  }

  lemma PrefixOffset(body: seq<Byte>, k: nat, j: nat)
    requires j <= k <= |body|
    ensures Offset(body[..k], j) == Offset(body, j)
  {
    hide EscapeBytes;
    assert body[..k][..j] == body[..j];
  }

  /** If only the last byte of the body is touched, the checksum is 0 if its difference is. */
  lemma LastDiff(body: seq<Byte>, d: seq<bv8>)
    requires body != [] && |d| == |EscapeBytes(body)| && AllZero(d[..|EscapeBytes(body[..|body| - 1])|])
    ensures Crc(0, BodyDiff(body, d)) == 0 <==>
            ByteDiff(body[|body| - 1], d[|EscapeBytes(body[..|body| - 1])|..]) == 0
    ensures Crc(0, BodyDiff(body, d)) == 0 ==> AllZero(BodyDiff(body, d))
  {
    hide Crc, ByteDiff;
    var k := |body| - 1;
    var n := |EscapeBytes(body[..k])|;
    ZeroDiff(body[..k], d[..n]);
    OneDiff(k, ByteDiff(body[k], d[n..]));
  }

  lemma EscapedTouched(body: seq<Byte>, d: seq<bv8>, p: nat, s: nat)
    requires body != [] && |d| == |EscapeBytes(body)| && Adjacent(d, p, s)
    requires var k := |body| - 1;
             |EscapeByte(body[k])| == 2 && d[Offset(body, k)] == 0 && !AllZero(d[Offset(body, k)..])
    ensures Crc(0, BodyDiff(body, d)) == 0 <==> body[|body| - 1] == 0xAA && d[|d| - 1] != 0x03
    ensures Crc(0, BodyDiff(body, d)) == 0 ==> AllZero(BodyDiff(body, d))
  {
    hide Crc, Window, BodyDiff;
    var k := |body| - 1;
    var n := |EscapeBytes(body[..k])|;
    LastOffset(body);
    assert d[n + 1] != 0;
    assert p == n || p == n + 1;
    LastDiff(body, d);
  }

  lemma PlainTouched(body: seq<Byte>, d: seq<bv8>, p: nat, s: nat)
    requires body != [] && |d| == |EscapeBytes(body)| && Adjacent(d, p, s)
    requires var n := Offset(body, |body| - 1);
             |d| == n + 1 && d[n] != 0 && (n == 0 || d[n - 1] == 0)
    ensures Crc(0, BodyDiff(body, d)) != 0
  {
    hide Crc, Window, BodyDiff, EscapeBytes;
    var n := |EscapeBytes(body[..|body| - 1])|;
    LastOffset(body);
    assert p == n || p + 1 == n;
    LastDiff(body, d);
  }

  lemma PairDiff(y: Byte, chunk: seq<bv8>, b: bv8, s: nat)
    requires s < 8 && |chunk| == |EscapeByte(y)| && b != 0
    requires chunk[|chunk| - 1] != 0 && Window(chunk[|chunk| - 1], b, s)
    ensures b == Lookup(ByteDiff(y, chunk)) <==> y == 0x55 && b == 0x35
  {
  }

  /** If only the last two bytes are touched, the second one plain. */
  lemma LastTwoDiff(body: seq<Byte>, y: Byte, x: Byte, d: seq<bv8>, chunk: seq<bv8>, b: bv8)
    requires |d| == |EscapeBytes(body)| && AllZero(d)
    requires |chunk| == |EscapeByte(y)| && |EscapeByte(x)| == 1
    ensures |d + chunk + [b]| == |EscapeBytes(body + [y] + [x])|
    ensures Crc(0, BodyDiff(body + [y] + [x], d + chunk + [b])) == 0 <==> b == Lookup(ByteDiff(y, chunk))
  {
    hide Crc, ByteDiff, EscapeByte, Lookup;
    OneMore(body, y, d, chunk);
    OneMore(body + [y], x, d + chunk, [b]);
    ZeroDiff(body, d);
    hide BodyDiff, EscapeBytes, AllZero;
    PlainDiff(x, b);
    TwoDiff(|body|, ByteDiff(y, chunk), b);
  }

  lemma PlainDiff(x: Byte, b: bv8)
    requires |EscapeByte(x)| == 1
    ensures ByteDiff(x, [b]) == b
  {
  }

  lemma OneMore(body: seq<Byte>, y: Byte, d: seq<bv8>, chunk: seq<bv8>)
    requires |d| == |EscapeBytes(body)| && |chunk| == |EscapeByte(y)|
    ensures EscapeBytes(body + [y]) == EscapeBytes(body) + EscapeByte(y)
    ensures BodyDiff(body + [y], d + chunk) == BodyDiff(body, d) + [ByteDiff(y, chunk)]
  {
    hide ByteDiff, EscapeByte;
    assert (body + [y])[..|body|] == body;
    assert (d + chunk)[..|d|] == d && (d + chunk)[|d|..] == chunk;
  }

  lemma SplitTouched(body: seq<Byte>, y: Byte, x: Byte, d: seq<bv8>, chunk: seq<bv8>, b: bv8, s: nat)
    requires |d| == |EscapeBytes(body)| && AllZero(d)
    requires |chunk| == |EscapeByte(y)| && |EscapeByte(x)| == 1
    requires s < 8 && b != 0 && chunk[|chunk| - 1] != 0 && Window(chunk[|chunk| - 1], b, s)
    ensures |d + chunk + [b]| == |EscapeBytes(body + [y] + [x])|
    ensures Crc(0, BodyDiff(body + [y] + [x], d + chunk + [b])) == 0 <==> y == 0x55 && b == 0x35
  {
    hide Crc, ByteDiff, EscapeByte, EscapeBytes, BodyDiff, Window, Lookup;
    LastTwoDiff(body, y, x, d, chunk, b);
    PairDiff(y, chunk, b, s);
  }

  lemma LastTwo<T>(t: seq<T>, m: nat, n: nat)
    requires m <= n && n + 1 == |t|
    ensures t == t[..m] + t[m..n] + [t[n]] && t[..n][..m] == t[..m]
  {
  }

  lemma PairTouched(body: seq<Byte>, d: seq<bv8>, p: nat, s: nat)
    requires |body| >= 2 && |d| == |EscapeBytes(body)| && Adjacent(d, p, s)
    requires var n := Offset(body, |body| - 1);
             |d| == n + 1 && n > 0 && d[n] != 0 && d[n - 1] != 0
    ensures Crc(0, BodyDiff(body, d)) == 0 <==> body[|body| - 2] == 0x55 && d[|d| - 1] == 0x35
  {
    hide Crc, EscapeByte, EscapeBytes, BodyDiff, Window;
    var k, n := |body| - 1, |d| - 1;
    LastOffset(body);
    LastTwo(body, k - 1, k);
    LastOffset(body[..k]);
    var m := |EscapeBytes(body[..k - 1])|;
    LastTwo(d, m, n);
    assert body[k - 1..k] == [body[k - 1]];
    SplitTouched(body[..k - 1], body[k - 1], body[k], d[..m], d[m..n], d[n], s);
  }

  /** Whether damage shows is decided by the last byte that it touches. */
  predicate Decided(body: seq<Byte>, d: seq<bv8>, j: nat)
    requires |d| == |EscapeBytes(body)|
  {
    LastTouched(body, d, j) && (Crc(0, BodyDiff(body, d)) == 0 <==> GetsThrough(body, d, j))
    && (GetsThrough(body, d, j) && body[j] == 0xAA ==> AllZero(BodyDiff(body, d)))
  }

  lemma Slices(d: seq<bv8>, o: nat, o': nat, n: nat)
    requires o <= o' <= n <= |d|
    ensures d[..n][o..o'] == d[o..o']
    ensures AllZero(d[n..]) && AllZero(d[..n][o'..]) ==> AllZero(d[o'..])
  {
    if AllZero(d[n..]) && AllZero(d[..n][o'..]) {
      forall i | o' <= i < |d|
        ensures d[i] == 0
      {
        if i < n {
          assert d[..n][o'..][i - o'] == d[i];
        } else {
          assert d[n..][i - n] == d[i];
        }
      }
    }
  }

  lemma TouchedEarlier(body: seq<Byte>, d: seq<bv8>, j: nat)
    requires body != [] && |d| == |EscapeBytes(body)|
    requires var n := |EscapeBytes(body[..|body| - 1])|;
             AllZero(d[n..]) && LastTouched(body[..|body| - 1], d[..n], j)
    ensures LastTouched(body, d, j)
  {
    hide EscapeBytes, EscapeByte, AllZero;
    var k := |body| - 1;
    LastOffset(body);
    PrefixOffset(body, k, j);
    PrefixOffset(body, k, j + 1);
    hide Offset;
    Slices(d, Offset(body, j), Offset(body, j + 1), |EscapeBytes(body[..k])|);
  }

  lemma ThroughEarlier(body: seq<Byte>, d: seq<bv8>, j: nat)
    requires body != [] && |d| == |EscapeBytes(body)|
    requires LastTouched(body, d, j)
    requires |EscapeBytes(body[..|body| - 1])| <= |d|
    requires LastTouched(body[..|body| - 1], d[..|EscapeBytes(body[..|body| - 1])|], j)
    ensures GetsThrough(body, d, j) == GetsThrough(body[..|body| - 1], d[..|EscapeBytes(body[..|body| - 1])|], j)
  {
    hide EscapeBytes, AllZero;
    var k := |body| - 1;
    PrefixOffset(body, k, j);
    PrefixOffset(body, k, j + 1);
    OffsetNext(body, j);
    hide Offset;
  }

  lemma DecidedEarlier(body: seq<Byte>, d: seq<bv8>, j: nat)
    requires body != [] && |d| == |EscapeBytes(body)|
    requires var n := |EscapeBytes(body[..|body| - 1])|;
             AllZero(d[n..]) && Decided(body[..|body| - 1], d[..n], j)
    ensures Decided(body, d, j)
  {
    hide Crc, EscapeBytes, BodyDiff, GetsThrough;
    UntouchedDiff(body, d);
    LastOffset(body);
    TouchedEarlier(body, d, j);
    ThroughEarlier(body, d, j);
  }

  lemma UntouchedDiff(body: seq<Byte>, d: seq<bv8>)
    requires body != [] && |d| == |EscapeBytes(body)|
    requires AllZero(d[|EscapeBytes(body[..|body| - 1])|..])
    ensures var init := BodyDiff(body[..|body| - 1], d[..|EscapeBytes(body[..|body| - 1])|]);
            (Crc(0, BodyDiff(body, d)) == 0 <==> Crc(0, init) == 0) && (AllZero(init) ==> AllZero(BodyDiff(body, d)))
  {
    hide Crc;
    TrailingZero(BodyDiff(body[..|body| - 1], d[..|EscapeBytes(body[..|body| - 1])|]));
  }

  lemma TouchedHere(body: seq<Byte>, d: seq<bv8>)
    requires body != [] && |d| == |EscapeBytes(body)|
    requires !AllZero(d[|EscapeBytes(body[..|body| - 1])|..])
    ensures LastTouched(body, d, |body| - 1)
  {
    hide EscapeBytes, EscapeByte;
    LastOffset(body);
    var n := Offset(body, |body| - 1);
    assert d[n..|d|] == d[n..];
  }

  lemma DecidedHere(body: seq<Byte>, d: seq<bv8>, p: nat, s: nat)
    requires body != [] && |d| == |EscapeBytes(body)| && Adjacent(d, p, s)
    requires !AllZero(d[|EscapeBytes(body[..|body| - 1])|..])
    requires KeepsMarkers(EscapeBytes(body), Damage(EscapeBytes(body), d))
    ensures Decided(body, d, |body| - 1)
  {
    hide Crc, BodyDiff, Adjacent, LastTouched, DamagedByte;
    TouchedHere(body, d);
    LastOffset(body);
    var n := Offset(body, |body| - 1);
    if |EscapeByte(body[|body| - 1])| == 2 {
      assert EscapeBytes(body)[n] == 0xAA;
      Flips(d[n]);
      EscapedTouched(body, d, p, s);
    } else if n == 0 || d[n - 1] == 0 {
      PlainTouched(body, d, p, s);
    } else {
      PairTouched(body, d, p, s);
    }
  }

  lemma {:induction false} DamageDecided(body: seq<Byte>, d: seq<bv8>, p: nat, s: nat) returns (j: nat)
    requires |d| == |EscapeBytes(body)| && Adjacent(d, p, s) && !AllZero(d)
    requires KeepsMarkers(EscapeBytes(body), Damage(EscapeBytes(body), d))
    ensures Decided(body, d, j)
  {
    hide Decided, KeepsMarkers, Window, Damage, EscapeByte;
    var k := |body| - 1;
    var n := |EscapeBytes(body[..k])|;
    if AllZero(d[n..]) {
      DamageSplit(EscapeBytes(body[..k]), EscapeByte(body[k]), d);
      KeepsSplit(EscapeBytes(body[..k]), EscapeByte(body[k]), Damage(EscapeBytes(body[..k]), d[..n]), Damage(EscapeByte(body[k]), d[n..]));
      assert d == d[..n] + d[n..];
      j := DamageDecided(body[..k], d[..n], p, s);
      DecidedEarlier(body, d, j);
    } else {
      DecidedHere(body, d, p, s);
      j := k;
    }
  }

  lemma WireIsEscapedBody(payload: seq<Byte>)
    ensures Wire(payload) == EscapeBytes(Body(payload)) + [END_MARKER]
  {
    hide Escape, EscapeByte, ChecksumOf;
    var crc := ChecksumOf(payload);
    EscapeIsPerByte(payload);
    EscapeIsPerByte([crc]);
    assert [crc][..0] == [] && EscapeBytes([]) == [];
    assert Body(payload)[..|payload|] == payload;
  }

  lemma BitsAndBack(x: Byte)
    ensures OfBits(x as bv8) == x
  {
  }

  lemma ByteUnchanged(x: Byte)
    ensures DamagedByte(x, 0) == x
  {
    hide Plus, OfBits;
    PlusRules(x as bv8, 0);
    BitsAndBack(x);
  }

  lemma Unchanged(body: seq<Byte>, d: seq<bv8>)
    requires |d| == |body| && AllZero(d)
    ensures Damage(body, d) == body
  {
    hide DamagedByte;
    forall i | 0 <= i < |body|
      ensures DamagedByte(body[i], d[i]) == body[i]
    {
      ByteUnchanged(body[i]);
    }
  }

  /** A frame of which up to 8 consecutive bits before the marker were changed on the wire, no
      marker and no escape created or destroyed: the receiver is fresh behind it, and it is
      dropped, unless `GetsThrough` says otherwise, and then unharmed unless the byte touched
      last follows an escaped 0x55. */
  lemma WireBurst(accepted: seq<seq<Byte>>, payload: seq<Byte>, d: seq<bv8>, start: nat) returns (j: nat)
    requires |d| == |EscapeBytes(Body(payload))| && Burst(d, start)
    requires var w, w' := EscapeBytes(Body(payload)), Damage(EscapeBytes(Body(payload)), d);
             forall i :: 0 <= i < |w| ==> (w'[i] == 0x55 <==> w[i] == 0x55) && (w'[i] == 0xAA <==> w[i] == 0xAA)
    ensures Wire(payload) == EscapeBytes(Body(payload)) + [END_MARKER]
    ensures LastTouched(Body(payload), d, j)
    ensures var received := Damage(Body(payload), BodyDiff(Body(payload), d));
            Feed(Fresh(accepted), Damage(EscapeBytes(Body(payload)), d) + [END_MARKER])
              == Fresh(if GetsThrough(Body(payload), d, j) then accepted + [received] else accepted)
            && (GetsThrough(Body(payload), d, j) && Body(payload)[j] == 0xAA ==> received == Body(payload))
  {
    assert KeepsMarkers(EscapeBytes(Body(payload)), Damage(EscapeBytes(Body(payload)), d));
    hide Feed, Wire, Crc, Burst, Adjacent, KeepsMarkers, EscapeBytes, BodyDiff, Damage, LastTouched, GetsThrough, ChecksumOf, Accepted, AllZero;
    WireIsEscapedBody(payload);
    StaysInStep(accepted, Body(payload), d);
    BurstIsAdjacent(d, start);
    j := DamageDecided(Body(payload), d, start / 8, start % 8);
    AcceptedAfter(payload, BodyDiff(Body(payload), d));
    if AllZero(BodyDiff(Body(payload), d)) {
      Unchanged(Body(payload), BodyDiff(Body(payload), d));
    }
  }

  // Damage that is not harmless.

  lemma FeedPlain(s: Rx, x: Byte)
    requires !s.escaping && x != END_MARKER && x != ESCAPE
    ensures Feed(s, [x]) == s.(buffer := s.buffer + [x])
  {
    FeedOne(s, x);
  }

  lemma FeedEnd(accepted: seq<seq<Byte>>, body: seq<Byte>)
    ensures Feed(Rx(body, false, accepted), [END_MARKER]) == Fresh(Deliver(accepted, body))
  {
    hide Deliver;
    FeedOne(Rx(body, false, accepted), END_MARKER);
  }

  lemma EmptyFrame()
    ensures Wire([]) == [0x00, 0x55]
  {
    WireIsEscapedBody([]);
    assert ToBits([]) == [];
    assert [0x00][..0] == [];
  }

  lemma NotAccepted()
    ensures !Accepted([0xAA, 0x00])
  {
    hide Lookup, Plus;
    assert [0xAA, 0x00] == AsBytes([0xAA, 0x00]);
    AcceptedBits([0xAA, 0x00]);
    assert [0xAA, 0x00][..1] == [0xAA];
    CrcOne(0, 0xAA);
    PlusRules(0xAA, 0);
    LookupZero(0xAA);
  }

  /** A first byte that becomes an escape takes the end marker with it: the frame behind it, which
      is intact, is lost as well. So is a frame behind noise that ends in one escape byte. */
  lemma NextFrameLost(accepted: seq<seq<Byte>>)
    ensures Wire([]) == [0x00, 0x55] && Damage(Wire([]), [0xAA, 0x00]) == [0xAA, 0x55]
    ensures Feed(Fresh(accepted), Wire([]) + Wire([])) == Fresh(accepted + [Body([])] + [Body([])])
    ensures Feed(Fresh(accepted), [0xAA, 0x55] + Wire([])) == Fresh(accepted)
  {
    hide Wire, Body, Feed, Receive, Accepted;
    EmptyFrame();
    assert Damage([0x00, 0x55], [0xAA, 0x00]) == [0xAA, 0x55] by {
      OfBitsBack(Plus(0x00, 0xAA));
      OfBitsBack(Plus(0x55, 0x00));
    }
    FeedAppend(Fresh(accepted), Wire([]), Wire([]));
    FrameRoundTrip(accepted, []);
    FrameRoundTrip(accepted + [Body([])], []);
    assert [0xAA, 0x55] + Wire([]) == [0xAA, 0x55] + [0x00] + [0x55];
    FeedAppend(Fresh(accepted), [0xAA, 0x55] + [0x00], [0x55]);
    FeedAppend(Fresh(accepted), [0xAA, 0x55], [0x00]);
    FeedPair(Fresh(accepted), 0xAA, 0x55);
    assert [] + [0xAA] == [0xAA] && [0xAA] + [0x00] == [0xAA, 0x00];
    FeedPlain(Rx([0xAA], false, accepted), 0x00);
    FeedEnd(accepted, [0xAA, 0x00]);
    NotAccepted();
  }

  lemma EscapePair()
    ensures EscapeBytes([0x55, 0x00]) == [0xAA, 0x01, 0x00]
  {
    assert [0x55, 0x00][..1] == [0x55] && [0x55][..0] == [];
    assert EscapeBytes([]) == [];
    assert EscapeBytes([0x55]) == [0xAA, 0x01];
  }

  lemma PairUndetected(rest: seq<Byte>)
    ensures var crc := ChecksumOf([0x55, 0x00] + rest);
            Accepted([0xAA, 0x35] + rest + [crc])
  {
    hide Crc, Accepted;
    var payload := [0x55, 0x00] + rest;
    var d := [0xFF, 0x35] + Checksum.Zeros(|rest| + 1);
    AcceptedAfter(payload, d);
    assert Crc(0, d) == 0 by {
      TwoDiff(0, 0xFF, 0x35);
      CrcAppend(0, [0xFF, 0x35], Checksum.Zeros(|rest| + 1));
      assert Checksum.Zeros(0) + [0xFF] + [0x35] == [0xFF, 0x35];
      CrcZeros(0, |rest| + 1);
    }
    hide DamagedByte;
    var body := payload + [ChecksumOf(payload)];
    forall i | 2 <= i < |body|
      ensures DamagedByte(body[i], d[i]) == body[i]
    {
      ByteUnchanged(body[i]);
    }
    PairDamage();
    assert Damage(body, d) == [0xAA, 0x35] + rest + [ChecksumOf(payload)];
  }

  lemma PairDamage()
    ensures DamagedByte(0x55, 0xFF) == 0xAA && DamagedByte(0x00, 0x35) == 0x35
  {
    OfBitsBack(Plus(0x00, 0x35));
    Flips(0);
  }

  /** Every payload that begins with 55 00 has a burst of five bits that is not detected: 01 00
      on the wire becomes 81 35, and AA 35 and the rest is accepted. */
  lemma BurstGetsThrough(accepted: seq<seq<Byte>>, rest: seq<Byte>)
    ensures var payload := [0x55, 0x00] + rest;
            var tail := EscapeBytes(rest + [ChecksumOf(payload)]);
            Wire(payload) == [0xAA, 0x01] + [0x00] + tail + [END_MARKER]
            && Feed(Fresh(accepted), [0xAA, 0x81] + [0x35] + tail + [END_MARKER])
                 == Fresh(accepted + [[0xAA, 0x35] + rest + [ChecksumOf(payload)]])
  {
    hide Feed, ChecksumOf, EscapeBytes, Receive, Wire, Accepted;
    var payload := [0x55, 0x00] + rest;
    var crc := ChecksumOf(payload);
    WireIsEscapedBody(payload);
    EscapeAppend([0x55, 0x00], rest + [crc]);
    EscapePair();
    assert Body(payload) == [0x55, 0x00] + (rest + [crc]);
    assert [0xAA, 0x01, 0x00] == [0xAA, 0x01] + [0x00];
    var tail := EscapeBytes(rest + [crc]);
    FeedAppend(Fresh(accepted), [0xAA, 0x81] + [0x35] + tail, [END_MARKER]);
    FeedAppend(Fresh(accepted), [0xAA, 0x81] + [0x35], tail);
    FeedAppend(Fresh(accepted), [0xAA, 0x81], [0x35]);
    FeedPair(Fresh(accepted), 0xAA, 0x81);
    assert [] + [0xAA] == [0xAA] && [0xAA] + [0x35] == [0xAA, 0x35];
    FeedPlain(Rx([0xAA], false, accepted), 0x35);
    FeedEscaped(Rx([0xAA, 0x35], false, accepted), rest + [crc]);
    assert [0xAA, 0x35] + (rest + [crc]) == [0xAA, 0x35] + rest + [crc];
    FeedEnd(accepted, [0xAA, 0x35] + rest + [crc]);
    PairUndetected(rest);
  }
}
