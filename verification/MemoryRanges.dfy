/** The shadow memory of the memory range identifier: pages allocated on first use, against the
    flat byte map and the access counts that a run of accesses defines. */
module MemoryRanges {
  import opened Words

  datatype Option<T> = None | Some(value: T)

  datatype Mark = ReadMark | WriteMark | ExecuteMark | StackMark | IoMark

  /** One access count per byte and kind, and the byte last written, or -1. */
  datatype Page = Page(
    read: seq<nat>, write: seq<nat>, execute: seq<nat>, stack: seq<nat>, io: seq<nat>, data: seq<int>)

  function Counter(p: Page, mark: Mark): seq<nat> {
    match mark
    case ReadMark => p.read
    case WriteMark => p.write
    case ExecuteMark => p.execute
    case StackMark => p.stack
    case IoMark => p.io
  }

  function SetCounter(p: Page, mark: Mark, c: seq<nat>): Page {
    match mark
    case ReadMark => p.(read := c)
    case WriteMark => p.(write := c)
    case ExecuteMark => p.(execute := c)
    case StackMark => p.(stack := c)
    case IoMark => p.(io := c)
  }

  lemma CounterAfterSet(p: Page, mark: Mark, c: seq<nat>, other: Mark)
    ensures Counter(SetCounter(p, mark, c), other) == if other == mark then c else Counter(p, other)
    ensures SetCounter(p, mark, c).data == p.data
  {
  }

  // The flat view: what a run of accesses means, without pages.

  /** What the plugin is told about. An access that does not fit one page or has an odd size is
      refused and changes nothing. */
  datatype Access =
    | ReadAccess(address: nat, size: nat, value: Option<nat>)
    | WriteAccess(address: nat, size: nat, newValue: nat)
    | StackPointer(address: nat)
    | ProgramCounter(address: nat, thumb: bool)

  function SizeOf(a: Access): nat {
    match a
    case ReadAccess(_, size, _) => size
    case WriteAccess(_, size, _) => size
    case StackPointer(_) => 4
    case ProgramCounter(_, thumb) => if thumb then 2 else 4
  }

  function Power256(i: nat): (p: nat)
    ensures p >= 1
  {
    if i == 0 then 1 else 256 * Power256(i - 1)
  }

  function ByteOf(value: nat, i: nat): (b: int)
    ensures 0 <= b < 0x100
  {
    value / Power256(i) % 0x100
  }

  predicate Covers(address: nat, size: nat, a: nat) {
    address <= a < address + size
  }

  /** The byte last written to `a`, or -1. A read that differs from what was written is a write. */
  function FlatAt(log: seq<Access>, a: nat): (b: int)
    ensures -1 <= b < 0x100
    decreases log, 0
  {
    if log == [] then -1
    else
      var init, last := log[..|log| - 1], log[|log| - 1];
      if last.WriteAccess? && Covers(last.address, last.size, a) then ByteOf(last.newValue, a - last.address)
      else if IsIo(init, last) && Covers(last.address, last.size, a) then ByteOf(last.value.value, a - last.address)
      else FlatAt(init, a)
  }

  /** The little-endian value of `n` bytes, if all of them have been written. */
  function Cached(log: seq<Access>, address: nat, n: nat): Option<nat>
    decreases log, n + 1
  {
    if n == 0 then Some(0)
    else
      var low, b := Cached(log, address, n - 1), FlatAt(log, address + n - 1);
      if low.None? || b < 0 then None else Some(low.value + Power256(n - 1) * b)
  }

  /** A read that saw a value other than 0 and other than the one written before. */
  predicate IsIo(log: seq<Access>, a: Access)
    decreases log, SizeOf(a) + 2
  {
    a.ReadAccess? && a.value.Some? && a.value.value != 0
    && Cached(log, a.address, a.size).Some? && Cached(log, a.address, a.size).value != a.value.value
  }

  predicate Marks(log: seq<Access>, a: Access, mark: Mark) {
    match mark
    case ReadMark => a.ReadAccess?
    case WriteMark => a.WriteAccess?
    case ExecuteMark => a.ProgramCounter?
    case StackMark => a.StackPointer?
    case IoMark => IsIo(log, a)
  }

  /** How often a byte has been marked. */
  function CountAt(log: seq<Access>, mark: Mark, a: nat): nat {
    if log == [] then 0
    else
      var init, last := log[..|log| - 1], log[|log| - 1];
      CountAt(init, mark, a) + if Marks(init, last, mark) && Covers(last.address, SizeOf(last), a) then 1 else 0
  }

  /** The sum of the sizes of the accesses of a kind. */
  function Sizes(log: seq<Access>, mark: Mark): nat {
    if log == [] then 0
    else
      var init, last := log[..|log| - 1], log[|log| - 1];
      Sizes(init, mark) + if Marks(init, last, mark) then SizeOf(last) else 0
  }

  // Sums over pages.

  function SumOf(c: seq<nat>): nat {
    if c == [] then 0 else SumOf(c[..|c| - 1]) + c[|c| - 1]
  }

  type Pages = map<nat, Page>

  ghost function Total(pages: Pages, mark: Mark): nat
    decreases |pages|
  {
    if pages == map[] then 0
    else
      var k :| k in pages;
      SumOf(Counter(pages[k], mark)) + Total(pages - {k}, mark)
  }

  lemma {:induction false} TotalSplit(pages: Pages, mark: Mark, k: nat)
    requires k in pages
    ensures Total(pages, mark) == SumOf(Counter(pages[k], mark)) + Total(pages - {k}, mark)
    decreases |pages|
  {
    var j :| j in pages && Total(pages, mark) == SumOf(Counter(pages[j], mark)) + Total(pages - {j}, mark);
    if j != k {
      TotalSplit(pages - {j}, mark, k);
      TotalSplit(pages - {k}, mark, j);
      assert pages - {j} - {k} == pages - {k} - {j};
    }
  }

  /** Replacing or adding one page changes the total by the difference of its sums. */
  lemma TotalUpdate(pages: Pages, mark: Mark, k: nat, p: Page)
    ensures Total(pages[k := p], mark) == SumOf(Counter(p, mark)) + Total(pages - {k}, mark)
  {
    TotalSplit(pages[k := p], mark, k);
    assert pages[k := p] - {k} == pages - {k};
  }

  function EmptyPage(n: nat): Page {
    var zeros := seq(n, _ => 0);
    Page(zeros, zeros, zeros, zeros, zeros, seq(n, _ => -1))
  }

  lemma {:induction false} SumOfZeros(n: nat)
    ensures SumOf(seq(n, _ => 0)) == 0
  {
    if n > 0 {
      assert seq(n, _ => 0)[..n - 1] == seq(n - 1, _ => 0);
      SumOfZeros(n - 1);
    }
  }

  predicate PageCorrect(p: Page, n: nat) {
    && |p.read| == |p.write| == |p.execute| == |p.stack| == |p.io| == |p.data| == n
    && forall i :: 0 <= i < n ==> -1 <= p.data[i] < 0x100
  }

  /** Page keys are multiples of the page size, and page arrays keep their length. */
  predicate PagesCorrect(pages: Pages, n: nat)
    requires n > 0
  {
    forall k :: k in pages ==> k % n == 0 && PageCorrect(pages[k], n)
  }

  function PageOf(a: nat, n: nat): nat
    requires n > 0
  {
    a / n * n
  }

  /** What the pages say about one byte; an absent page is an empty one. */
  function DataIn(pages: Pages, n: nat, a: nat): int
    requires n > 0 && PagesCorrect(pages, n)
  {
    if PageOf(a, n) in pages then pages[PageOf(a, n)].data[a % n] else -1
  }

  function CountIn(pages: Pages, n: nat, mark: Mark, a: nat): nat
    requires n > 0 && PagesCorrect(pages, n)
  {
    if PageOf(a, n) in pages then
      assert a % n < |Counter(pages[PageOf(a, n)], mark)|;
      Counter(pages[PageOf(a, n)], mark)[a % n]
    else 0
  }

  // Bytes of one page.

  predicate OnePage(address: nat, size: nat, n: nat)
    requires n > 0
  {
    (size == 1 || size == 2 || size == 4 || size == 8) && address / n == (address + size - 1) / n
  }

  lemma Offsets(address: nat, size: nat, n: nat, a: nat)
    requires n > 0 && OnePage(address, size, n)
    ensures address % n + size <= n
    ensures Covers(address, size, a) ==> PageOf(a, n) == PageOf(address, n) && a % n == address % n + (a - address)
    ensures PageOf(a, n) == PageOf(address, n) && !Covers(address, size, a) ==>
              a % n < address % n || a % n >= address % n + size
  {
    var q := address / n;
    var last := address + size - 1;
    Division(address, n);
    Division(last, n);
    Division(a, n);
    if Covers(address, size, a) {
      RemainderUnique(a, n, q, address % n + (a - address));
    }
    if PageOf(a, n) == PageOf(address, n) {
      SameQuotient(a / n, q, n);
    }
  }

  lemma Division(a: nat, n: nat)
    requires n > 0
    ensures a == n * (a / n) + a % n && 0 <= a % n < n && PageOf(a, n) == n * (a / n)
  {
  }

  lemma SameQuotient(p: nat, q: nat, n: nat)
    requires n > 0 && p * n == q * n
    ensures p == q
  {
    MultipleBound(n, p - q);
    assert n * (p - q) == p * n - q * n;
  }

  lemma PageKey(a: nat, n: nat)
    requires n > 0
    ensures PageOf(a, n) % n == 0
  {
    RemainderUnique(PageOf(a, n), n, a / n, 0);
  }

  // What the operations do to the pages, byte by byte.

  ghost predicate SameData(before: Pages, after: Pages, n: nat)
    requires n > 0 && PagesCorrect(before, n) && PagesCorrect(after, n)
  {
    forall a: nat :: DataIn(after, n, a) == DataIn(before, n, a)
  }

  ghost predicate SameCounts(before: Pages, after: Pages, n: nat)
    requires n > 0 && PagesCorrect(before, n) && PagesCorrect(after, n)
  {
    && (forall mark, a: nat :: CountIn(after, n, mark, a) == CountIn(before, n, mark, a))
    && (forall mark :: Total(after, mark) == Total(before, mark))
  }

  ghost predicate DataWritten(before: Pages, after: Pages, n: nat, address: nat, size: nat, value: nat)
    requires n > 0 && PagesCorrect(before, n) && PagesCorrect(after, n)
  {
    forall a: nat :: DataIn(after, n, a) ==
      if Covers(address, size, a) then ByteOf(value, a - address) else DataIn(before, n, a)
  }

  ghost predicate Counted(before: Pages, after: Pages, n: nat, address: nat, size: nat, mark: Mark)
    requires n > 0 && PagesCorrect(before, n) && PagesCorrect(after, n)
  {
    && (forall m, a: nat :: CountIn(after, n, m, a) ==
          CountIn(before, n, m, a) + if m == mark && Covers(address, size, a) then 1 else 0)
    && (forall m :: Total(after, m) == Total(before, m) + if m == mark then size else 0)
  }

  /** The stored bytes as a little-endian number. */
  function CachedIn(pages: Pages, n: nat, address: nat, k: nat): Option<nat>
    requires n > 0 && PagesCorrect(pages, n)
  {
    if k == 0 then Some(0)
    else
      var low, b := CachedIn(pages, n, address, k - 1), DataIn(pages, n, address + k - 1);
      if low.None? || b < 0 then None else Some(low.value + Power256(k - 1) * b)
  }

  /** The same for bytes of one page. */
  function Stored(data: seq<int>, offset: nat, k: nat): Option<nat>
    requires offset + k <= |data|
  {
    if k == 0 then Some(0)
    else
      var low, b := Stored(data, offset, k - 1), data[offset + k - 1];
      if low.None? || b < 0 then None else Some(low.value + Power256(k - 1) * b)
  }

  lemma {:induction false} StoredIsCached(pages: Pages, n: nat, address: nat, size: nat, k: nat)
    requires n > 0 && PagesCorrect(pages, n) && OnePage(address, size, n) && k <= size
    requires PageOf(address, n) in pages && address % n + k <= n
    ensures Stored(pages[PageOf(address, n)].data, address % n, k) == CachedIn(pages, n, address, k)
  {
    if k > 0 {
      hide DataIn, OnePage, PageOf;
      StoredIsCached(pages, n, address, size, k - 1);
      DataByte(pages, n, address, size, k - 1);
    }
  }

  lemma {:induction false} CachedIsFlat(pages: Pages, n: nat, log: seq<Access>, address: nat, k: nat)
    requires n > 0 && PagesCorrect(pages, n)
    requires forall a: nat :: DataIn(pages, n, a) == FlatAt(log, a)
    ensures CachedIn(pages, n, address, k) == Cached(log, address, k)
  {
    if k > 0 {
      CachedIsFlat(pages, n, log, address, k - 1);
    }
  }

  lemma {:induction false} NeverWritten(data: seq<int>, offset: nat, i: nat, k: nat)
    requires offset + k <= |data| && i < k && data[offset + i] < 0
    ensures Stored(data, offset, k) == None
  {
    if i < k - 1 {
      NeverWritten(data, offset, i, k - 1);
    }
  }

  lemma {:induction false} StoredBound(data: seq<int>, offset: nat, k: nat)
    requires offset + k <= |data| && Stored(data, offset, k).Some?
    requires forall j :: 0 <= j < |data| ==> data[j] < 0x100
    ensures Stored(data, offset, k).value < Power256(k)
  {
    if k > 0 {
      StoredBound(data, offset, k - 1);
      MultipleMonotone(Power256(k - 1), data[offset + k - 1], 255);
    }
  }

  lemma EightMoreBits(k: nat)
    ensures Pow2(k + 8) == 256 * Pow2(k)
  {
    assert Pow2(k + 2) == 4 * Pow2(k);
    assert Pow2(k + 4) == 4 * Pow2(k + 2);
    assert Pow2(k + 6) == 4 * Pow2(k + 4);
  }

  lemma {:induction false} PowerOfBytes(i: nat)
    ensures Power256(i) == Pow2(8 * i)
  {
    if i > 0 {
      PowerOfBytes(i - 1);
      EightMoreBits(8 * i - 8);
    }
  }

  function WithByte(value: nat, i: nat, byte: nat): nat {
    Or(value, Power256(i) * byte)
  }

  /** Putting the next byte in place with a bitwise or. */
  lemma OrByte(data: seq<int>, offset: nat, i: nat)
    requires offset + i < |data| && Stored(data, offset, i).Some? && data[offset + i] >= 0
    requires forall j :: 0 <= j < |data| ==> data[j] < 0x100
    ensures Stored(data, offset, i + 1) == Some(WithByte(Stored(data, offset, i).value, i, data[offset + i]))
  {
    hide Pow2, Or;
    PowerOfBytes(i);
    StoredBound(data, offset, i);
    var byte := data[offset + i];
    RemainderUnique(Power256(i) * byte, Power256(i), byte, 0);
    OrDisjoint(Power256(i) * byte, Stored(data, offset, i).value, 8 * i);
  }

  lemma PageWritten(pages: Pages, n: nat, address: nat, size: nat, value: nat, data: seq<int>)
    requires n > 0 && PagesCorrect(pages, n) && OnePage(address, size, n)
    requires PageOf(address, n) in pages && |data| == n
    requires var was, offset := pages[PageOf(address, n)].data, address % n;
             forall j :: 0 <= j < n ==> data[j] == if offset <= j < offset + size then ByteOf(value, j - offset) else was[j]
    ensures var after := pages[PageOf(address, n) := pages[PageOf(address, n)].(data := data)];
            PagesCorrect(after, n) && DataWritten(pages, after, n, address, size, value) && SameCounts(pages, after, n)
  {
    var pg := PageOf(address, n);
    var after := pages[pg := pages[pg].(data := data)];
    forall a: nat
      ensures DataIn(after, n, a) == if Covers(address, size, a) then ByteOf(value, a - address) else DataIn(pages, n, a)
    {
      Offsets(address, size, n, a);
      Division(a, n);
    }
    forall mark
      ensures Total(after, mark) == Total(pages, mark)
    {
      TotalUpdate(pages, mark, pg, after[pg]);
      TotalSplit(pages, mark, pg);
    }
  }

  predicate Incremented(was: seq<nat>, c: seq<nat>, offset: nat, size: nat) {
    && |c| == |was| && SumOf(c) == SumOf(was) + size
    && forall j :: 0 <= j < |c| ==> c[j] == was[j] + if offset <= j < offset + size then 1 else 0
  }

  lemma BytesCounted(pages: Pages, n: nat, address: nat, size: nat, mark: Mark, c: seq<nat>, m: Mark, a: nat)
    requires n > 0 && PagesCorrect(pages, n) && OnePage(address, size, n)
    requires PageOf(address, n) in pages && Incremented(Counter(pages[PageOf(address, n)], mark), c, address % n, size)
    ensures var after := pages[PageOf(address, n) := SetCounter(pages[PageOf(address, n)], mark, c)];
            && PagesCorrect(after, n)
            && DataIn(after, n, a) == DataIn(pages, n, a)
            && CountIn(after, n, m, a) == CountIn(pages, n, m, a) + if m == mark && Covers(address, size, a) then 1 else 0
  {
    hide SumOf;
    var pg := PageOf(address, n);
    var after := pages[pg := SetCounter(pages[pg], mark, c)];
    assert PageCorrect(after[pg], n);
    hide PageCorrect;
    Offsets(address, size, n, a);
    Division(a, n);
    CounterAfterSet(pages[pg], mark, c, m);
    hide Counter, SetCounter;
  }

  lemma PageCounted(pages: Pages, n: nat, address: nat, size: nat, mark: Mark, c: seq<nat>)
    requires n > 0 && PagesCorrect(pages, n) && OnePage(address, size, n)
    requires PageOf(address, n) in pages && Incremented(Counter(pages[PageOf(address, n)], mark), c, address % n, size)
    ensures var after := pages[PageOf(address, n) := SetCounter(pages[PageOf(address, n)], mark, c)];
            PagesCorrect(after, n) && SameData(pages, after, n) && Counted(pages, after, n, address, size, mark)
  {
    hide DataIn, CountIn, Counter, SetCounter, PagesCorrect;
    var pg := PageOf(address, n);
    var after := pages[pg := SetCounter(pages[pg], mark, c)];
    BytesCounted(pages, n, address, size, mark, c, mark, address);
    forall a: nat
      ensures DataIn(after, n, a) == DataIn(pages, n, a)
    {
      BytesCounted(pages, n, address, size, mark, c, mark, a);
    }
    forall m, a: nat
      ensures CountIn(after, n, m, a) == CountIn(pages, n, m, a) + if m == mark && Covers(address, size, a) then 1 else 0
    {
      BytesCounted(pages, n, address, size, mark, c, m, a);
    }
    forall m
      ensures Total(after, m) == Total(pages, m) + if m == mark then size else 0
    {
      CounterAfterSet(pages[pg], mark, c, m);
      TotalUpdate(pages, m, pg, after[pg]);
      TotalSplit(pages, m, pg);
    }
  }

  lemma DataByte(pages: Pages, n: nat, address: nat, size: nat, i: nat)
    requires n > 0 && PagesCorrect(pages, n) && OnePage(address, size, n) && i < size
    requires PageOf(address, n) in pages
    ensures address % n + i < |pages[PageOf(address, n)].data|
    ensures pages[PageOf(address, n)].data[address % n + i] == DataIn(pages, n, address + i)
  {
    Offsets(address, size, n, address + i);
  }

  /** What one more access adds to the flat view. */
  lemma LogAppended(log: seq<Access>, x: Access)
    ensures forall a: nat :: FlatAt(log + [x], a) ==
              (if x.WriteAccess? && Covers(x.address, x.size, a) then ByteOf(x.newValue, a - x.address)
               else if IsIo(log, x) && Covers(x.address, x.size, a) then ByteOf(x.value.value, a - x.address)
               else FlatAt(log, a))
    ensures forall mark, a: nat :: CountAt(log + [x], mark, a) ==
              CountAt(log, mark, a) + if Marks(log, x, mark) && Covers(x.address, SizeOf(x), a) then 1 else 0
    ensures forall mark :: Sizes(log + [x], mark) == Sizes(log, mark) + if Marks(log, x, mark) then SizeOf(x) else 0
  {
    assert (log + [x])[..|log|] == log;
  }

  lemma {:induction false} SameCachedIn(before: Pages, after: Pages, n: nat, address: nat, k: nat)
    requires n > 0 && PagesCorrect(before, n) && PagesCorrect(after, n) && SameData(before, after, n)
    ensures CachedIn(after, n, address, k) == CachedIn(before, n, address, k)
  {
    if k > 0 {
      hide DataIn;
      SameCachedIn(before, after, n, address, k - 1);
    }
  }

  /** Counting before writing makes no difference to the bytes. */
  lemma DataAfterMark(before: Pages, marked: Pages, after: Pages, n: nat, address: nat, size: nat, value: nat)
    requires n > 0 && PagesCorrect(before, n) && PagesCorrect(marked, n) && PagesCorrect(after, n)
    requires SameData(before, marked, n)
    ensures SameData(marked, after, n) ==> SameData(before, after, n)
    ensures DataWritten(marked, after, n, address, size, value) ==> DataWritten(before, after, n, address, size, value)
    ensures CachedIn(marked, n, address, size) == CachedIn(before, n, address, size)
  {
    hide DataIn, ByteOf, CachedIn;
    SameCachedIn(before, marked, n, address, size);
  }

  class MemoryRangeIdentifier {
    const pageSize: nat
    var pages: Pages
    ghost var log: seq<Access>

    /** The pages are well formed. */
    ghost predicate Shaped()
      reads this`pages
    {
      pageSize > 0 && PagesCorrect(pages, pageSize)
    }

    /** The pages show, byte for byte, what the run of accesses so far means, and the counters of
        each kind add up to the sizes of the accesses of that kind. */
    ghost predicate Valid()
      reads this
    {
      && Shaped()
      && (forall a: nat :: DataIn(pages, pageSize, a) == FlatAt(log, a))
      && (forall mark, a: nat :: CountIn(pages, pageSize, mark, a) == CountAt(log, mark, a))
      && (forall mark :: Total(pages, mark) == Sizes(log, mark))
    }

    constructor (pageSize: nat)
      requires pageSize > 0
      ensures Valid() && log == [] && this.pageSize == pageSize
    {
      this.pageSize := pageSize;
      pages := map[];
      log := [];
    }

    /** The page of an address, allocated if there is none. No byte changes its meaning. */
    method GetPage(address: nat) returns (pg: nat)
      requires Shaped()
      modifies this`pages
      ensures Shaped() && pg == PageOf(address, pageSize) && pg in pages
      ensures forall a: nat :: DataIn(pages, pageSize, a) == DataIn(old(pages), pageSize, a)
      ensures forall mark, a: nat :: CountIn(pages, pageSize, mark, a) == CountIn(old(pages), pageSize, mark, a)
      ensures forall mark :: Total(pages, mark) == Total(old(pages), mark)
    {
      pg := address / pageSize * pageSize;
      if pg !in pages {
        PageKey(address, pageSize);
        EmptyPageCorrect(pageSize);
        forall mark
          ensures Total(pages[pg := EmptyPage(pageSize)], mark) == Total(pages, mark)
        {
          EmptyPageSum(pageSize, mark);
          TotalUpdate(pages, mark, pg, EmptyPage(pageSize));
          assert pages - {pg} == pages;
        }
        AddedPage(pages, pageSize, pg);
        pages := pages[pg := EmptyPage(pageSize)];
      }
    }

    static method WriteBytes(data: seq<int>, offset: nat, size: nat, value: nat) returns (data': seq<int>)
      requires offset + size <= |data|
      ensures |data'| == |data|
      ensures forall j :: 0 <= j < |data| ==>
                data'[j] == if offset <= j < offset + size then ByteOf(value, j - offset) else data[j]
    {
      data' := data;
      var i := 0;
      while i < size
        invariant i <= size && |data'| == |data|
        invariant forall j :: 0 <= j < |data| ==>
                    data'[j] == if offset <= j < offset + i then ByteOf(value, j - offset) else data[j]
      {
        data' := data'[offset + i := ByteOf(value, i)];
        i := i + 1;
      }
    }

    static method Increment(c: seq<nat>, offset: nat, size: nat) returns (c': seq<nat>)
      requires offset + size <= |c|
      ensures Incremented(c, c', offset, size)
    {
      c' := c;
      var i := offset;
      while i < offset + size
        invariant offset <= i <= offset + size && |c'| == |c| && SumOf(c') == SumOf(c) + (i - offset)
        invariant forall j :: 0 <= j < |c| ==> c'[j] == c[j] + if offset <= j < i then 1 else 0
      {
        SumOfUpdate(c', i, c'[i] + 1);
        c' := c'[i := c'[i] + 1];
        i := i + 1;
      }
    }

    /** Writes the bytes of a value to one page. */
    method WriteData(address: nat, size: nat, value: nat) returns (ok: bool)
      requires Shaped()
      modifies this`pages
      ensures Shaped() && (ok <==> size in {1, 2, 4, 8} && address / pageSize == (address + size - 1) / pageSize)
      ensures !ok ==> pages == old(pages)
      ensures ok ==> DataWritten(old(pages), pages, pageSize, address, size, value) && SameCounts(old(pages), pages, pageSize)
    {
      if !OnePage(address, size, pageSize) {
        return false;
      }
      var pg := GetPage(address);
      ghost var before := pages;
      var offset := address % pageSize;
      Offsets(address, size, pageSize, address);
      var data := WriteBytes(pages[pg].data, offset, size, value);
      PageWritten(before, pageSize, address, size, value, data);
      pages := pages[pg := pages[pg].(data := data)];
      ok := true;
    }

    /** The little-endian value of the bytes, unless one of them has never been written. */
    method ReadCachedData(address: nat, size: nat) returns (ok: bool, r: Option<nat>)
      requires Shaped()
      modifies this`pages
      ensures Shaped() && (ok <==> size in {1, 2, 4, 8} && address / pageSize == (address + size - 1) / pageSize)
      ensures SameData(old(pages), pages, pageSize) && SameCounts(old(pages), pages, pageSize)
      ensures ok ==> r == CachedIn(pages, pageSize, address, size)
    {
      if !OnePage(address, size, pageSize) {
        return false, None;
      }
      var pg := GetPage(address);
      Offsets(address, size, pageSize, address);
      r := ReadBytes(pages[pg].data, address % pageSize, size);
      StoredIsCached(pages, pageSize, address, size, size);
      ok := true;
    }

    static method ReadBytes(data: seq<int>, offset: nat, size: nat) returns (r: Option<nat>)
      requires offset + size <= |data| && forall j :: 0 <= j < |data| ==> data[j] < 0x100
      ensures r == Stored(data, offset, size)
    {
      hide WithByte;
      var value := 0;
      var i := 0;
      while i < size
        invariant i <= size && Stored(data, offset, i) == Some(value)
      {
        if data[offset + i] < 0 {
          NeverWritten(data, offset, i, size);
          return None;
        }
        OrByte(data, offset, i);
        value := WithByte(value, i, data[offset + i]);
        i := i + 1;
      }
      r := Some(value);
    }

    /** Counts one access on every byte. */
    method MarkData(address: nat, size: nat, mark: Mark) returns (ok: bool)
      requires Shaped()
      modifies this`pages
      ensures Shaped() && (ok <==> size in {1, 2, 4, 8} && address / pageSize == (address + size - 1) / pageSize)
      ensures SameData(old(pages), pages, pageSize)
      ensures !ok ==> pages == old(pages)
      ensures ok ==> Counted(old(pages), pages, pageSize, address, size, mark)
    {
      if !OnePage(address, size, pageSize) {
        return false;
      }
      var pg := GetPage(address);
      var offset := address % pageSize;
      Offsets(address, size, pageSize, address);
      var counter := Increment(Counter(pages[pg], mark), offset, size);
      PageCounted(pages, pageSize, address, size, mark, counter);
      pages := pages[pg := SetCounter(pages[pg], mark, counter)];
      ok := true;
    }

    method AddMemoryWriteAccess(address: nat, size: nat, value: nat) returns (ok: bool)
      requires Valid()
      modifies this
      ensures Valid() && (ok <==> size in {1, 2, 4, 8} && address / pageSize == (address + size - 1) / pageSize)
      ensures log == if ok then old(log) + [WriteAccess(address, size, value)] else old(log)
    {
      hide DataIn, CountIn, PagesCorrect, Cached, FlatAt, CountAt, Sizes;
      ok := MarkData(address, size, WriteMark);
      if ok {
        var _ := WriteData(address, size, value);
        log := log + [WriteAccess(address, size, value)];
        LogAppended(old(log), WriteAccess(address, size, value));
      }
    }

    /** A read whose value differs from the bytes written before marks them as input and output,
        and takes its value over. */
    method CompareRead(address: nat, size: nat, value: nat)
      requires Shaped() && OnePage(address, size, pageSize) && value != 0
      requires forall a: nat :: DataIn(pages, pageSize, a) == FlatAt(log, a)
      modifies this`pages
      ensures Shaped()
      ensures var before := CachedIn(old(pages), pageSize, address, size);
              if before.Some? && before.value != value
              then DataWritten(old(pages), pages, pageSize, address, size, value)
                   && Counted(old(pages), pages, pageSize, address, size, IoMark)
              else SameData(old(pages), pages, pageSize) && SameCounts(old(pages), pages, pageSize)
      ensures if IsIo(log, ReadAccess(address, size, Some(value)))
              then DataWritten(old(pages), pages, pageSize, address, size, value)
                   && Counted(old(pages), pages, pageSize, address, size, IoMark)
              else SameData(old(pages), pages, pageSize) && SameCounts(old(pages), pages, pageSize)
    {
      hide DataIn, CountIn, PagesCorrect, CachedIn, Cached, FlatAt;
      var _, stored := ReadCachedData(address, size);
      CachedIsFlat(pages, pageSize, log, address, size);
      CachedIsFlat(old(pages), pageSize, log, address, size);
      if stored.Some? && stored.value != value {
        var _ := MarkData(address, size, IoMark);
        var _ := WriteData(address, size, value);
      }
    }

    method AddMemoryReadAccess(address: nat, size: nat, value: Option<nat>) returns (ok: bool)
      requires Valid()
      modifies this
      ensures Valid() && (ok <==> size in {1, 2, 4, 8} && address / pageSize == (address + size - 1) / pageSize)
      ensures log == if ok then old(log) + [ReadAccess(address, size, value)] else old(log)
      ensures ok ==>
                var before := CachedIn(old(pages), pageSize, address, size);
                if value.Some? && value.value != 0 && before.Some? && before.value != value.value
                then DataWritten(old(pages), pages, pageSize, address, size, value.value)
                else SameData(old(pages), pages, pageSize)
    {
      hide DataIn, CountIn, PagesCorrect, Cached, FlatAt, CountAt, Sizes, CachedIn;
      ok := MarkData(address, size, ReadMark);
      ghost var marked := pages;
      if ok {
        if value.Some? && value.value != 0 {
          CompareRead(address, size, value.value);
          DataAfterMark(old(pages), marked, pages, pageSize, address, size, value.value);
        }
        log := log + [ReadAccess(address, size, value)];
        LogAppended(old(log), ReadAccess(address, size, value));
      }
    }

    method AddStackPointerValue(sp: nat) returns (ok: bool)
      requires Valid()
      modifies this
      ensures Valid() && ok == OnePage(sp, 4, pageSize)
      ensures log == if ok then old(log) + [StackPointer(sp)] else old(log)
    {
      ok := MarkData(sp, 4, StackMark);
      if ok {
        log := log + [StackPointer(sp)];
        LogAppended(old(log), StackPointer(sp));
      }
    }

    /** Bit 5 of CPSR says that the instruction is a Thumb instruction. */
    method AddProgramCounterValue(pc: nat, cpsr: Word) returns (ok: bool)
      requires Valid()
      modifies this
      ensures Valid() && ok == OnePage(pc, if Bit(cpsr, 5) then 2 else 4, pageSize)
      ensures log == if ok then old(log) + [ProgramCounter(pc, Bit(cpsr, 5))] else old(log)
    {
      hide DataIn, CountIn, PagesCorrect, Cached, FlatAt, CountAt, Sizes;
      var thumb := Bit(cpsr, 5);
      ok := MarkData(pc, if thumb then 2 else 4, ExecuteMark);
      if ok {
        log := log + [ProgramCounter(pc, thumb)];
        LogAppended(old(log), ProgramCounter(pc, thumb));
      }
    }
  }

  lemma {:induction false} SumOfUpdate(c: seq<nat>, i: nat, v: nat)
    requires i < |c|
    ensures SumOf(c[i := v]) == SumOf(c) - c[i] + v
  {
    var k := |c| - 1;
    if i < k {
      assert c[i := v][..k] == c[..k][i := v];
      SumOfUpdate(c[..k], i, v);
    } else {
      assert c[i := v][..k] == c[..k];
    }
  }

  lemma EmptyPageCorrect(n: nat)
    ensures PageCorrect(EmptyPage(n), n)
  {
  }

  lemma EmptyPageSum(n: nat, mark: Mark)
    ensures SumOf(Counter(EmptyPage(n), mark)) == 0
  {
    SumOfZeros(n);
  }

  lemma AddedPage(pages: Pages, n: nat, pg: nat)
    requires n > 0 && PagesCorrect(pages, n) && pg !in pages && pg % n == 0
    ensures PagesCorrect(pages[pg := EmptyPage(n)], n)
    ensures forall a: nat :: DataIn(pages[pg := EmptyPage(n)], n, a) == DataIn(pages, n, a)
    ensures forall mark, a: nat :: CountIn(pages[pg := EmptyPage(n)], n, mark, a) == CountIn(pages, n, mark, a)
  {
    EmptyPageCorrect(n);
  }

  // What the flat view says about a run.

  lemma {:induction false} CachedUnlessUnwritten(log: seq<Access>, address: nat, n: nat)
    ensures Cached(log, address, n).None? <==> exists a: nat :: Covers(address, n, a) && FlatAt(log, a) < 0
  {
    if n > 0 {
      hide FlatAt;
      CachedUnlessUnwritten(log, address, n - 1);
      var last := address + n - 1;
      assert Covers(address, n, last);
      assert forall a: nat :: Covers(address, n, a) <==> Covers(address, n - 1, a) || a == last;
    }
  }

  predicate Writes(x: Access, a: nat) {
    x.WriteAccess? && Covers(x.address, x.size, a)
  }

  /** A byte counts as never written exactly when no write access ever covered it: what reads
      bring in only replaces bytes that had been written. */
  lemma {:induction false} UnwrittenMeansNeverWritten(log: seq<Access>, a: nat)
    ensures FlatAt(log, a) < 0 <==> forall k :: 0 <= k < |log| ==> !Writes(log[k], a)
  {
    if log != [] {
      var init, last := log[..|log| - 1], log[|log| - 1];
      UnwrittenMeansNeverWritten(init, a);
      assert forall k :: 0 <= k < |init| ==> init[k] == log[k];
      if IsIo(init, last) && Covers(last.address, last.size, a) {
        CachedUnlessUnwritten(init, last.address, last.size);
        assert FlatAt(init, a) >= 0;
      }
    }
  }

  lemma SplitPower(v: nat, n: nat)
    ensures v % Power256(n + 1) == v % Power256(n) + Power256(n) * ByteOf(v, n)
  {
    var p := Power256(n);
    var d, b := v / p, ByteOf(v, n);
    assert v == p * d + v % p;
    assert d == 256 * (d / 256) + b;
    assert p * d == (256 * p) * (d / 256) + p * b by {
      assert p * (256 * (d / 256) + b) == (256 * p) * (d / 256) + p * b;
    }
    MultipleMonotone(p, b, 255);
    RemainderUnique(v, 256 * p, d / 256, p * b + v % p);
  }

  lemma {:induction false} LowBytes(log: seq<Access>, address: nat, v: nat, n: nat)
    requires forall i: nat :: i < n ==> FlatAt(log, address + i) == ByteOf(v, i)
    ensures Cached(log, address, n) == Some(v % Power256(n))
  {
    if n > 0 {
      hide FlatAt, ByteOf;
      LowBytes(log, address, v, n - 1);
      SplitPower(v, n - 1);
      ByteRange(v, n - 1);
    }
  }

  lemma ByteRange(v: nat, i: nat)
    ensures 0 <= ByteOf(v, i) < 0x100
  {
  }

  /** Reading back what was just written gives its low bytes; so does reading what an access
      has just taken over. */
  lemma ReadBack(log: seq<Access>, x: Access)
    requires x.WriteAccess? || IsIo(log, x)
    ensures Cached(log + [x], x.address, SizeOf(x))
              == Some((if x.WriteAccess? then x.newValue else x.value.value) % Power256(SizeOf(x)))
  {
    hide FlatAt;
    var v := if x.WriteAccess? then x.newValue else x.value.value;
    LogAppended(log, x);
    forall i: nat | i < SizeOf(x)
      ensures FlatAt(log + [x], x.address + i) == ByteOf(v, i)
    {
      assert Covers(x.address, x.size, x.address + i);
      assert x.address + i - x.address == i;
    }
    LowBytes(log + [x], x.address, v, SizeOf(x));
  }

  /** A byte carries an input/output mark exactly when some read of it saw a value that is not 0
      and not what had been written there before. */
  lemma {:induction false} MarkedAsIo(log: seq<Access>, a: nat)
    ensures CountAt(log, IoMark, a) > 0 <==>
              exists k :: 0 <= k < |log|
                && log[k].ReadAccess? && log[k].address <= a < log[k].address + log[k].size
                && log[k].value.Some? && log[k].value.value != 0
                && Cached(log[..k], log[k].address, log[k].size).Some?
                && Cached(log[..k], log[k].address, log[k].size).value != log[k].value.value
  {
    if log != [] {
      hide Cached;
      var n := |log| - 1;
      MarkedAsIo(log[..n], a);
      assert forall k :: 0 <= k < n ==> log[..n][..k] == log[..k] && log[..n][k] == log[k];
    }
  }

  // One access more, for each kind of access.

  /** Bytes are taken from a value least significant first. */
  lemma ByteOrder(v: nat)
    ensures ByteOf(v, 0) == v % 0x100 && ByteOf(v, 1) == v / 0x100 % 0x100
    ensures ByteOf(v, 2) == v / 0x1_0000 % 0x100 && ByteOf(v, 3) == v / 0x100_0000 % 0x100
    ensures Power256(1) == 0x100 && Power256(2) == 0x1_0000 && Power256(4) == 0x1_0000_0000
    ensures Power256(8) == 0x1_0000_0000_0000_0000
  {
    assert Power256(3) == 0x100_0000;
    assert Power256(6) == 0x1_0000_0000_0000;
  }

  lemma CachedBytes(log: seq<Access>, a: nat)
    requires FlatAt(log, a) >= 0 && FlatAt(log, a + 1) >= 0
    ensures Cached(log, a, 2) == Some(FlatAt(log, a) + 0x100 * FlatAt(log, a + 1))
  {
    assert Cached(log, a, 0) == Some(0);
    assert Cached(log, a, 1) == Some(FlatAt(log, a));
  }

  /** A read that differs from what was written, and is not 0, is taken over and marked. Any other
      read is counted as a read and changes nothing else. */
  lemma ReadAccessMeaning(log: seq<Access>, address: nat, n: nat, value: Option<nat>, a: nat)
    ensures var after := log + [ReadAccess(address, n, value)];
            var before, inside := Cached(log, address, n), address <= a < address + n;
            var differs := value.Some? && value.value != 0 && before.Some? && before.value != value.value;
            && FlatAt(after, a) == (if differs && inside then ByteOf(value.value, a - address) else FlatAt(log, a))
            && CountAt(after, IoMark, a) == CountAt(log, IoMark, a) + (if differs && inside then 1 else 0)
            && CountAt(after, ReadMark, a) == CountAt(log, ReadMark, a) + (if inside then 1 else 0)
            && CountAt(after, WriteMark, a) == CountAt(log, WriteMark, a)
            && CountAt(after, ExecuteMark, a) == CountAt(log, ExecuteMark, a)
            && CountAt(after, StackMark, a) == CountAt(log, StackMark, a)
  {
    hide Cached;
    LogAppended(log, ReadAccess(address, n, value));
  }

  /** What a read leaves to be read. */
  lemma ReadAccessCached(log: seq<Access>, address: nat, n: nat, value: Option<nat>)
    ensures var after := log + [ReadAccess(address, n, value)];
            var before := Cached(log, address, n);
            Cached(after, address, n) ==
              if value.Some? && value.value != 0 && before.Some? && before.value != value.value
              then Some(value.value % Power256(n)) else before
  {
    hide Cached, FlatAt, Power256;
    var x := ReadAccess(address, n, value);
    LogAppended(log, x);
    if IsIo(log, x) {
      ReadBack(log, x);
    } else {
      SameCached(log, log + [x], address, n);
    }
  }

  lemma {:induction false} SameCached(log: seq<Access>, after: seq<Access>, address: nat, n: nat)
    requires forall a: nat :: FlatAt(after, a) == FlatAt(log, a)
    ensures Cached(after, address, n) == Cached(log, address, n)
  {
    if n > 0 {
      hide FlatAt;
      SameCached(log, after, address, n - 1);
    }
  }

  /** The other accesses: a write takes over its value and counts as a write, an instruction of 2
      or 4 bytes counts as executed, and 4 bytes at the stack pointer count as stack. */
  lemma OtherAccessMeaning(log: seq<Access>, x: Access, a: nat)
    requires !x.ReadAccess?
    ensures var after := log + [x];
            var size := if x.WriteAccess? then x.size else if x.ProgramCounter? && x.thumb then 2 else 4;
            var inside := x.address <= a < x.address + size;
            && FlatAt(after, a) == (if x.WriteAccess? && inside then ByteOf(x.newValue, a - x.address) else FlatAt(log, a))
            && CountAt(after, ReadMark, a) == CountAt(log, ReadMark, a)
            && CountAt(after, WriteMark, a) == CountAt(log, WriteMark, a) + (if x.WriteAccess? && inside then 1 else 0)
            && CountAt(after, ExecuteMark, a) == CountAt(log, ExecuteMark, a) + (if x.ProgramCounter? && inside then 1 else 0)
            && CountAt(after, StackMark, a) == CountAt(log, StackMark, a) + (if x.StackPointer? && inside then 1 else 0)
            && CountAt(after, IoMark, a) == CountAt(log, IoMark, a)
  {
    LogAppended(log, x);
  }
}
