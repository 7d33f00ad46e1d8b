/** The messages of the stub link: packing, unpacking, and the way through the whole link. */
module Messages {
  import opened Words
  import opened Checksum
  import opened Framing

  datatype Error = UnknownOpcode(opcode: Byte) | OutOfData | StructError | TypeError | ValueError

  datatype Result<T> = Ok(value: T) | Err(error: Error)

  // Integers on the wire.

  /** struct.unpack("<L"): exactly four bytes. */
  function Unpack32(data: seq<Byte>): Result<int> {
    if |data| == 4 then
      Ok(data[0] as int + 0x100 * data[1] as int + 0x1_0000 * data[2] as int + 0x100_0000 * data[3] as int)
    else Err(StructError)
  }

  /** struct.pack("<L"): an error outside the range. */
  function Pack32(val: int): Result<seq<Byte>> {
    if 0 <= val < 0x1_0000_0000 then
      Ok([val % 0x100, val / 0x100 % 0x100, val / 0x1_0000 % 0x100, val / 0x100_0000])
    else Err(StructError)
  }

  function Pack16(val: int): Result<seq<Byte>> {
    if 0 <= val < 0x1_0000 then Ok([val % 0x100, val / 0x100]) else Err(StructError)
  }

  /** struct.unpack("<H"): exactly two bytes. */
  function Unpack16(data: seq<Byte>): Result<int> {
    if |data| == 2 then Ok(data[0] as int + 0x100 * data[1] as int) else Err(StructError)
  }

  function Pack8(val: int): seq<Byte> {
    [val % 0x100]
  }

  function PackSize(val: int, size: int): Result<seq<Byte>> {
    if size == 1 then Ok(Pack8(val)) else if size == 2 then Pack16(val) else Pack32(val)
  }

  /** A slice that is cut off at the end of the data. */
  function Slice(data: seq<Byte>, start: nat, stop: nat): seq<Byte>
    requires start <= stop
  {
    if stop <= |data| then data[start..stop] else if start <= |data| then data[start..] else []
  }

  function ToUint32(data: seq<Byte>): Result<int> {
    Unpack32(Slice(data, 0, 4))
  }

  function ToUint16(data: seq<Byte>): Result<int> {
    Unpack16(Slice(data, 0, 2))
  }

  function ToUint8(data: seq<Byte>): Result<int> {
    if data == [] then Err(OutOfData) else Ok(data[0])
  }

  // The messages. Field values are whatever the caller passes.

  datatype Region = Region(start: int, end: int, flags: int)

  /** Page addresses as the caller lists them, and as the parser leaves them: not computed yet. */
  datatype Pages = Listed(addresses: seq<int>) | Lazy(raw: seq<Byte>)

  datatype Message =
    | ReadMemory(address: int, size: int)
    | WriteMemory(address: int, size: int, value: int)
    | GetRegister(register: int)
    | SetRegister(register: int, value: int)
    | ReadUntypedMemory(address: int, size: int)
    | WriteUntypedMemory(address: int, size: int, data: seq<Byte>)
    | CodeletExecute(address: int)
    | InsertPage(page_address: int, data: seq<Byte>)
    | ExtractPage(page_address: int)
    | UnmapPage(page_address: int)
    | SetMemoryMap(entries: seq<Region>)
    | GetDirtyPages
    | SetExceptionConfig(config: int, irq_squelch: int, fiq_squelch: int, vectors: seq<int>)
    | ClearException(exception: int)
    | ResumeVm
    | QueryState
    | ContinueFromPagefault
    | InfoException(exception: int)
    | Pagefault(page_address: int)
    | State(state: int)
    | ReplyState(state: int)
    | ReplyOk
    | ReplyError(error: int)
    | ReplyReadMemory(value: int)
    | ReplyGetRegister(value: int)
    | ReplyExtractPage(data: seq<Byte>)
    | ReplyGetDirtyPages(pages: Pages)
    | ReplyReadUntypedMemory(data: seq<Byte>)
    | ReplyCodeletExecutionFinished

  function Opcode(m: Message): Byte {
    match m
    case ReadMemory(_, _) => 0x01
    case WriteMemory(_, _, _) => 0x02
    case GetRegister(_) => 0x03
    case SetRegister(_, _) => 0x04
    case ReadUntypedMemory(_, _) => 0x05
    case WriteUntypedMemory(_, _, _) => 0x06
    case CodeletExecute(_) => 0x07
    case InsertPage(_, _) => 0x10
    case ExtractPage(_) => 0x11
    case UnmapPage(_) => 0x12
    case SetMemoryMap(_) => 0x13
    case GetDirtyPages => 0x14
    case SetExceptionConfig(_, _, _, _) => 0x20
    case ClearException(_) => 0x21
    case ResumeVm => 0x40
    case QueryState => 0x41
    case ContinueFromPagefault => 0x42
    case InfoException(_) => 0xA0
    case Pagefault(_) => 0xA4
    case State(_) => 0x81
    case ReplyState(_) => 0x82
    case ReplyOk => 0xB1
    case ReplyError(_) => 0xB2
    case ReplyReadMemory(_) => 0x90
    case ReplyGetRegister(_) => 0x91
    case ReplyExtractPage(_) => 0x92
    case ReplyGetDirtyPages(_) => 0x93
    case ReplyReadUntypedMemory(_) => 0x94
    case ReplyCodeletExecutionFinished => 0x95
  }

  function Concat(a: Result<seq<Byte>>, b: Result<seq<Byte>>): Result<seq<Byte>> {
    if a.Err? then a else if b.Err? then b else Ok(a.value + b.value)
  }

  function PackWords(words: seq<int>): Result<seq<Byte>> {
    if words == [] then Ok([]) else Concat(PackWords(words[..|words| - 1]), Pack32(words[|words| - 1]))
  }

  function PackRegions(entries: seq<Region>): Result<seq<Byte>> {
    if entries == [] then Ok([])
    else
      var e := entries[|entries| - 1];
      Concat(PackRegions(entries[..|entries| - 1]), Concat(Concat(Pack32(e.start), Pack32(e.end)), Pack32(e.flags)))
  }

  /** Two messages without fields are packed as text, which cannot be appended to bytes, and the
      exception configuration is packed with the unpacking functions. A received memory value has
      no data to pack again. An untyped write is packed with the size of its data. */
  function Pack(m: Message): Result<seq<Byte>> {
    match m
    case ReadMemory(address, size) => Concat(Pack32(address), Ok(Pack8(size)))
    case WriteMemory(address, size, value) => Concat(Concat(Pack32(address), Ok(Pack8(size))), PackSize(value, size))
    case GetRegister(register) => Ok(Pack8(register))
    case SetRegister(register, value) => Concat(Ok(Pack8(register)), Pack32(value))
    case ReadUntypedMemory(address, size) => Concat(Pack32(address), Ok(Pack8(size)))
    case WriteUntypedMemory(address, _, data) => Concat(Concat(Pack32(address), Ok(Pack8(|data|))), Ok(data))
    case CodeletExecute(address) => Pack32(address)
    case InsertPage(page, data) => Concat(Pack32(page), Ok(data))
    case ExtractPage(page) => Pack32(page)
    case UnmapPage(page) => Pack32(page)
    case SetMemoryMap(entries) => Concat(Ok(Pack8(|entries|)), PackRegions(entries))
    case GetDirtyPages => Ok([])
    case SetExceptionConfig(_, _, _, _) => Err(TypeError)
    case ClearException(exception) => Ok(Pack8(exception))
    case ResumeVm => Ok([])
    case QueryState => Ok([])
    case ContinueFromPagefault => Err(TypeError)
    case InfoException(exception) => Ok(Pack8(exception))
    case Pagefault(page) => Pack32(page)
    case State(state) => Ok(Pack8(state))
    case ReplyState(state) => Ok(Pack8(state))
    case ReplyOk => Err(TypeError)
    case ReplyError(error) => Ok(Pack8(error))
    case ReplyReadMemory(_) => Err(TypeError)
    case ReplyGetRegister(value) => Pack32(value)
    case ReplyExtractPage(data) => Ok(data)
    case ReplyGetDirtyPages(Lazy(_)) => Err(TypeError)
    case ReplyGetDirtyPages(Listed(a)) => if |a| < 0x100 then Concat(Ok([|a|]), PackWords(a)) else Err(ValueError)
    case ReplyReadUntypedMemory(data) => Ok(data)
    case ReplyCodeletExecutionFinished => Ok([])
  }

  function Serialize(m: Message): Result<seq<Byte>> {
    Concat(Ok([Opcode(m)]), Pack(m))
  }

  function Map1(a: Result<int>, f: int -> Message): Result<Message> {
    if a.Ok? then Ok(f(a.value)) else Err(a.error)
  }

  function Map2(a: Result<int>, b: Result<int>, f: (int, int) -> Message): Result<Message> {
    if a.Err? then Err(a.error) else if b.Err? then Err(b.error) else Ok(f(a.value, b.value))
  }

  function Padding(n: nat): (z: seq<Byte>)
    ensures |z| == n
  {
    seq(n, _ => 0)
  }

  /** The length byte, that many bytes, and zeros up to four. */
  function PaddedValue(data: seq<Byte>): Result<int> {
    if data == [] then Err(OutOfData)
    else
      var n: int := data[0];
      ToUint32(Slice(data, 1, 1 + n) + Padding(if n <= 4 then 4 - n else 0))
  }

  /** The vectors of an exception configuration are joined as text, which fails on the first one. */
  function ExceptionConfig(data: seq<Byte>): Result<Message> {
    var config := ToUint32(Slice(data, 0, 4));
    var irq := ToUint16(Slice(data, 4, 6));
    var fiq := ToUint16(Slice(data, 6, 8));
    if config.Err? then Err(config.error)
    else if irq.Err? then Err(irq.error)
    else if fiq.Err? then Err(fiq.error)
    else if |Slice(data, 8, 40)| >= 4 then Err(TypeError)
    else Ok(SetExceptionConfig(config.value, irq.value, fiq.value, []))
  }

  /** The unpack entry of an opcode, applied to what follows the opcode. */
  function Unpack(opcode: Byte, data: seq<Byte>): Result<Message> {
    if opcode == 0x01 then Map2(ToUint32(Slice(data, 0, 4)), ToUint8(Slice(data, 4, 5)), (a, s) => ReadMemory(a, s))
    else if opcode == 0x02 then
      var v := ToUint32(Slice(data, 5, 9));
      var m := Map2(ToUint32(Slice(data, 0, 4)), ToUint8(Slice(data, 4, 5)), (a, s) => WriteMemory(a, s, if v.Ok? then v.value else 0));
      if m.Ok? && v.Err? then Err(v.error) else m
    else if opcode == 0x03 then Map1(ToUint8(Slice(data, 0, 1)), r => GetRegister(r))
    else if opcode == 0x04 then Map2(ToUint8(Slice(data, 0, 1)), ToUint32(Slice(data, 1, 5)), (r, v) => SetRegister(r, v))
    else if opcode == 0x05 then Map2(ToUint32(Slice(data, 0, 4)), ToUint8(Slice(data, 4, 5)), (a, s) => ReadUntypedMemory(a, s))
    else if opcode == 0x06 then Map2(ToUint32(Slice(data, 0, 4)), ToUint8(Slice(data, 4, 5)),
                                     (a, s) => WriteUntypedMemory(a, s, if |data| >= 5 then data[5..] else []))
    else if opcode == 0x07 then Map1(ToUint32(Slice(data, 0, 4)), a => CodeletExecute(a))
    else if opcode == 0x10 then Map1(ToUint32(Slice(data, 0, 4)), a => InsertPage(a, Slice(data, 5, 69)))
    else if opcode == 0x11 then Map1(ToUint32(Slice(data, 0, 4)), a => ExtractPage(a))
    else if opcode == 0x12 then Map1(ToUint32(Slice(data, 0, 4)), a => UnmapPage(a))
    else if opcode == 0x13 then Err(if data == [] then OutOfData else TypeError)
    else if opcode == 0x14 then Ok(GetDirtyPages)
    else if opcode == 0x20 then ExceptionConfig(data)
    else if opcode == 0x21 then Map1(ToUint8(Slice(data, 0, 4)), e => ClearException(e))
    else if opcode == 0x40 then Ok(ResumeVm)
    else if opcode == 0x41 then Ok(QueryState)
    else if opcode == 0x42 then Ok(ContinueFromPagefault)
    else UnpackReply(opcode, data)
  }

  function UnpackReply(opcode: Byte, data: seq<Byte>): Result<Message> {
    if opcode == 0xA0 then Map1(ToUint8(Slice(data, 0, 1)), e => InfoException(e))
    else if opcode == 0xA4 then Map1(ToUint32(Slice(data, 0, 4)), a => Pagefault(a))
    else if opcode == 0x81 then Map1(ToUint8(Slice(data, 0, 1)), s => State(s))
    else if opcode == 0x82 then Map1(ToUint8(Slice(data, 0, 1)), s => ReplyState(s))
    else if opcode == 0xB1 then Ok(ReplyOk)
    else if opcode == 0xB2 then Map1(ToUint8(Slice(data, 0, 1)), e => ReplyError(e))
    else if opcode == 0x90 then Map1(PaddedValue(data), v => ReplyReadMemory(v))
    else if opcode == 0x91 then Map1(ToUint32(Slice(data, 0, 4)), v => ReplyGetRegister(v))
    else if opcode == 0x92 then Ok(ReplyExtractPage(Slice(data, 0, 64)))
    else if opcode == 0x93 then
      if data == [] then Err(OutOfData)
      else
        var n: int := data[0];
        Ok(ReplyGetDirtyPages(Lazy(Slice(data, 1, 1 + 4 * n))))
    else if opcode == 0x94 then Ok(ReplyReadUntypedMemory(data))
    else if opcode == 0x95 then Ok(ReplyCodeletExecutionFinished)
    else Err(UnknownOpcode(opcode))
  }

  function ParseMessage(data: seq<Byte>): Result<Message>
    requires data != []
  {
    Unpack(data[0], data[1..])
  }

  // Which messages come back as they were, although the parser is also handed the checksum.

  predicate Octet(x: int) {
    0 <= x < 0x100
  }

  predicate Word32(x: int) {
    0 <= x < 0x1_0000_0000
  }

  /** The fields fit their encoding and the layout has a fixed length. A page to insert is read
      one byte too far on and so comes back only if all its bytes are the checksum. */
  predicate Survives(m: Message, crc: Byte) {
    match m
    case ReadMemory(address, size) => Word32(address) && Octet(size)
    case WriteMemory(address, size, value) => Word32(address) && Octet(size) && Word32(value) && size != 1 && size != 2
    case GetRegister(register) => Octet(register)
    case SetRegister(register, value) => Octet(register) && Word32(value)
    case ReadUntypedMemory(address, size) => Word32(address) && Octet(size)
    case CodeletExecute(address) => Word32(address)
    case ExtractPage(page) => Word32(page)
    case UnmapPage(page) => Word32(page)
    case ClearException(exception) => Octet(exception)
    case InfoException(exception) => Octet(exception)
    case Pagefault(page) => Word32(page)
    case State(state) => Octet(state)
    case ReplyState(state) => Octet(state)
    case ReplyError(error) => Octet(error)
    case ReplyGetRegister(value) => Word32(value)
    case ReplyExtractPage(data) => |data| == 64
    case InsertPage(page, data) => Word32(page) && |data| <= 64 && forall i :: 0 <= i < |data| ==> data[i] == crc
    case GetDirtyPages | ResumeVm | QueryState | ReplyCodeletExecutionFinished => true
    case ContinueFromPagefault | ReplyOk | ReplyReadMemory(_) | ReplyReadUntypedMemory(_) => false
    case WriteUntypedMemory(_, _, _) | SetMemoryMap(_) | SetExceptionConfig(_, _, _, _) | ReplyGetDirtyPages(_) => false
  }

  predicate Transparent(m: Message) {
    Survives(m, if Serialize(m).Ok? then ChecksumOf(Serialize(m).value) else 0)
  }

  lemma Pack32RoundTrip(val: int)
    requires Word32(val)
    ensures Pack32(val).Ok? && |Pack32(val).value| == 4 && Unpack32(Pack32(val).value) == Ok(val)
  {
    SplitWord(val);
  }

  /** `before` and `after` are whatever surrounds the field. */
  lemma Word32Field(before: seq<Byte>, val: int, after: seq<Byte>)
    requires Word32(val)
    ensures Pack32(val).Ok? && |Pack32(val).value| == 4
    ensures ToUint32(Slice(before + Pack32(val).value + after, |before|, |before| + 4)) == Ok(val)
  {
    hide Unpack32, Pack32;
    Pack32RoundTrip(val);
    assert Slice(before + Pack32(val).value + after, |before|, |before| + 4) == Pack32(val).value;
    assert Slice(Pack32(val).value, 0, 4) == Pack32(val).value;
  }

  lemma OctetField(before: seq<Byte>, val: int, after: seq<Byte>, n: nat)
    requires n >= 1
    ensures ToUint8(Slice(before + Pack8(val) + after, |before|, |before| + n)) == Ok(val % 0x100)
  {
    assert Slice(before + Pack8(val) + after, |before|, |before| + n)[0] == Pack8(val)[0];
  }

  // One lemma per layout. `tail` holds the checksum.

  lemma WordThenOctet(a: int, s: int, tail: seq<Byte>)
    requires Word32(a)
    ensures Pack32(a).Ok?
    ensures var data := Pack32(a).value + Pack8(s) + tail;
            ToUint32(Slice(data, 0, 4)) == Ok(a) && ToUint8(Slice(data, 4, 5)) == Ok(s % 0x100)
  {
    hide Pack32, Pack8, ToUint32, ToUint8, Slice;
    Word32Field([], a, Pack8(s) + tail);
    assert [] + Pack32(a).value + (Pack8(s) + tail) == Pack32(a).value + Pack8(s) + tail;
    OctetField(Pack32(a).value, s, tail, 1);
  }

  lemma WordOnly(a: int, tail: seq<Byte>)
    requires Word32(a)
    ensures Pack32(a).Ok? && ToUint32(Slice(Pack32(a).value + tail, 0, 4)) == Ok(a)
  {
    hide Pack32, ToUint32, Slice;
    Word32Field([], a, tail);
    assert [] + Pack32(a).value + tail == Pack32(a).value + tail;
  }

  lemma OctetOnly(s: int, tail: seq<Byte>, n: nat)
    requires n >= 1
    ensures ToUint8(Slice(Pack8(s) + tail, 0, n)) == Ok(s % 0x100)
  {
    hide Pack8, ToUint8, Slice;
    OctetField([], s, tail, n);
    assert [] + Pack8(s) + tail == Pack8(s) + tail;
  }

  lemma OctetThenWord(s: int, v: int, tail: seq<Byte>)
    requires Word32(v)
    ensures Pack32(v).Ok?
    ensures var data := Pack8(s) + Pack32(v).value + tail;
            ToUint8(Slice(data, 0, 1)) == Ok(s % 0x100) && ToUint32(Slice(data, 1, 5)) == Ok(v)
  {
    hide Pack32, ToUint32, ToUint8, Slice;
    Word32Field(Pack8(s), v, tail);
    OctetField([], s, Pack32(v).value + tail, 1);
    assert [] + Pack8(s) + (Pack32(v).value + tail) == Pack8(s) + Pack32(v).value + tail;
  }

  /** The value of a write is packed by size; the parser wants four bytes and takes the checksum
      for one of them. */
  lemma SizedValue(a: int, s: int, v: int, crc: Byte)
    requires Word32(a) && Octet(s) && PackSize(v, s).Ok?
    ensures Pack32(a).Ok?
    ensures var data := Pack32(a).value + Pack8(s) + PackSize(v, s).value + [crc];
            if s == 1 || s == 2 then ToUint32(Slice(data, 5, 9)).Err? else ToUint32(Slice(data, 5, 9)) == Ok(v)
  {
    var before := Pack32(a).value + Pack8(s);
    if s != 1 && s != 2 {
      Word32Field(before, v, [crc]);
    }
  }

  /** What the parser makes of the packed fields followed by a checksum. */
  ghost predicate Returns(m: Message, crc: Byte) {
    Pack(m).Ok? && Unpack(Opcode(m), Pack(m).value + [crc]) == Ok(m)
  }

  lemma TwoFieldsReturn(m: Message, crc: Byte)
    requires m.ReadMemory? || m.SetRegister? || m.ReadUntypedMemory?
    ensures Returns(m, crc) <==> Survives(m, crc)
  {
    hide Pack8, ToUint32, ToUint8, Slice;
    match m
    case ReadMemory(a, s) => if Word32(a) { WordThenOctet(a, s, [crc]); }
    case ReadUntypedMemory(a, s) => if Word32(a) { WordThenOctet(a, s, [crc]); }
    case SetRegister(r, v) => if Word32(v) { OctetThenWord(r, v, [crc]); }
  }

  lemma WordReturns(m: Message, crc: Byte)
    requires m.CodeletExecute? || m.ExtractPage? || m.UnmapPage? || m.Pagefault? || m.ReplyGetRegister?
    ensures Returns(m, crc) <==> Survives(m, crc)
  {
    hide Pack8, ToUint32, ToUint8, Slice;
    match m
    case CodeletExecute(a) => if Word32(a) { WordOnly(a, [crc]); }
    case ExtractPage(a) => if Word32(a) { WordOnly(a, [crc]); }
    case UnmapPage(a) => if Word32(a) { WordOnly(a, [crc]); }
    case Pagefault(a) => if Word32(a) { WordOnly(a, [crc]); }
    case ReplyGetRegister(v) => if Word32(v) { WordOnly(v, [crc]); }
  }

  lemma OctetReturns(m: Message, crc: Byte)
    requires m.GetRegister? || m.ClearException? || m.InfoException? || m.State? || m.ReplyState? || m.ReplyError?
    ensures Returns(m, crc) <==> Survives(m, crc)
  {
    hide Pack8, ToUint32, ToUint8, Slice;
    match m
    case GetRegister(r) => OctetOnly(r, [crc], 1);
    case ClearException(e) => OctetOnly(e, [crc], 4);
    case InfoException(e) => OctetOnly(e, [crc], 1);
    case State(s) => OctetOnly(s, [crc], 1);
    case ReplyState(s) => OctetOnly(s, [crc], 1);
    case ReplyError(e) => OctetOnly(e, [crc], 1);
  }

  lemma WriteReturns(m: Message, crc: Byte)
    requires m.WriteMemory?
    ensures Returns(m, crc) <==> Survives(m, crc)
  {
    hide Pack8, PackSize, ToUint32, ToUint8, Slice;
    var a, s, v := m.address, m.size, m.value;
    if Word32(a) && PackSize(v, s).Ok? {
      WordThenOctet(a, s, PackSize(v, s).value + [crc]);
      assert Pack32(a).value + Pack8(s) + (PackSize(v, s).value + [crc]) == Pack32(a).value + Pack8(s) + PackSize(v, s).value + [crc];
      if Octet(s) {
        SizedValue(a, s, v, crc);
      }
    }
    SizedRange(v, s);
  }

  lemma SizedRange(v: int, s: int)
    ensures s != 1 && s != 2 ==> (PackSize(v, s).Ok? <==> Word32(v))
  {
  }

  lemma PageSlice(data: seq<Byte>, crc: Byte)
    ensures Slice(data + [crc], 0, 64) == data <==> |data| == 64
    ensures data + [crc] != data
  {
  }

  lemma DataReturns(m: Message, crc: Byte)
    requires m.ReplyExtractPage? || m.ReplyReadUntypedMemory?
    ensures Returns(m, crc) <==> Survives(m, crc)
  {
    hide Pack8, ToUint32, ToUint8, Slice;
    PageSlice(m.data, crc);
  }

  lemma BareReturns(m: Message, crc: Byte)
    requires m.GetDirtyPages? || m.ResumeVm? || m.QueryState? || m.ReplyCodeletExecutionFinished?
             || m.ContinueFromPagefault? || m.ReplyOk? || m.ReplyReadMemory?
    ensures Returns(m, crc) <==> Survives(m, crc)
  {
    hide Pack32, Pack8, ToUint32, ToUint8, Slice;
  }

  lemma LongerData(data: seq<Byte>, crc: Byte)
    ensures data + [crc] != data
  {
  }

  lemma UntypedWriteLost(m: Message, crc: Byte)
    requires m.WriteUntypedMemory?
    ensures !Returns(m, crc) && !Survives(m, crc)
  {
    hide Pack8, ToUint32, ToUint8, Slice, Pack32;
    if Pack(m).Ok? {
      var header := Pack32(m.address).value + Pack8(|m.data|);
      LongerData(m.data, crc);
      HeaderLength(m.address, |m.data|);
      assert (header + m.data + [crc])[5..] == m.data + [crc];
    }
  }

  lemma HeaderLength(a: int, n: int)
    requires Pack32(a).Ok?
    ensures Word32(a) && |Pack32(a).value| == 4 && |Pack8(n)| == 1
  {
  }

  lemma {:induction false} AllAreLast(data: seq<Byte>, crc: Byte, i: nat)
    requires data != [] && data[1..] + [crc] == data && i < |data|
    ensures data[i] == crc
    decreases |data| - i
  {
    assert (data[1..] + [crc])[i] == data[i];
    if i + 1 < |data| {
      AllAreLast(data, crc, i + 1);
    }
  }

  /** A slice that begins one byte late gives the data back exactly if every byte of the data is
      the byte behind it. */
  lemma LateSlice(header: seq<Byte>, data: seq<Byte>, crc: Byte)
    requires |header| == 4
    ensures Slice(header + data + [crc], 5, 69) == data <==>
            |data| <= 64 && forall i :: 0 <= i < |data| ==> data[i] == crc
  {
    var full := header + data + [crc];
    if data != [] && |data| <= 64 {
      assert Slice(full, 5, 69) == data[1..] + [crc];
      if data[1..] + [crc] == data {
        forall i | 0 <= i < |data|
          ensures data[i] == crc
        {
          AllAreLast(data, crc, i);
        }
      }
    }
  }

  lemma PageReturns(m: Message, crc: Byte)
    requires m.InsertPage?
    ensures Returns(m, crc) <==> Survives(m, crc)
  {
    hide Pack32, ToUint32, ToUint8, Slice;
    if Pack32(m.page_address).Ok? {
      HeaderLength(m.page_address, 0);
      LateSlice(Pack32(m.page_address).value, m.data, crc);
      WordOnly(m.page_address, m.data + [crc]);
      assert Pack32(m.page_address).value + (m.data + [crc]) == Pack32(m.page_address).value + m.data + [crc];
    } else {
      WordRange(m.page_address);
    }
  }

  lemma WordRange(a: int)
    ensures Pack32(a).Ok? <==> Word32(a)
  {
  }

  lemma BrokenNeverReturns(m: Message, crc: Byte)
    requires m.SetMemoryMap? || m.SetExceptionConfig? || m.ReplyGetDirtyPages?
    ensures !Returns(m, crc) && !Survives(m, crc)
  {
    hide PackWords, PackRegions, ExceptionConfig;
  }

  lemma ReturnsIfSurvives(m: Message, crc: Byte)
    ensures Returns(m, crc) <==> Survives(m, crc)
  {
    hide Returns, Survives;
    match m
    case ReadMemory(_, _) => TwoFieldsReturn(m, crc);
    case GetRegister(_) => OctetReturns(m, crc);
    case SetRegister(_, _) => TwoFieldsReturn(m, crc);
    case ReadUntypedMemory(_, _) => TwoFieldsReturn(m, crc);
    case CodeletExecute(_) => WordReturns(m, crc);
    case ExtractPage(_) => WordReturns(m, crc);
    case UnmapPage(_) => WordReturns(m, crc);
    case ClearException(_) => OctetReturns(m, crc);
    case WriteMemory(_, _, _) => WriteReturns(m, crc);
    case InfoException(_) => OctetReturns(m, crc);
    case Pagefault(_) => WordReturns(m, crc);
    case State(_) => OctetReturns(m, crc);
    case ReplyState(_) => OctetReturns(m, crc);
    case ReplyError(_) => OctetReturns(m, crc);
    case ReplyGetRegister(_) => WordReturns(m, crc);
    case WriteUntypedMemory(_, _, _) => UntypedWriteLost(m, crc);
    case InsertPage(_, _) => PageReturns(m, crc);
    case SetMemoryMap(_) => BrokenNeverReturns(m, crc);
    case SetExceptionConfig(_, _, _, _) => BrokenNeverReturns(m, crc);
    case ReplyGetDirtyPages(_) => BrokenNeverReturns(m, crc);
    case ReplyExtractPage(_) => DataReturns(m, crc);
    case ReplyReadUntypedMemory(_) => DataReturns(m, crc);
    case _ => BareReturns(m, crc);
  }

  /** The stub's parser on the wire form of a message: the parser sees the checksum too, and
      gives back the same message exactly when its layout is fixed and its fields fit. */
  lemma MessageRoundTrip(m: Message)
    ensures (Serialize(m).Ok? && ParseMessage(Body(Serialize(m).value)) == Ok(m)) <==> Transparent(m)
  {
    hide Unpack, Survives, ChecksumOf, Opcode;
    if Serialize(m).Ok? {
      var p := Serialize(m).value;
      ReturnsIfSurvives(m, ChecksumOf(p));
      assert Body(p)[1..] == Pack(m).value + [ChecksumOf(p)];
    } else {
      ReturnsIfSurvives(m, 0);
    }
  }

  // The whole link.

  function Payloads(ms: seq<Message>): Result<seq<seq<Byte>>> {
    if ms == [] then Ok([])
    else
      var init := Payloads(ms[..|ms| - 1]);
      var last := Serialize(ms[|ms| - 1]);
      if init.Err? then init else if last.Err? then Err(last.error) else Ok(init.value + [last.value])
  }

  lemma {:induction false} PayloadAt(ms: seq<Message>, k: nat)
    requires Payloads(ms).Ok? && k < |ms|
    ensures |Payloads(ms).value| == |ms| && Serialize(ms[k]) == Ok(Payloads(ms).value[k])
  {
    if |ms| > 1 {
      PayloadAt(ms[..|ms| - 1], if k < |ms| - 1 then k else 0);
    }
  }

  lemma {:induction false} AllSerialize(ms: seq<Message>)
    requires forall k :: 0 <= k < |ms| ==> Transparent(ms[k])
    ensures Payloads(ms).Ok? && |Payloads(ms).value| == |ms|
  {
    if ms != [] {
      hide Transparent, Serialize;
      AllSerialize(ms[..|ms| - 1]);
      MessageRoundTrip(ms[|ms| - 1]);
    }
  }

  /** Any sequence of transparent messages, sent one after the other, is received, accepted and
      parsed as that sequence. */
  lemma LinkRoundTrip(accepted: seq<seq<Byte>>, ms: seq<Message>)
    requires forall k :: 0 <= k < |ms| ==> Transparent(ms[k])
    ensures Payloads(ms).Ok?
    ensures var r := Feed(Fresh(accepted), Stream(Payloads(ms).value)).accepted;
            |r| == |accepted| + |ms|
            && forall k :: 0 <= k < |ms| ==> r[|accepted| + k] != [] && ParseMessage(r[|accepted| + k]) == Ok(ms[k])
  {
    hide Transparent, Serialize, Feed, Stream, ParseMessage, Payloads, ChecksumOf;
    AllSerialize(ms);
    var ps := Payloads(ms).value;
    StreamRoundTrip(accepted, ps);
    forall k | 0 <= k < |ms|
      ensures ParseMessage(Bodies(ps)[k]) == Ok(ms[k])
    {
      PayloadAt(ms, k);
      MessageRoundTrip(ms[k]);
    }
  }

  // Replies with the bytes of a memory access.

  /** What the stub sends for a memory read: the number of bytes, and the bytes. */
  function ReadReply(data: seq<Byte>): seq<Byte>
    requires |data| < 0x100
  {
    [0x90, |data|] + data
  }

  function LittleEndian(data: seq<Byte>): int {
    if data == [] then 0 else data[0] as int + 0x100 * LittleEndian(data[1..])
  }

  lemma {:induction false} TrailingZeros(data: seq<Byte>, n: nat)
    ensures LittleEndian(data + Padding(n)) == LittleEndian(data)
  {
    if data != [] {
      assert (data + Padding(n))[1..] == data[1..] + Padding(n);
      TrailingZeros(data[1..], n);
    } else if n > 0 {
      assert ([] + Padding(n))[1..] == [] + Padding(n - 1);
      TrailingZeros([], n - 1);
    }
  }

  lemma FourBytes(data: seq<Byte>)
    requires |data| >= 4
    ensures ToUint32(data) == Ok(LittleEndian(data[..4]))
  {
    var d := data[..4];
    assert d[1..][1..] == d[2..] && d[2..][1..] == d[3..] && d[3..][1..] == [];
    assert LittleEndian(d[3..]) == d[3];
    assert LittleEndian(d[2..]) == d[2] as int + 0x100 * d[3] as int;
    assert LittleEndian(d[1..]) == d[1] as int + 0x100 * d[2] as int + 0x1_0000 * d[3] as int;
  }

  function Missing(n: nat): nat {
    if n <= 4 then 4 - n else 0
  }

  lemma PaddedReply(data: seq<Byte>, crc: Byte)
    requires |data| < 0x100
    ensures PaddedValue([|data|] + data + [crc]) == ToUint32(data + Padding(Missing(|data|)))
  {
    hide ToUint32;
    assert Slice([|data|] + data + [crc], 1, 1 + |data|) == data;
  }

  lemma PaddedNumber(data: seq<Byte>)
    ensures ToUint32(data + Padding(Missing(|data|))) == Ok(LittleEndian(if |data| <= 4 then data else data[..4]))
  {
    hide LittleEndian, ToUint32;
    var padded := data + Padding(Missing(|data|));
    FourBytes(padded);
    if |data| <= 4 {
      assert padded[..4] == padded;
      TrailingZeros(data, Missing(|data|));
    } else {
      assert padded[..4] == data[..4];
    }
  }

  lemma ParseRead(rest: seq<Byte>)
    requires PaddedValue(rest).Ok?
    ensures ParseMessage([0x90] + rest) == Ok(ReplyReadMemory(PaddedValue(rest).value))
  {
    hide PaddedValue;
    assert ([0x90] + rest)[1..] == rest;
  }

  /** A memory value is the little-endian number of the bytes the stub read, of which only the
      first four are used. */
  lemma ReadReplyValue(data: seq<Byte>, crc: Byte)
    requires |data| < 0x100
    ensures ParseMessage(ReadReply(data) + [crc])
              == Ok(ReplyReadMemory(LittleEndian(if |data| <= 4 then data else data[..4])))
  {
    hide LittleEndian, ToUint32, PaddedValue, Unpack, ParseMessage;
    var rest := [|data|] + data + [crc];
    PaddedReply(data, crc);
    PaddedNumber(data);
    ParseRead(rest);
    assert ReadReply(data) + [crc] == [0x90] + rest;
  }

  const OPCODES: set<Byte> :=
    {0x01, 0x02, 0x03, 0x04, 0x05, 0x06, 0x07, 0x10, 0x11, 0x12, 0x13, 0x14, 0x20, 0x21, 0x40, 0x41, 0x42,
     0x81, 0x82, 0x90, 0x91, 0x92, 0x93, 0x94, 0x95, 0xA0, 0xA4, 0xB1, 0xB2}

  const REPLIES: set<Byte> := {0x81, 0x82, 0x90, 0x91, 0x92, 0x93, 0x94, 0x95, 0xA0, 0xA4, 0xB1, 0xB2}

  /** What can go wrong: an opcode outside the table, too little data for the layout, or one of
      the two entries that treat bytes as text. A parsed message has the opcode it came with. */
  predicate Outcome(opcode: Byte, data: seq<Byte>, r: Result<Message>) {
    && (opcode !in OPCODES <==> r == Err(UnknownOpcode(opcode)))
    && (opcode in OPCODES && r.Err? ==> !r.error.UnknownOpcode?)
    && (r.Ok? ==> Opcode(r.value) == opcode)
    && (opcode in OPCODES && |data| >= 64 ==>
          if opcode == 0x13 || opcode == 0x20 then r == Err(TypeError) else r.Ok?)
  }

  lemma RequestOutcome(opcode: Byte, data: seq<Byte>)
    requires opcode in OPCODES - REPLIES
    ensures Outcome(opcode, data, Unpack(opcode, data))
  {
    hide UnpackReply, ExceptionConfig;
    ConfigOutcome(data);
  }

  lemma ReplyOutcome(opcode: Byte, data: seq<Byte>)
    requires opcode !in OPCODES - REPLIES
    ensures Unpack(opcode, data) == UnpackReply(opcode, data) && Outcome(opcode, data, UnpackReply(opcode, data))
  {
    hide PaddedValue;
    PaddedOutcome(data);
  }

  lemma ParseOutcome(data: seq<Byte>)
    requires data != []
    ensures (exists e :: ParseMessage(data) == Err(UnknownOpcode(e))) <==> data[0] !in OPCODES
    ensures ParseMessage(data).Ok? ==> Opcode(ParseMessage(data).value) == data[0]
    ensures data[0] in OPCODES && |data| > 64 ==>
              if data[0] == 0x13 || data[0] == 0x20 then ParseMessage(data) == Err(TypeError) else ParseMessage(data).Ok?
  {
    hide Unpack, UnpackReply, Opcode;
    if data[0] in OPCODES - REPLIES {
      RequestOutcome(data[0], data[1..]);
    } else {
      ReplyOutcome(data[0], data[1..]);
    }
  }

  lemma ConfigOutcome(data: seq<Byte>)
    ensures |data| >= 12 ==> ExceptionConfig(data) == Err(TypeError)
    ensures ExceptionConfig(data).Err? ==> !ExceptionConfig(data).error.UnknownOpcode?
    ensures ExceptionConfig(data).Ok? ==> ExceptionConfig(data).value.SetExceptionConfig?
  {
  }

  /** A write of one byte never comes back: the parser wants four bytes for the value. */
  lemma ShortWriteLost()
    ensures var p := Serialize(WriteMemory(0, 1, 5));
            p.Ok? && ParseMessage(Body(p.value)) == Err(StructError)
  {
    hide ChecksumOf;
    var p := Serialize(WriteMemory(0, 1, 5)).value;
    assert p == [0x02, 0, 0, 0, 0, 1, 5];
    assert Body(p)[1..] == [0, 0, 0, 0, 1, 5, ChecksumOf(p)];
  }

  lemma PaddedOutcome(data: seq<Byte>)
    ensures |data| >= 5 ==> PaddedValue(data).Ok?
    ensures PaddedValue(data).Ok? || PaddedValue(data) == Err(OutOfData) || PaddedValue(data) == Err(StructError)
  {
  }
}
