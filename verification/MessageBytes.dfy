/** The messages of the stub link byte by byte: what each one is on the wire, and which message
    the parser makes of which bytes. Nothing here refers to the tables of the packer. */
module MessageBytes {
  import opened Words
  import opened Messages

  lemma FourDigits(d: seq<Byte>)
    requires |d| == 4
    ensures LittleEndian(d) == d[0] as int + 0x100 * d[1] as int + 0x1_0000 * d[2] as int + 0x100_0000 * d[3] as int
  {
    FourBytes(d);
    assert d[..4] == d;
  }

  lemma TwoDigits(d: seq<Byte>)
    requires |d| == 2
    ensures LittleEndian(d) == d[0] as int + 0x100 * d[1] as int
  {
    assert d[1..][1..] == [];
    assert LittleEndian(d[1..]) == d[1];
  }

  /** A word that fits is packed into its four bytes, and one that does not is refused. */
  lemma WordBytes(v: int)
    ensures if 0 <= v < 0x1_0000_0000 then Pack32(v).Ok? && |Pack32(v).value| == 4 && LittleEndian(Pack32(v).value) == v
            else Pack32(v) == Err(StructError)
  {
    if Word32(v) {
      Pack32RoundTrip(v);
      FourDigits(Pack32(v).value);
    }
  }

  lemma HalfBytes(v: int)
    ensures if 0 <= v < 0x1_0000 then Pack16(v).Ok? && |Pack16(v).value| == 2 && LittleEndian(Pack16(v).value) == v
            else Pack16(v) == Err(StructError)
  {
    if 0 <= v < 0x1_0000 {
      TwoDigits(Pack16(v).value);
    }
  }

  // Messages to the stub.

  /** The bytes begin with the opcode and a word. */
  predicate Begins(p: seq<Byte>, opcode: Byte, v: int) {
    |p| >= 5 && p[0] == opcode && LittleEndian(p[1..5]) == v
  }

  lemma Beginning(opcode: Byte, v: int, rest: seq<Byte>)
    requires Word32(v)
    ensures Pack32(v).Ok?
    ensures var p := [opcode] + (Pack32(v).value + rest);
            Begins(p, opcode, v) && p[5..] == rest
  {
    hide Pack32, LittleEndian;
    WordBytes(v);
    var p := [opcode] + (Pack32(v).value + rest);
    assert p[1..5] == Pack32(v).value;
  }

  lemma Joined(m: Message, v: int, rest: seq<Byte>)
    requires Word32(v) && Pack32(v).Ok? && Pack(m) == Ok(Pack32(v).value + rest)
    ensures Serialize(m).Ok? && Begins(Serialize(m).value, Opcode(m), v) && Serialize(m).value[5..] == rest
  {
    hide Pack32, Pack, Opcode, Begins;
    Beginning(Opcode(m), v, rest);
  }

  /** Requests that carry an address first. */
  lemma AddressedBytes(m: Message)
    requires m.ReadMemory? || m.ReadUntypedMemory? || m.WriteUntypedMemory? || m.CodeletExecute?
    ensures !Word32(m.address) ==> Serialize(m) == Err(StructError)
    ensures Word32(m.address) ==>
              && Serialize(m).Ok?
              && var p := Serialize(m).value;
              && (m.ReadMemory? ==> Begins(p, 0x01, m.address) && p[5..] == [m.size % 0x100])
              && (m.ReadUntypedMemory? ==> Begins(p, 0x05, m.address) && p[5..] == [m.size % 0x100])
              && (m.WriteUntypedMemory? ==> Begins(p, 0x06, m.address) && p[5..] == [|m.data| % 0x100] + m.data)
              && (m.CodeletExecute? ==> Begins(p, 0x07, m.address) && p[5..] == [])
  {
    hide Pack32, Begins, Serialize;
    WordBytes(m.address);
    SerializeFails(m);
    if Word32(m.address) {
      var a := Pack32(m.address).value;
      match m
      case ReadMemory(_, size) => Joined(m, m.address, [size % 0x100]);
      case ReadUntypedMemory(_, size) => Joined(m, m.address, [size % 0x100]);
      case WriteUntypedMemory(_, _, data) =>
        assert a + [|data| % 0x100] + data == a + ([|data| % 0x100] + data);
        Joined(m, m.address, [|data| % 0x100] + data);
      case CodeletExecute(_) =>
        assert a + [] == a;
        Joined(m, m.address, []);
    }
  }

  lemma SerializeFails(m: Message)
    ensures Pack(m).Err? ==> Serialize(m) == Pack(m)
  {
    hide Pack;
  }

  lemma PageBytes(m: Message)
    requires m.InsertPage? || m.ExtractPage? || m.UnmapPage? || m.Pagefault?
    ensures !Word32(m.page_address) ==> Serialize(m) == Err(StructError)
    ensures Word32(m.page_address) ==>
              && Serialize(m).Ok?
              && var p := Serialize(m).value;
              && (m.InsertPage? ==> Begins(p, 0x10, m.page_address) && p[5..] == m.data)
              && (m.ExtractPage? ==> Begins(p, 0x11, m.page_address) && p[5..] == [])
              && (m.UnmapPage? ==> Begins(p, 0x12, m.page_address) && p[5..] == [])
              && (m.Pagefault? ==> Begins(p, 0xA4, m.page_address) && p[5..] == [])
  {
    hide Pack32, Begins, Serialize;
    WordBytes(m.page_address);
    SerializeFails(m);
    if Word32(m.page_address) {
      assert Pack32(m.page_address).value + [] == Pack32(m.page_address).value;
      Joined(m, m.page_address, if m.InsertPage? then m.data else []);
    }
  }

  /** A write carries its value in as many bytes as its size says, four for any other size. */
  lemma WriteBytes(m: Message)
    requires m.WriteMemory? && Word32(m.address)
    ensures var limit := if m.size == 2 then 0x1_0000 else 0x1_0000_0000;
            if m.size != 1 && !(0 <= m.value < limit) then Serialize(m) == Err(StructError)
            else
              && Serialize(m).Ok?
              && var p := Serialize(m).value;
              && Begins(p, 0x02, m.address) && |p| > 5 && p[5] == m.size % 0x100
              && (m.size == 1 ==> p[6..] == [m.value % 0x100])
              && (m.size == 2 ==> |p| == 8 && LittleEndian(p[6..]) == m.value)
              && (m.size != 1 && m.size != 2 ==> |p| == 10 && LittleEndian(p[6..]) == m.value)
  {
    hide Pack32, Pack16, Begins, LittleEndian;
    WordBytes(m.address);
    WordBytes(m.value);
    HalfBytes(m.value);
    if PackSize(m.value, m.size).Ok? {
      var rest := [m.size % 0x100] + PackSize(m.value, m.size).value;
      Beginning(0x02, m.address, rest);
      assert Serialize(m).value == [0x02] + (Pack32(m.address).value + rest);
      assert Serialize(m).value[6..] == rest[1..] == PackSize(m.value, m.size).value;
    }
  }

  lemma TwoBytes(opcode: Byte, x: int)
    ensures [opcode] + Pack8(x) == [opcode, x % 0x100]
  {
  }

  /** Messages of an opcode and one byte. */
  lemma OctetBytes(m: Message)
    ensures m.GetRegister? ==> Serialize(m) == Ok([0x03, m.register % 0x100])
    ensures m.ClearException? ==> Serialize(m) == Ok([0x21, m.exception % 0x100])
    ensures m.InfoException? ==> Serialize(m) == Ok([0xA0, m.exception % 0x100])
    ensures m.State? ==> Serialize(m) == Ok([0x81, m.state % 0x100])
    ensures m.ReplyState? ==> Serialize(m) == Ok([0x82, m.state % 0x100])
    ensures m.ReplyError? ==> Serialize(m) == Ok([0xB2, m.error % 0x100])
  {
    hide Pack8;
    match m
    case GetRegister(r) => TwoBytes(0x03, r);
    case ClearException(e) => TwoBytes(0x21, e);
    case InfoException(e) => TwoBytes(0xA0, e);
    case State(x) => TwoBytes(0x81, x);
    case ReplyState(x) => TwoBytes(0x82, x);
    case ReplyError(e) => TwoBytes(0xB2, e);
    case _ =>
  }

  lemma OneByte(opcode: Byte)
    ensures [opcode] + [] == [opcode]
  {
  }

  /** Messages of an opcode and what follows it as it is, and those that cannot be packed. */
  lemma PlainBytes(m: Message)
    ensures m.GetDirtyPages? ==> Serialize(m) == Ok([0x14])
    ensures m.ResumeVm? ==> Serialize(m) == Ok([0x40])
    ensures m.QueryState? ==> Serialize(m) == Ok([0x41])
    ensures m.ReplyCodeletExecutionFinished? ==> Serialize(m) == Ok([0x95])
    ensures m.ReplyExtractPage? ==> Serialize(m) == Ok([0x92] + m.data)
    ensures m.ReplyReadUntypedMemory? ==> Serialize(m) == Ok([0x94] + m.data)
    ensures m.ContinueFromPagefault? || m.ReplyOk? || m.ReplyReadMemory? || m.SetExceptionConfig? ==>
              Serialize(m) == Err(TypeError)
  {
    hide Pack32, PackSize, PackRegions, PackWords;
    OneByte(Opcode(m));
  }

  lemma RegisterBytes(m: Message)
    requires m.SetRegister? || m.ReplyGetRegister?
    ensures !Word32(m.value) ==> Serialize(m) == Err(StructError)
    ensures Word32(m.value) ==>
              && Serialize(m).Ok?
              && var p := Serialize(m).value;
              && (m.SetRegister? ==> |p| == 6 && p[0] == 0x04 && p[1] == m.register % 0x100 && LittleEndian(p[2..]) == m.value)
              && (m.ReplyGetRegister? ==> |p| == 5 && p[0] == 0x91 && LittleEndian(p[1..]) == m.value)
  {
    hide Pack32, LittleEndian;
    WordBytes(m.value);
    if Word32(m.value) {
      var p := Serialize(m).value;
      if m.SetRegister? {
        assert p[2..] == Pack32(m.value).value;
      } else {
        assert p[1..] == Pack32(m.value).value;
      }
    }
  }

  // Lists of words.

  /** The bytes are the words, one behind the other. */
  predicate AreWords(p: seq<Byte>, words: seq<int>) {
    |p| == 4 * |words| && forall i :: 0 <= i < |words| ==> LittleEndian(p[4 * i..4 * i + 4]) == words[i]
  }

  lemma OneMoreWord(p: seq<Byte>, words: seq<int>, q: seq<Byte>, v: int)
    requires AreWords(p, words) && |q| == 4 && LittleEndian(q) == v
    ensures AreWords(p + q, words + [v])
  {
    hide LittleEndian;
    forall i | 0 <= i < |words + [v]|
      ensures LittleEndian((p + q)[4 * i..4 * i + 4]) == (words + [v])[i]
    {
      if i < |words| {
        assert (p + q)[4 * i..4 * i + 4] == p[4 * i..4 * i + 4];
      } else {
        assert (p + q)[4 * i..4 * i + 4] == q;
      }
    }
  }

  lemma {:induction false} PackedWords(words: seq<int>)
    requires forall i :: 0 <= i < |words| ==> Word32(words[i])
    ensures PackWords(words).Ok? && AreWords(PackWords(words).value, words)
  {
    if words != [] {
      hide Pack32, AreWords;
      var k := |words| - 1;
      PackedWords(words[..k]);
      WordBytes(words[k]);
      OneMoreWord(PackWords(words[..k]).value, words[..k], Pack32(words[k]).value, words[k]);
      assert words[..k] + [words[k]] == words;
    }
  }

  /** The three words of each region. */
  function RegionWords(entries: seq<Region>): seq<int> {
    if entries == [] then []
    else
      var e := entries[|entries| - 1];
      RegionWords(entries[..|entries| - 1]) + [e.start] + [e.end] + [e.flags]
  }

  predicate RegionFits(e: Region) {
    Word32(e.start) && Word32(e.end) && Word32(e.flags)
  }

  lemma {:induction false} PackedRegions(entries: seq<Region>)
    requires forall i :: 0 <= i < |entries| ==> RegionFits(entries[i])
    ensures PackRegions(entries).Ok? && AreWords(PackRegions(entries).value, RegionWords(entries))
  {
    if entries != [] {
      hide Pack32, AreWords;
      var k := |entries| - 1;
      var e := entries[k];
      PackedRegions(entries[..k]);
      WordBytes(e.start);
      WordBytes(e.end);
      WordBytes(e.flags);
      var p, words := PackRegions(entries[..k]).value, RegionWords(entries[..k]);
      var a, b, c := Pack32(e.start).value, Pack32(e.end).value, Pack32(e.flags).value;
      OneMoreWord(p, words, a, e.start);
      OneMoreWord(p + a, words + [e.start], b, e.end);
      OneMoreWord(p + a + b, words + [e.start] + [e.end], c, e.flags);
      assert p + a + b + c == p + (a + b + c);
    }
  }

  lemma ListBytes(m: Message)
    ensures m.SetMemoryMap? && (forall i :: 0 <= i < |m.entries| ==> RegionFits(m.entries[i])) ==>
              && Serialize(m).Ok?
              && var p := Serialize(m).value;
              && |p| >= 2 && p[0] == 0x13 && p[1] == |m.entries| % 0x100 && AreWords(p[2..], RegionWords(m.entries))
    ensures m.ReplyGetDirtyPages? && m.pages.Listed? && |m.pages.addresses| < 0x100
            && (forall i :: 0 <= i < |m.pages.addresses| ==> Word32(m.pages.addresses[i])) ==>
              && Serialize(m).Ok?
              && var p := Serialize(m).value;
              && |p| >= 2 && p[0] == 0x93 && p[1] == |m.pages.addresses| && AreWords(p[2..], m.pages.addresses)
  {
    hide AreWords, RegionWords;
    if m.SetMemoryMap? && (forall i :: 0 <= i < |m.entries| ==> RegionFits(m.entries[i])) {
      PackedRegions(m.entries);
      assert Serialize(m).value[2..] == PackRegions(m.entries).value;
    }
    if m.ReplyGetDirtyPages? && m.pages.Listed? && |m.pages.addresses| < 0x100
       && (forall i :: 0 <= i < |m.pages.addresses| ==> Word32(m.pages.addresses[i])) {
      PackedWords(m.pages.addresses);
      assert Serialize(m).value[2..] == PackWords(m.pages.addresses).value;
    }
  }

  // What the parser makes of bytes.

  lemma SlicedWord(data: seq<Byte>, i: nat)
    requires 1 <= i && i + 4 <= |data|
    ensures ToUint32(Slice(data[1..], i - 1, i + 3)) == Ok(LittleEndian(data[i..i + 4]))
  {
    hide LittleEndian, Unpack32;
    var d := data[i..i + 4];
    assert Slice(data[1..], i - 1, i + 3) == d && d[..4] == d && Slice(d, 0, 4) == d;
    FourBytes(d);
  }

  lemma SlicedOctet(data: seq<Byte>, i: nat, n: nat)
    requires 1 <= i < |data| && n >= 1
    ensures ToUint8(Slice(data[1..], i - 1, i - 1 + n)) == Ok(data[i])
  {
    assert Slice(data[1..], i - 1, i - 1 + n)[0] == data[i];
  }

  lemma SlicedHalf(data: seq<Byte>, i: nat)
    requires 1 <= i && i + 2 <= |data|
    ensures ToUint16(Slice(data[1..], i - 1, i + 1)) == Ok(LittleEndian(data[i..i + 2]))
  {
    hide LittleEndian;
    var d := data[i..i + 2];
    assert Slice(data[1..], i - 1, i + 1) == d && Slice(d, 0, 2) == d;
    TwoDigits(d);
  }

  /** Requests that begin with an address. */
  lemma ParsedAddressed(data: seq<Byte>)
    requires |data| >= 10
    ensures var a := LittleEndian(data[1..5]);
            && (data[0] == 0x01 ==> ParseMessage(data) == Ok(ReadMemory(a, data[5])))
            && (data[0] == 0x02 ==> ParseMessage(data) == Ok(WriteMemory(a, data[5], LittleEndian(data[6..10]))))
            && (data[0] == 0x05 ==> ParseMessage(data) == Ok(ReadUntypedMemory(a, data[5])))
            && (data[0] == 0x06 ==> ParseMessage(data) == Ok(WriteUntypedMemory(a, data[5], data[6..])))
            && (data[0] == 0x07 ==> ParseMessage(data) == Ok(CodeletExecute(a)))
            && (data[0] == 0x10 ==> ParseMessage(data) == Ok(InsertPage(a, if |data| <= 70 then data[6..] else data[6..70])))
            && (data[0] == 0x11 ==> ParseMessage(data) == Ok(ExtractPage(a)))
            && (data[0] == 0x12 ==> ParseMessage(data) == Ok(UnmapPage(a)))
            && (data[0] == 0xA4 ==> ParseMessage(data) == Ok(Pagefault(a)))
            && (data[0] == 0x91 ==> ParseMessage(data) == Ok(ReplyGetRegister(a)))
  {
    hide LittleEndian, ToUint32, ToUint8, Slice, PaddedValue, ExceptionConfig;
    SlicedWord(data, 1);
    SlicedWord(data, 6);
    SlicedOctet(data, 5, 1);
    SlicedRest(data);
  }

  lemma SlicedRest(data: seq<Byte>)
    requires |data| >= 10
    ensures data[1..][5..] == data[6..]
    ensures Slice(data[1..], 5, 69) == if |data| <= 70 then data[6..] else data[6..70]
    ensures Slice(data[1..], 0, 64) == if |data| <= 65 then data[1..] else data[1..65]
  {
  }

  /** Messages of one byte, of a byte and a word, of bytes, and of nothing. */
  lemma ParsedOthers(data: seq<Byte>)
    requires |data| >= 10
    ensures data[0] == 0x03 ==> ParseMessage(data) == Ok(GetRegister(data[1]))
    ensures data[0] == 0x04 ==> ParseMessage(data) == Ok(SetRegister(data[1], LittleEndian(data[2..6])))
    ensures data[0] == 0x21 ==> ParseMessage(data) == Ok(ClearException(data[1]))
    ensures data[0] == 0xA0 ==> ParseMessage(data) == Ok(InfoException(data[1]))
    ensures data[0] == 0x81 ==> ParseMessage(data) == Ok(State(data[1]))
    ensures data[0] == 0x82 ==> ParseMessage(data) == Ok(ReplyState(data[1]))
    ensures data[0] == 0xB2 ==> ParseMessage(data) == Ok(ReplyError(data[1]))
    ensures data[0] == 0x92 ==> ParseMessage(data) == Ok(ReplyExtractPage(if |data| <= 65 then data[1..] else data[1..65]))
    ensures data[0] == 0x94 ==> ParseMessage(data) == Ok(ReplyReadUntypedMemory(data[1..]))
  {
    hide LittleEndian, ToUint32, ToUint8, Slice, PaddedValue, ExceptionConfig;
    SlicedOctet(data, 1, 1);
    SlicedOctet(data, 1, 4);
    SlicedWord(data, 2);
    SlicedRest(data);
  }

  lemma ParsedEmpty(data: seq<Byte>)
    requires data != []
    ensures data[0] == 0x14 ==> ParseMessage(data) == Ok(GetDirtyPages)
    ensures data[0] == 0x40 ==> ParseMessage(data) == Ok(ResumeVm)
    ensures data[0] == 0x41 ==> ParseMessage(data) == Ok(QueryState)
    ensures data[0] == 0x42 ==> ParseMessage(data) == Ok(ContinueFromPagefault)
    ensures data[0] == 0xB1 ==> ParseMessage(data) == Ok(ReplyOk)
    ensures data[0] == 0x95 ==> ParseMessage(data) == Ok(ReplyCodeletExecutionFinished)
    ensures data[0] == 0x13 ==> ParseMessage(data) == Err(if |data| == 1 then OutOfData else TypeError)
  {
    hide Slice, ToUint32, ToUint8, PaddedValue, ExceptionConfig;
  }

  lemma SlicedVectors(data: seq<Byte>)
    requires |data| >= 9
    ensures |Slice(data[1..], 8, 40)| >= 4 <==> |data| >= 13
  {
  }

  /** The squelch counts of an exception configuration, as long as no vector follows. */
  lemma ParsedConfig(data: seq<Byte>)
    requires 9 <= |data| && data[0] == 0x20
    ensures ParseMessage(data) ==
              if |data| < 13 then
                Ok(SetExceptionConfig(LittleEndian(data[1..5]), LittleEndian(data[5..7]), LittleEndian(data[7..9]), []))
              else Err(TypeError)
  {
    hide LittleEndian, ToUint32, ToUint16, Slice;
    SlicedVectors(data);
    SlicedWord(data, 1);
    SlicedHalf(data, 5);
    SlicedHalf(data, 7);
  }

  /** Which opcode yields which kind of message. */
  lemma ParsedRequest(data: seq<Byte>)
    requires data != [] && ParseMessage(data).Ok?
    ensures var m := ParseMessage(data).value;
            && (m.ReadMemory? <==> data[0] == 0x01) && (m.WriteMemory? <==> data[0] == 0x02)
            && (m.GetRegister? <==> data[0] == 0x03) && (m.SetRegister? <==> data[0] == 0x04)
            && (m.ReadUntypedMemory? <==> data[0] == 0x05) && (m.WriteUntypedMemory? <==> data[0] == 0x06)
            && (m.CodeletExecute? <==> data[0] == 0x07) && (m.InsertPage? <==> data[0] == 0x10)
            && (m.ExtractPage? <==> data[0] == 0x11) && (m.UnmapPage? <==> data[0] == 0x12)
            && !m.SetMemoryMap? && data[0] != 0x13 && (m.GetDirtyPages? <==> data[0] == 0x14)
            && (m.SetExceptionConfig? <==> data[0] == 0x20) && (m.ClearException? <==> data[0] == 0x21)
            && (m.ResumeVm? <==> data[0] == 0x40) && (m.QueryState? <==> data[0] == 0x41)
            && (m.ContinueFromPagefault? <==> data[0] == 0x42)
  {
    hide ParseMessage;
    ParseOutcome(data);
    ParsedEmpty(data);
  }

  lemma ParsedReply(data: seq<Byte>)
    requires data != [] && ParseMessage(data).Ok?
    ensures var m := ParseMessage(data).value;
            && (m.State? <==> data[0] == 0x81) && (m.ReplyState? <==> data[0] == 0x82)
            && (m.ReplyReadMemory? <==> data[0] == 0x90) && (m.ReplyGetRegister? <==> data[0] == 0x91)
            && (m.ReplyExtractPage? <==> data[0] == 0x92) && (m.ReplyGetDirtyPages? <==> data[0] == 0x93)
            && (m.ReplyReadUntypedMemory? <==> data[0] == 0x94)
            && (m.ReplyCodeletExecutionFinished? <==> data[0] == 0x95)
            && (m.InfoException? <==> data[0] == 0xA0) && (m.Pagefault? <==> data[0] == 0xA4)
            && (m.ReplyOk? <==> data[0] == 0xB1) && (m.ReplyError? <==> data[0] == 0xB2)
  {
    hide ParseMessage;
    ParseOutcome(data);
  }
}
