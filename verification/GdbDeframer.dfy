/** The receiving thread of the GDB remote serial protocol: a byte machine with four states, fed
    with chunks of whatever size the socket returns, and the frames that the sender writes. */
module GdbDeframer {
  import opened Words

  const START_OF_MESSAGE_MARKER: Byte := 36
  const END_OF_MESSAGE_MARKER: Byte := 35

  datatype Phase = Idle | InMessage | InChecksum1 | InChecksum2

  /** The thread dies of a failed assertion or of a message that is not ASCII. */
  datatype Health = Running | AssertionError | UnicodeDecodeError

  /** `acks` holds what was sent back, `delivered` what the handler was called with. */
  datatype Machine = Machine(
    phase: Phase, message: seq<Byte>, receivedChecksum: Byte, acks: string, delivered: seq<seq<Byte>>, health: Health)

  predicate IsHex(b: Byte) {
    48 <= b < 58 || 65 <= b < 71 || 97 <= b < 103
  }

  function HexValue(b: Byte): (v: Byte)
    ensures v < 16
  {
    if 48 <= b < 58 then b - 48 else if 65 <= b < 71 then b - 55 else if 97 <= b < 103 then b - 87 else 0
  }

  function ByteSum(message: seq<Byte>): Byte {
    if message == [] then 0 else (ByteSum(message[..|message| - 1]) + message[|message| - 1]) % 0x100
  }

  /** The sum of the bytes, without a bound. */
  function Total(message: seq<Byte>): nat {
    if message == [] then 0 else message[0] + Total(message[1..])
  }

  lemma {:induction false} TotalAppend(a: seq<Byte>, b: seq<Byte>)
    ensures Total(a + b) == Total(a) + Total(b)
  {
    if a == [] {
      assert a + b == b;
    } else {
      assert (a + b)[1..] == a[1..] + b;
      TotalAppend(a[1..], b);
    }
  }

  lemma SumModulo(a: nat, b: nat)
    ensures (a % 0x100 + b) % 0x100 == (a + b) % 0x100
  {
  }

  /** The running sum modulo 256 is the sum of the bytes modulo 256. */
  lemma {:induction false} ByteSumIsTotal(message: seq<Byte>)
    ensures ByteSum(message) == Total(message) % 0x100
  {
    if message != [] {
      var init, last := message[..|message| - 1], message[|message| - 1];
      ByteSumIsTotal(init);
      TotalAppend(init, [last]);
      assert message == init + [last];
      assert Total([last]) == last;
      SumModulo(Total(init), last);
    }
  }

  predicate IsAscii(message: seq<Byte>) {
    forall i :: 0 <= i < |message| ==> message[i] < 128
  }

  function OrByte(a: Byte, b: Byte): Byte {
    assert Pow2(8) == 0x100;
    OrBound(a, b, 8);
    Or(a, b)
  }

  /** A complete frame: acknowledged before it is decoded. */
  function Finish(m: Machine, checksum: Byte): Machine {
    var idle := m.(phase := Idle, receivedChecksum := checksum);
    if ByteSum(m.message) != checksum then idle.(acks := m.acks + "-")
    else if IsAscii(m.message) then idle.(acks := m.acks + "+", delivered := m.delivered + [m.message])
    else idle.(acks := m.acks + "+", health := UnicodeDecodeError)
  }

  function Receive(m: Machine, b: Byte): Machine {
    if !m.health.Running? then m
    else if b == START_OF_MESSAGE_MARKER then m.(phase := InMessage, message := [])
    else match m.phase
      case InMessage =>
        if b == END_OF_MESSAGE_MARKER then m.(phase := InChecksum1) else m.(message := m.message + [b])
      case InChecksum1 =>
        if IsHex(b) then m.(phase := InChecksum2, receivedChecksum := 16 * HexValue(b)) else m.(health := AssertionError)
      case InChecksum2 =>
        if IsHex(b) then Finish(m, OrByte(m.receivedChecksum, HexValue(b))) else m.(health := AssertionError)
      case Idle => m
  }

  function Feed(m: Machine, input: seq<Byte>): Machine {
    if input == [] then m else Receive(Feed(m, input[..|input| - 1]), input[|input| - 1])
  }

  function Concat(chunks: seq<seq<Byte>>): seq<Byte> {
    if chunks == [] then [] else Concat(chunks[..|chunks| - 1]) + chunks[|chunks| - 1]
  }

  function Start(): Machine {
    Machine(Idle, [], 0, "", [], Running)
  }

  class GdbLowlevelProtocol {
    var phase: Phase
    var message: seq<Byte>
    var receivedChecksum: Byte
    var acks: string
    var delivered: seq<seq<Byte>>
    var health: Health

    ghost function State(): Machine
      reads this
    {
      Machine(phase, message, receivedChecksum, acks, delivered, health)
    }

    constructor ()
      ensures State() == Start()
    {
      phase, message, receivedChecksum, acks, delivered, health := Idle, [], 0, "", [], Running;
    }

    static method Reduce(message: seq<Byte>) returns (sum: Byte)
      ensures sum == ByteSum(message) == Total(message) % 0x100
    {
      sum := 0;
      var k := 0;
      while k < |message|
        invariant k <= |message| && sum == ByteSum(message[..k])
      {
        assert message[..k + 1][..k] == message[..k];
        sum := (sum + message[k]) % 0x100;
        k := k + 1;
      }
      assert message[..k] == message;
      ByteSumIsTotal(message);
    }

    method Complete()
      requires health.Running?
      modifies this
      ensures State() == Finish(old(State()).(phase := Idle), old(receivedChecksum))
    {
      phase := Idle;
      var calculatedChecksum := Reduce(message);
      if calculatedChecksum == receivedChecksum {
        acks := acks + "+";
        if IsAscii(message) {
          delivered := delivered + [message];
        } else {
          health := UnicodeDecodeError;
        }
      } else {
        acks := acks + "-";
      }
    }

    method NextByte(nextByte: Byte)
      requires health.Running?
      modifies this
      ensures State() == Receive(old(State()), nextByte)
    {
      if nextByte == START_OF_MESSAGE_MARKER {
        phase := InMessage;
        message := [];
      } else if phase == InMessage && nextByte == END_OF_MESSAGE_MARKER {
        phase := InChecksum1;
      } else if phase == InMessage {
        message := message + [nextByte];
      } else if phase == InChecksum1 {
        if !IsHex(nextByte) {
          health := AssertionError;
          return;
        }
        receivedChecksum := 16 * HexValue(nextByte);
        phase := InChecksum2;
      } else if phase == InChecksum2 {
        if !IsHex(nextByte) {
          health := AssertionError;
          return;
        }
        receivedChecksum := OrByte(receivedChecksum, HexValue(nextByte));
        Complete();
      }
    }

    /** The loop over whatever recv returns, and over the bytes of each chunk. The state after it
        depends only on the bytes, not on how they were split. */
    method Run(chunks: seq<seq<Byte>>)
      modifies this
      ensures State() == Feed(old(State()), Concat(chunks))
    {
      hide Receive;
      var i := 0;
      while i < |chunks|
        invariant i <= |chunks|
        invariant State() == Feed(old(State()), Concat(chunks[..i]))
      {
        RunChunk(chunks[i]);
        assert chunks[..i + 1][..i] == chunks[..i];
        FeedAppend(old(State()), Concat(chunks[..i]), chunks[i]);
        i := i + 1;
      }
      assert chunks[..i] == chunks;
    }

    method RunChunk(data: seq<Byte>)
      modifies this
      ensures State() == Feed(old(State()), data)
    {
      hide Receive;
      var k := 0;
      while k < |data|
        invariant k <= |data|
        invariant State() == Feed(old(State()), data[..k])
      {
        assert data[..k + 1][..k] == data[..k];
        if health.Running? {
          NextByte(data[k]);
        } else {
          DeadStays(State(), data[k]);
        }
        k := k + 1;
      }
      assert data[..k] == data;
    }
  }

  lemma DeadStays(m: Machine, b: Byte)
    requires !m.health.Running?
    ensures Receive(m, b) == m
  {
  }

  lemma {:induction false} FeedAppend(m: Machine, a: seq<Byte>, b: seq<Byte>)
    ensures Feed(m, a + b) == Feed(Feed(m, a), b)
  {
    hide Receive;
    if b == [] {
      assert a + b == a;
    } else {
      assert (a + b)[..|a + b| - 1] == a + b[..|b| - 1];
      FeedAppend(m, a, b[..|b| - 1]);
    }
  }

  lemma FeedOne(m: Machine, b: Byte)
    ensures Feed(m, [b]) == Receive(m, b)
  {
    assert [b][..0] == [];
    assert Feed(m, []) == m;
  }

  // The frames of the sender.

  function HexDigit(v: Byte): (b: Byte)
    requires v < 16
    ensures IsHex(b) && HexValue(b) == v
  {
    if v < 10 then 48 + v else 87 + v
  }

  function Frame(message: seq<Byte>): seq<Byte> {
    var checksum := ByteSum(message);
    [36] + message + [35, HexDigit(checksum / 16), HexDigit(checksum % 16)]
  }

  const HEX_DIGITS: string := "0123456789abcdef"

  const HEX_CHARACTERS: string := "0123456789abcdefABCDEF"

  /** The digits of both cases, and their values; the sender writes the lower case. */
  lemma HexDigits(b: Byte)
    ensures IsHex(b) <==> b as char in HEX_CHARACTERS
    ensures forall i :: 0 <= i < 16 ==> b as char == HEX_DIGITS[i] ==> HexValue(b) == i
    ensures forall i :: 16 <= i < 22 ==> b as char == HEX_CHARACTERS[i] ==> HexValue(b) == i - 6
  {
  }

  lemma HexDigitIs(v: Byte)
    requires v < 16
    ensures HexDigit(v) as char == HEX_DIGITS[v]
  {
  }

  /** The start marker, the message, the end marker, and the sum of its bytes modulo 256 in two
      hexadecimal digits. */
  method SendMessage(message: seq<Byte>) returns (encoded: seq<Byte>)
    ensures encoded == Frame(message)
    ensures var n, sum := |message|, Total(message) % 0x100;
            && |encoded| == n + 4 && encoded[0] as char == '$' && encoded[1..n + 1] == message
            && encoded[n + 1] as char == '#' && encoded[n + 2] as char == HEX_DIGITS[sum / 16]
            && encoded[n + 3] as char == HEX_DIGITS[sum % 16]
  {
    hide HexDigit;
    var checksum := GdbLowlevelProtocol.Reduce(message);
    encoded := [36] + message + [35, HexDigit(checksum / 16), HexDigit(checksum % 16)];
    HexDigitIs(checksum / 16);
    HexDigitIs(checksum % 16);
  }

  /** A message that can be framed: no markers, ASCII only. */
  predicate Plain(message: seq<Byte>) {
    forall i :: 0 <= i < |message| ==> message[i] < 128 && message[i] != 36 && message[i] != 35
  }

  predicate NoMarkers(message: seq<Byte>) {
    forall i :: 0 <= i < |message| ==> message[i] != 36 && message[i] != 35
  }

  lemma {:induction false} FeedPayload(m: Machine, payload: seq<Byte>)
    requires m.health.Running? && m.phase.InMessage? && NoMarkers(payload)
    ensures Feed(m, payload) == m.(message := m.message + payload)
  {
    if payload == [] {
      assert m.message + payload == m.message;
    } else {
      var init, last := payload[..|payload| - 1], payload[|payload| - 1];
      FeedPayload(m, init);
      assert m.message + payload == m.message + init + [last];
    }
  }

  lemma OrNibbles(high: Byte, low: Byte)
    requires high < 16 && low < 16
    ensures OrByte(16 * high, low) == 16 * high + low
  {
    assert Pow2(4) == 16;
    OrDisjoint(16 * high, low, 4);
  }

  /** Two digits after a message: what completes it. */
  lemma FeedDigits(m: Machine, h: Byte, l: Byte)
    requires m.health.Running? && m.phase.InChecksum1? && IsHex(h) && IsHex(l)
    ensures Feed(m, [h, l]) == Finish(m.(phase := InChecksum2, receivedChecksum := 16 * HexValue(h)), 16 * HexValue(h) + HexValue(l))
  {
    hide Finish, OrByte, HexValue, IsHex, Feed;
    assert [h, l] == [h] + [l];
    FeedAppend(m, [h], [l]);
    FeedOne(m, h);
    FeedOne(Receive(m, h), l);
    OrNibbles(HexValue(h), HexValue(l));
    HexNotMarker(h);
    HexNotMarker(l);
  }

  lemma HexNotMarker(b: Byte)
    requires IsHex(b)
    ensures b != 36 && b != 35
  {
  }

  lemma FeedOpened(m: Machine, message: seq<Byte>)
    requires m.health.Running? && NoMarkers(message)
    ensures Feed(m, [36] + message + [35]) == m.(phase := InChecksum1, message := message)
  {
    hide Feed, NoMarkers;
    var s0 := m.(phase := InMessage, message := []);
    FeedAppend(m, [36] + message, [35]);
    FeedAppend(m, [36], message);
    FeedOne(m, 36);
    FeedPayload(s0, message);
    assert [] + message == message;
    FeedOne(s0.(message := message), 35);
  }

  /** Whatever the machine has seen, as long as the thread lives, a frame with any two digits is
      completed, since the start marker begins a message in every state. */
  lemma FeedFrame(m: Machine, message: seq<Byte>, h: Byte, l: Byte)
    requires m.health.Running? && IsHex(h) && IsHex(l)
    requires forall i :: 0 <= i < |message| ==> message[i] != 36 && message[i] != 35
    ensures var r := Feed(m, [36] + message + [35, h, l]);
            && r.phase.Idle?
            && (Total(message) % 0x100 != 16 * HexValue(h) + HexValue(l) ==>
                  r.acks == m.acks + "-" && r.delivered == m.delivered && r.health.Running?)
            && (Total(message) % 0x100 == 16 * HexValue(h) + HexValue(l) ==>
                  r.acks == m.acks + "+"
                  && var ascii := forall i :: 0 <= i < |message| ==> message[i] < 128;
                  r.delivered == m.delivered + (if ascii then [message] else []) && (r.health.Running? <==> ascii))
  {
    ByteSumIsTotal(message);
    assert NoMarkers(message);
    hide ByteSum, Total, HexValue, IsHex, Feed, NoMarkers;
    assert [36] + message + [35, h, l] == [36] + message + [35] + [h, l];
    FeedAppend(m, [36] + message + [35], [h, l]);
    FeedOpened(m, message);
    FeedDigits(m.(phase := InChecksum1, message := message), h, l);
  }

  /** A framed message is delivered exactly once and acknowledged, after anything that has not
      killed the thread. */
  lemma FramedMessageDelivered(m: Machine, message: seq<Byte>)
    requires m.health.Running?
    requires forall i :: 0 <= i < |message| ==> message[i] < 128 && message[i] != 36 && message[i] != 35
    ensures var r := Feed(m, Frame(message));
            && r.delivered == m.delivered + [message] && r.acks == m.acks + "+"
            && r.health.Running? && r.phase.Idle?
  {
    hide ByteSum, Total, Feed;
    ByteSumIsTotal(message);
    var c := ByteSum(message);
    FeedFrame(m, message, HexDigit(c / 16), HexDigit(c % 16));
  }

  function Frames(messages: seq<seq<Byte>>): seq<Byte> {
    if messages == [] then [] else Frames(messages[..|messages| - 1]) + Frame(messages[|messages| - 1])
  }

  /** A machine that lives and has, since `m`, delivered and acknowledged these messages. */
  predicate HasDelivered(m: Machine, r: Machine, messages: seq<seq<Byte>>) {
    r.health.Running? && r.delivered == m.delivered + messages && r.acks == m.acks + seq(|messages|, _ => '+')
  }

  lemma OneMoreDelivered(m: Machine, r: Machine, earlier: seq<seq<Byte>>, message: seq<Byte>)
    requires HasDelivered(m, r, earlier) && Plain(message)
    ensures HasDelivered(m, Feed(r, Frame(message)), earlier + [message])
  {
    hide Frame, Feed;
    FramedMessageDelivered(r, message);
    assert m.delivered + earlier + [message] == m.delivered + (earlier + [message]);
    assert seq(|earlier + [message]|, _ => '+') == seq(|earlier|, _ => '+') + "+";
    assert m.acks + seq(|earlier|, _ => '+') + "+" == m.acks + (seq(|earlier|, _ => '+') + "+");
  }

  lemma NothingDelivered(m: Machine)
    requires m.health.Running?
    ensures HasDelivered(m, m, [])
  {
    assert m.delivered + [] == m.delivered && m.acks + seq(0, _ => '+') == m.acks;
  }

  lemma {:induction false} StreamDelivered(m: Machine, messages: seq<seq<Byte>>)
    requires m.health.Running? && forall i :: 0 <= i < |messages| ==> Plain(messages[i])
    ensures HasDelivered(m, Feed(m, Frames(messages)), messages)
  {
    hide Frame, Plain, HasDelivered, Receive;
    if messages == [] {
      NothingDelivered(m);
    } else {
      var k := |messages| - 1;
      StreamDelivered(m, messages[..k]);
      FeedAppend(m, Frames(messages[..k]), Frame(messages[k]));
      OneMoreDelivered(m, Feed(m, Frames(messages[..k])), messages[..k], messages[k]);
      assert messages[..k] + [messages[k]] == messages;
    }
  }

  // Nothing else is delivered.

  /** The message stands in the input as a frame with the right checksum, ending at `end`. */
  predicate FramedAt(input: seq<Byte>, message: seq<Byte>, end: nat) {
    var n := |message|;
    && n + 4 <= end <= |input| && NoMarkers(message)
    && input[end - n - 4..end - 2] == [36] + message + [35]
    && IsHex(input[end - 2]) && IsHex(input[end - 1])
    && 16 * HexValue(input[end - 2]) + HexValue(input[end - 1]) == Total(message) % 0x100
  }

  /** The last bytes of the input are the part of a frame that the phase stands for. */
  predicate Tracks(input: seq<Byte>, m: Machine) {
    var n := |m.message|;
    match m.phase
    case Idle => true
    case InMessage => NoMarkers(m.message) && n + 1 <= |input| && input[|input| - n - 1..] == [36] + m.message
    case InChecksum1 => NoMarkers(m.message) && n + 2 <= |input| && input[|input| - n - 2..] == [36] + m.message + [35]
    case InChecksum2 =>
      && NoMarkers(m.message) && n + 3 <= |input|
      && input[|input| - n - 3..|input| - 1] == [36] + m.message + [35]
      && IsHex(input[|input| - 1]) && m.receivedChecksum == 16 * HexValue(input[|input| - 1])
  }

  lemma TracksNext(input: seq<Byte>, m: Machine, b: Byte)
    requires m.health.Running? && Tracks(input, m) && Receive(m, b).health.Running?
    ensures Tracks(input + [b], Receive(m, b))
    ensures Receive(m, b).delivered != m.delivered ==>
              Receive(m, b).delivered == m.delivered + [m.message] && FramedAt(input + [b], m.message, |input| + 1)
  {
    hide ByteSum, Total, IsHex, HexValue, OrByte;
    ByteSumIsTotal(m.message);
    if m.phase.InChecksum2? && IsHex(b) {
      HexNotMarker(b);
      OrNibbles(HexValue(input[|input| - 1]), HexValue(b));
    }
  }

  lemma FramedLater(input: seq<Byte>, b: Byte, message: seq<Byte>, end: nat)
    requires FramedAt(input, message, end)
    ensures FramedAt(input + [b], message, end)
  {
    hide ByteSum, IsHex, HexValue, NoMarkers;
  }

  /** Where the delivered messages end in the input: one after the other, in the order in which
      the handler was called. */
  predicate Witnessed(input: seq<Byte>, delivered: seq<seq<Byte>>, ends: seq<nat>) {
    && |ends| == |delivered|
    && (forall i, j :: 0 <= i < j < |ends| ==> ends[i] < ends[j])
    && (forall k :: 0 <= k < |ends| ==> FramedAt(input, delivered[k], ends[k]))
  }

  lemma WitnessNext(input: seq<Byte>, b: Byte, m: Machine, ends: seq<nat>) returns (ends': seq<nat>)
    requires Witnessed(input, m.delivered, ends)
    requires m.health.Running? ==> Tracks(input, m)
    ensures Witnessed(input + [b], Receive(m, b).delivered, ends')
    ensures Receive(m, b).health.Running? ==> Tracks(input + [b], Receive(m, b))
  {
    hide FramedAt, Tracks, ByteSum;
    var r := Receive(m, b);
    forall k | 0 <= k < |ends|
      ensures FramedAt(input + [b], m.delivered[k], ends[k]) && ends[k] <= |input|
    {
      FramedLater(input, b, m.delivered[k], ends[k]);
      FramedWithin(input, m.delivered[k], ends[k]);
    }
    ends' := ends;
    if r.health.Running? {
      TracksNext(input, m, b);
      if r.delivered != m.delivered {
        ends' := ends + [|input| + 1];
      }
    }
  }

  lemma FramedWithin(input: seq<Byte>, message: seq<Byte>, end: nat)
    requires FramedAt(input, message, end)
    ensures end <= |input|
  {
  }

  /** Every delivered message stood in the input between its markers, followed by two hex digits
      that are its sum modulo 256; and the handler saw the messages in the order of the input. */
  lemma {:induction false} DeliveredWasFramed(input: seq<Byte>) returns (ends: seq<nat>)
    ensures Witnessed(input, Feed(Start(), input).delivered, ends)
    ensures Feed(Start(), input).health.Running? ==> Tracks(input, Feed(Start(), input))
  {
    if input == [] {
      ends := [];
    } else {
      hide Witnessed, Tracks, Receive;
      var k := |input| - 1;
      var before := DeliveredWasFramed(input[..k]);
      ends := WitnessNext(input[..k], input[k], Feed(Start(), input[..k]), before);
      assert input[..k] + [input[k]] == input;
    }
  }

  // What the bytes alone say of the state of a living thread.

  /** The input ends in a message between its markers; in a message, its markers and a first
      digit; or in a complete frame, whatever its sum. */
  predicate EndsOpened(input: seq<Byte>, message: seq<Byte>) {
    var n, e := |message|, |input|;
    NoMarkers(message) && n + 2 <= e && input[e - n - 2..] == [36] + message + [35]
  }

  predicate EndsDigit(input: seq<Byte>, message: seq<Byte>) {
    input != [] && EndsOpened(input[..|input| - 1], message) && IsHex(input[|input| - 1])
  }

  predicate EndsFrame(input: seq<Byte>, message: seq<Byte>) {
    input != [] && EndsDigit(input[..|input| - 1], message) && IsHex(input[|input| - 1])
  }

  predicate RightSum(input: seq<Byte>, message: seq<Byte>)
    requires |input| >= 2
  {
    16 * HexValue(input[|input| - 2]) + HexValue(input[|input| - 1]) == Total(message) % 0x100
  }

  lemma AliveBefore(m: Machine, a: seq<Byte>, b: seq<Byte>)
    requires Feed(m, a + b).health.Running?
    ensures Feed(m, a).health.Running?
  {
    FeedAppend(m, a, b);
    if !Feed(m, a).health.Running? {
      StaysDead(Feed(m, a), b);
    }
  }

  lemma {:induction false} StaysDead(m: Machine, b: seq<Byte>)
    requires !m.health.Running?
    ensures Feed(m, b) == m
  {
    if b != [] {
      StaysDead(m, b[..|b| - 1]);
    }
  }

  lemma OpenedMeans(input: seq<Byte>, message: seq<Byte>)
    requires Feed(Start(), input).health.Running?
    ensures EndsOpened(input, message) <==>
            Feed(Start(), input).phase.InChecksum1? && Feed(Start(), input).message == message
  {
    hide Feed, NoMarkers, Receive;
    if EndsOpened(input, message) {
      var p := input[..|input| - |message| - 2];
      assert input == p + ([36] + message + [35]);
      AliveBefore(Start(), p, [36] + message + [35]);
      FeedAppend(Start(), p, [36] + message + [35]);
      FeedOpened(Feed(Start(), p), message);
    }
    var _ := DeliveredWasFramed(input);
  }

  lemma DigitStep(m: Machine, b: Byte)
    requires Receive(m, b).health.Running?
    ensures Receive(m, b).phase.InChecksum2? <==> m.phase.InChecksum1? && IsHex(b)
    ensures Receive(m, b).phase.InChecksum2? ==>
              Receive(m, b).message == m.message && Receive(m, b).receivedChecksum == 16 * HexValue(b)
  {
    hide HexValue, ByteSum, OrByte, IsAscii;
  }

  lemma DigitMeans(input: seq<Byte>, message: seq<Byte>)
    requires Feed(Start(), input).health.Running?
    ensures EndsDigit(input, message) <==>
            Feed(Start(), input).phase.InChecksum2? && Feed(Start(), input).message == message
    ensures EndsDigit(input, message) ==>
            Feed(Start(), input).receivedChecksum == 16 * HexValue(input[|input| - 1])
  {
    hide EndsOpened, IsHex, HexValue, Receive;
    if input != [] {
      var k := |input| - 1;
      assert input == input[..k] + [input[k]];
      AliveBefore(Start(), input[..k], [input[k]]);
      OpenedMeans(input[..k], message);
      DigitStep(Feed(Start(), input[..k]), input[k]);
    }
  }

  lemma FrameMeans(input: seq<Byte>, message: seq<Byte>)
    requires input != [] && Feed(Start(), input[..|input| - 1]).health.Running?
    ensures var m, b := Feed(Start(), input[..|input| - 1]), input[|input| - 1];
            (EndsFrame(input, message) <==> Completes(m, b) && m.message == message)
            && (EndsFrame(input, message) ==> |input| >= 2 && (RightSum(input, message) <==> SumMatches(m, b)))
  {
    hide EndsOpened, IsHex, HexValue, ByteSum, Total, Feed, OrByte;
    ByteSumIsTotal(message);
    var k := |input| - 1;
    DigitMeans(input[..k], message);
    if EndsFrame(input, message) {
      OrNibbles(HexValue(input[k - 1]), HexValue(input[k]));
    }
  }

  predicate Completes(m: Machine, b: Byte) {
    m.phase.InChecksum2? && IsHex(b)
  }

  predicate SumMatches(m: Machine, b: Byte) {
    ByteSum(m.message) == OrByte(m.receivedChecksum, HexValue(b))
  }

  /** The thread dies exactly when a byte other than a start marker arrives in a checksum and is
      no hex digit, or completes a frame whose checksum is right but which is not ASCII. */
  lemma DiesWhen(m: Machine, b: Byte)
    requires m.health.Running?
    ensures Receive(m, b).health.AssertionError? <==>
              b != 36 && (m.phase.InChecksum1? || m.phase.InChecksum2?) && !IsHex(b)
    ensures Receive(m, b).health.UnicodeDecodeError? <==>
              b != 36 && m.phase.InChecksum2? && IsHex(b) && !IsAscii(m.message)
              && ByteSum(m.message) == OrByte(m.receivedChecksum, HexValue(b))
    ensures Receive(m, b).health.UnicodeDecodeError? ==>
              Receive(m, b).acks == m.acks + "+" && Receive(m, b).delivered == m.delivered
  {
    hide ByteSum, OrByte, HexValue, IsHex;
  }

  lemma StepOutcome(m: Machine, b: Byte)
    requires m.health.Running?
    ensures Receive(m, b).acks == m.acks + if Completes(m, b) then if SumMatches(m, b) then "+" else "-" else ""
    ensures !Receive(m, b).health.Running? <==>
            (b != 36 && !IsHex(b) && (m.phase.InChecksum1? || m.phase.InChecksum2?))
            || (Completes(m, b) && SumMatches(m, b) && !IsAscii(m.message))
  {
    hide ByteSum, OrByte, HexValue, IsHex, IsAscii;
    DiesWhen(m, b);
    if IsHex(b) {
      HexNotMarker(b);
    }
  }

  /** The last byte kills the thread: no hex digit where one is due, or the last digit of a right
      frame that is not ASCII. */
  predicate FatalAfter(input: seq<Byte>, message: seq<Byte>)
    requires input != []
  {
    var b, before := input[|input| - 1], input[..|input| - 1];
    || (b != 36 && !IsHex(b) && (EndsOpened(before, message) || EndsDigit(before, message)))
    || (EndsFrame(input, message) && |input| >= 2 && RightSum(input, message) && !IsAscii(message))
  }

  ghost predicate Fatal(input: seq<Byte>) {
    input != [] && exists message :: FatalAfter(input, message)
  }

  lemma FatalAfterMeans(input: seq<Byte>, message: seq<Byte>)
    requires input != [] && Feed(Start(), input[..|input| - 1]).health.Running?
    ensures FatalAfter(input, message) <==>
            !Feed(Start(), input).health.Running? && Feed(Start(), input[..|input| - 1]).message == message
  {
    hide EndsOpened, EndsDigit, EndsFrame, RightSum, IsHex, Completes, SumMatches, IsAscii, Receive;
    var k := |input| - 1;
    OpenedMeans(input[..k], message);
    DigitMeans(input[..k], message);
    FrameMeans(input, message);
    StepOutcome(Feed(Start(), input[..k]), input[k]);
  }

  lemma FatalMeans(input: seq<Byte>)
    requires input != [] && Feed(Start(), input[..|input| - 1]).health.Running?
    ensures Feed(Start(), input).health.Running? <==> !Fatal(input)
  {
    hide FatalAfter, Feed;
    FatalAfterMeans(input, Feed(Start(), input[..|input| - 1]).message);
    forall message | FatalAfter(input, message)
      ensures !Feed(Start(), input).health.Running?
    {
      FatalAfterMeans(input, message);
    }
  }

  /** The thread survives exactly the inputs of which no beginning is fatal. */
  lemma {:induction false} SurvivesWhen(input: seq<Byte>)
    ensures Feed(Start(), input).health.Running? <==> forall k :: 0 <= k <= |input| ==> !Fatal(input[..k])
  {
    if input != [] {
      hide Fatal, Receive;
      var init := input[..|input| - 1];
      SurvivesWhen(init);
      forall k | 0 <= k <= |init|
        ensures Fatal(init[..k]) == Fatal(input[..k])
      {
        assert init[..k] == input[..k];
      }
      assert input[..|input|] == input;
      if Feed(Start(), init).health.Running? {
        FatalMeans(input);
      } else {
        DeadStays(Feed(Start(), init), input[|input| - 1]);
      }
    }
  }

  // Acknowledgements.

  /** What the last byte of the input is answered with, and the whole input. */
  ghost function Answer(input: seq<Byte>): string {
    if exists message :: EndsFrame(input, message) && |input| >= 2 && RightSum(input, message) then "+"
    else if exists message :: EndsFrame(input, message) then "-"
    else ""
  }

  ghost function Answers(input: seq<Byte>): string {
    if input == [] then "" else Answers(input[..|input| - 1]) + Answer(input)
  }

  lemma AnswerMeans(input: seq<Byte>)
    requires input != [] && Feed(Start(), input[..|input| - 1]).health.Running?
    ensures Feed(Start(), input).acks == Feed(Start(), input[..|input| - 1]).acks + Answer(input)
  {
    hide EndsFrame, RightSum, Completes, SumMatches, IsHex, IsAscii, Receive;
    var m := Feed(Start(), input[..|input| - 1]);
    StepOutcome(m, input[|input| - 1]);
    FrameMeans(input, m.message);
    forall message | EndsFrame(input, message)
      ensures message == m.message
    {
      FrameMeans(input, message);
    }
  }

  /** Every complete frame is answered once and at once, with '+' if its sum is right and with '-'
      if it is not, and nothing else is answered, up to and including the byte that kills the thread. */
  lemma {:induction false} AnsweredExactly(input: seq<Byte>)
    requires input != [] ==> Feed(Start(), input[..|input| - 1]).health.Running?
    ensures Feed(Start(), input).acks == Answers(input)
  {
    if input != [] {
      hide Answer, Receive;
      var init := input[..|input| - 1];
      if init != [] {
        assert init == init[..|init| - 1] + [init[|init| - 1]];
        AliveBefore(Start(), init[..|init| - 1], [init[|init| - 1]]);
      }
      AnsweredExactly(init);
      AnswerMeans(input);
    }
  }

  /** Positive answers and deliveries correspond one to one, but for the message that kills the
      thread. */
  lemma {:induction false} AcksMatch(m: Machine, input: seq<Byte>)
    requires m.health.Running?
    ensures var r := Feed(m, input);
            && m.acks <= r.acks && m.delivered <= r.delivered
            && Plus(r.acks) - Plus(m.acks)
                 == |r.delivered| - |m.delivered| + (if r.health.UnicodeDecodeError? then 1 else 0)
  {
    if input != [] {
      hide ByteSum, OrByte, HexValue, IsHex, IsAscii;
      var k := |input| - 1;
      AcksMatch(m, input[..k]);
      var s := Feed(m, input[..k]);
      PlusAppend(s.acks, '+');
      PlusAppend(s.acks, '-');
    }
  }

  function Plus(acks: string): nat {
    if acks == "" then 0 else Plus(acks[..|acks| - 1]) + if acks[|acks| - 1] == '+' then 1 else 0
  }

  lemma PlusAppend(acks: string, c: char)
    ensures Plus(acks + [c]) == Plus(acks) + if c == '+' then 1 else 0
  {
    assert (acks + [c])[..|acks|] == acks;
  }
}
