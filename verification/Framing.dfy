/** The byte-stuffed frames of the stub link: the sender's replacements, the receiver's byte
    loop, and what survives of a stream of frames. */
module Framing {
  import opened Words
  import opened Checksum

  const END_MARKER: Byte := 0x55
  const ESCAPE: Byte := 0xAA

  /** bytes.replace with a one-byte pattern. */
  function Replace(s: seq<Byte>, pattern: Byte, with: seq<Byte>): seq<Byte> {
    if s == [] then []
    else Replace(s[..|s| - 1], pattern, with) + if s[|s| - 1] == pattern then with else [s[|s| - 1]]
  }

  function Escape(s: seq<Byte>): seq<Byte> {
    Replace(Replace(s, 0xAA, [0xAA, 0x02]), 0x55, [0xAA, 0x01])
  }

  /** What send_message writes for a serialized message. */
  function Wire(payload: seq<Byte>): seq<Byte> {
    Escape(payload) + Escape([ChecksumOf(payload)]) + [END_MARKER]
  }

  method SendMessage(serialized: seq<Byte>) returns (raw: seq<Byte>)
    ensures raw == Wire(serialized)
  {
    hide Escape;
    var checksum := new Crc8(ToBits(serialized));
    var crc := checksum.GetCrc();
    raw := Escape(serialized) + Escape([OfBits(crc)]) + [0x55];
  }

  // The two replacements in sequence are one substitution per byte.

  function EscapeByte(b: Byte): (r: seq<Byte>)
    ensures 1 <= |r| <= 2
  {
    if b == 0xAA then [0xAA, 0x02] else if b == 0x55 then [0xAA, 0x01] else [b]
  }

  function EscapeBytes(s: seq<Byte>): seq<Byte> {
    if s == [] then [] else EscapeBytes(s[..|s| - 1]) + EscapeByte(s[|s| - 1])
  }

  lemma {:induction false} ReplaceAppend(a: seq<Byte>, b: seq<Byte>, pattern: Byte, with: seq<Byte>)
    ensures Replace(a + b, pattern, with) == Replace(a, pattern, with) + Replace(b, pattern, with)
  {
    if b == [] {
      assert a + b == a;
    } else {
      assert (a + b)[..|a + b| - 1] == a + b[..|b| - 1];
      ReplaceAppend(a, b[..|b| - 1], pattern, with);
    }
  }

  lemma ReplaceOne(x: Byte, pattern: Byte, with: seq<Byte>)
    ensures Replace([x], pattern, with) == if x == pattern then with else [x]
  {
    assert [x][..0] == [];
    assert Replace([], pattern, with) == [];
  }

  lemma EscapeOne(x: Byte)
    ensures Replace(if x == 0xAA then [0xAA, 0x02] else [x], 0x55, [0xAA, 0x01]) == EscapeByte(x)
  {
    hide Replace;
    if x == 0xAA {
      assert EscapeByte(x) == [0xAA] + [0x02];
      ReplaceAppend([0xAA], [0x02], 0x55, [0xAA, 0x01]);
      ReplaceOne(0xAA, 0x55, [0xAA, 0x01]);
      ReplaceOne(0x02, 0x55, [0xAA, 0x01]);
    } else {
      ReplaceOne(x, 0x55, [0xAA, 0x01]);
    }
  }

  lemma {:induction false} EscapeIsPerByte(s: seq<Byte>)
    ensures Escape(s) == EscapeBytes(s)
  {
    if s != [] {
      hide EscapeByte;
      var init, x := s[..|s| - 1], s[|s| - 1];
      EscapeIsPerByte(init);
      ReplaceAppend(Replace(init, 0xAA, [0xAA, 0x02]), if x == 0xAA then [0xAA, 0x02] else [x], 0x55, [0xAA, 0x01]);
      EscapeOne(x);
    }
  }

  lemma {:induction false} EscapeAppend(a: seq<Byte>, b: seq<Byte>)
    ensures EscapeBytes(a + b) == EscapeBytes(a) + EscapeBytes(b)
  {
    hide EscapeByte;
    if b == [] {
      assert a + b == a;
    } else {
      assert (a + b)[..|a + b| - 1] == a + b[..|b| - 1];
      EscapeAppend(a, b[..|b| - 1]);
    }
  }

  /** The substitution, byte by byte: 55 and AA become AA 01 and AA 02, and nothing else changes. */
  lemma EscapeTable(b: Byte)
    ensures EscapeBytes([0x55]) == [0xAA, 0x01] && EscapeBytes([0xAA]) == [0xAA, 0x02]
    ensures b != 0x55 && b != 0xAA ==> EscapeBytes([b]) == [b]
  {
    assert [0x55][..0] == [] && [0xAA][..0] == [] && [b][..0] == [];
    assert EscapeBytes([]) == [];
  }

  lemma {:induction false} NoMarkerEscaped(s: seq<Byte>)
    ensures END_MARKER !in EscapeBytes(s)
  {
    if s != [] {
      NoMarkerEscaped(s[..|s| - 1]);
    }
  }

  /** The end marker is the last byte of a frame and occurs nowhere else in it. */
  lemma MarkerOnlyAtEnd(payload: seq<Byte>, i: nat)
    requires i < |Wire(payload)|
    ensures Wire(payload)[i] == END_MARKER <==> i == |Wire(payload)| - 1
  {
    hide Escape, EscapeBytes, ChecksumOf;
    EscapeIsPerByte(payload);
    EscapeIsPerByte([ChecksumOf(payload)]);
    NoMarkerEscaped(payload);
    NoMarkerEscaped([ChecksumOf(payload)]);
  }

  // The receiving thread.

  /** `escaping` while the thread waits for the byte after an escape byte. `accepted` are the
      bodies that passed the checksum, in order. */
  datatype Rx = Rx(buffer: seq<Byte>, escaping: bool, accepted: seq<seq<Byte>>)

  function Fresh(accepted: seq<seq<Byte>>): Rx {
    Rx([], false, accepted)
  }

  /** An unknown escape sequence stands for the escape byte; its second byte is lost. */
  function Unescape(b: Byte): Byte {
    if b == 0x01 then 0x55 else 0xAA
  }

  function Deliver(accepted: seq<seq<Byte>>, body: seq<Byte>): seq<seq<Byte>> {
    if Accepted(body) then accepted + [body] else accepted
  }

  function Receive(s: Rx, b: Byte): Rx {
    if s.escaping then Rx(s.buffer + [Unescape(b)], false, s.accepted)
    else if b == END_MARKER then Fresh(Deliver(s.accepted, s.buffer))
    else if b == ESCAPE then s.(escaping := true)
    else s.(buffer := s.buffer + [b])
  }

  function Feed(s: Rx, input: seq<Byte>): Rx {
    if input == [] then s else Receive(Feed(s, input[..|input| - 1]), input[|input| - 1])
  }

  class Receiver {
    var inputBuffer: seq<Byte>
    var escaping: bool
    var accepted: seq<seq<Byte>>

    ghost function State(): Rx
      reads this
    {
      Rx(inputBuffer, escaping, accepted)
    }

    constructor ()
      ensures State() == Fresh([])
    {
      inputBuffer := [];
      escaping := false;
      accepted := [];
    }

    /** Drops an empty body and one whose last byte is not the checksum of the rest. */
    method ParseMessage(data: seq<Byte>)
      modifies this`accepted
      ensures accepted == Deliver(old(accepted), data)
      ensures accepted == old(accepted) +
                if data != [] && data[|data| - 1] == ChecksumOf(data[..|data| - 1]) then [data] else []
    {
      if data == [] {
        return;
      }
      var messageCrc := data[|data| - 1];
      var checksum := new Crc8(ToBits(data[..|data| - 1]));
      var calculatedCrc := checksum.GetCrc();
      if messageCrc != OfBits(calculatedCrc) {
        return;
      }
      accepted := accepted + [data];
    }

    /** The loop of the receiving thread over the bytes that arrive. */
    method Run(input: seq<Byte>)
      modifies this
      ensures State() == Feed(old(State()), input)
    {
      hide Deliver;
      var k := 0;
      while k < |input|
        invariant k <= |input| && State() == Feed(old(State()), input[..k])
      {
        assert input[..k + 1][..k] == input[..k];
        var nextByte := input[k];
        k := k + 1;
        if escaping {
          escaping := false;
          if nextByte == 0x01 {
            inputBuffer := inputBuffer + [0x55];
          } else if nextByte == 0x02 {
            inputBuffer := inputBuffer + [0xAA];
          } else {
            inputBuffer := inputBuffer + [0xAA];
          }
        } else if nextByte == 0x55 {
          ParseMessage(inputBuffer);
          inputBuffer := [];
        } else if nextByte == 0xAA {
          escaping := true;
        } else {
          inputBuffer := inputBuffer + [nextByte];
        }
      }
      assert input[..k] == input;
    }
  }

  // Streams.

  lemma {:induction false} FeedAppend(s: Rx, a: seq<Byte>, b: seq<Byte>)
    ensures Feed(s, a + b) == Feed(Feed(s, a), b)
  {
    hide Receive;
    if b == [] {
      assert a + b == a;
    } else {
      assert (a + b)[..|a + b| - 1] == a + b[..|b| - 1];
      FeedAppend(s, a, b[..|b| - 1]);
    }
  }

  lemma FeedOne(s: Rx, b: Byte)
    ensures Feed(s, [b]) == Receive(s, b)
  {
    assert [b][..0] == [];
    assert Feed(s, []) == s;
  }

  /** The receiver's side: AA 01 stands for 55, and AA before anything else for AA. */
  lemma FeedPair(s: Rx, a: Byte, b: Byte)
    requires !s.escaping && a == 0xAA
    ensures Feed(s, [a, b]) == s.(buffer := s.buffer + [if b == 0x01 then 0x55 else 0xAA])
  {
    hide Feed;
    assert [a, b] == [a] + [b];
    FeedAppend(s, [a], [b]);
    FeedOne(s, a);
    FeedOne(Receive(s, a), b);
  }

  lemma FeedEscapedByte(s: Rx, b: Byte)
    requires !s.escaping
    ensures Feed(s, EscapeByte(b)) == s.(buffer := s.buffer + [b])
  {
    hide Feed;
    if b == 0xAA || b == 0x55 {
      var second := if b == 0xAA then 0x02 else 0x01;
      assert EscapeByte(b) == [0xAA] + [second];
      FeedAppend(s, [0xAA], [second]);
      FeedOne(s, 0xAA);
      FeedOne(Receive(s, 0xAA), second);
    } else {
      FeedOne(s, b);
    }
  }

  lemma FeedNext(s: Rx, a: seq<Byte>, b: seq<Byte>, buffer: seq<Byte>, x: Byte)
    requires Feed(s, a) == s.(buffer := s.buffer + buffer)
    requires Feed(s.(buffer := s.buffer + buffer), b) == s.(buffer := s.buffer + buffer + [x])
    ensures Feed(s, a + b) == s.(buffer := s.buffer + (buffer + [x]))
  {
    hide Feed;
    FeedAppend(s, a, b);
    assert s.buffer + buffer + [x] == s.buffer + (buffer + [x]);
  }

  lemma {:induction false} FeedEscaped(s: Rx, p: seq<Byte>)
    requires !s.escaping
    ensures Feed(s, EscapeBytes(p)) == s.(buffer := s.buffer + p)
  {
    hide EscapeByte, Receive;
    if p == [] {
      assert s.buffer + p == s.buffer;
    } else {
      hide Feed;
      var init, b := p[..|p| - 1], p[|p| - 1];
      FeedEscaped(s, init);
      FeedEscapedByte(s.(buffer := s.buffer + init), b);
      FeedNext(s, EscapeBytes(init), EscapeByte(b), init, b);
      assert init + [b] == p;
    }
  }

  /** The body that a frame carries: the payload and its checksum. */
  function Body(payload: seq<Byte>): seq<Byte> {
    payload + [ChecksumOf(payload)]
  }

  lemma BodyAccepted(payload: seq<Byte>)
    ensures Accepted(Body(payload))
  {
    hide ChecksumOf;
    assert Body(payload)[..|payload|] == payload;
  }

  lemma FrameRoundTrip(accepted: seq<seq<Byte>>, payload: seq<Byte>)
    ensures Feed(Fresh(accepted), Wire(payload)) == Fresh(accepted + [Body(payload)])
  {
    hide Escape, EscapeBytes, ChecksumOf, Feed, Accepted;
    var crc := ChecksumOf(payload);
    EscapeIsPerByte(payload);
    EscapeIsPerByte([crc]);
    var s := Fresh(accepted);
    FeedAppend(s, EscapeBytes(payload) + EscapeBytes([crc]), [END_MARKER]);
    FeedAppend(s, EscapeBytes(payload), EscapeBytes([crc]));
    FeedEscaped(s, payload);
    assert [] + payload == payload;
    FeedEscaped(s.(buffer := payload), [crc]);
    FeedOne(s.(buffer := Body(payload)), END_MARKER);
    BodyAccepted(payload);
  }

  function Stream(payloads: seq<seq<Byte>>): seq<Byte> {
    if payloads == [] then [] else Stream(payloads[..|payloads| - 1]) + Wire(payloads[|payloads| - 1])
  }

  function Bodies(payloads: seq<seq<Byte>>): (r: seq<seq<Byte>>)
    ensures |r| == |payloads|
  {
    seq(|payloads|, i requires 0 <= i < |payloads| => Body(payloads[i]))
  }

  lemma BodiesAppend(payloads: seq<seq<Byte>>)
    requires payloads != []
    ensures Bodies(payloads) == Bodies(payloads[..|payloads| - 1]) + [Body(payloads[|payloads| - 1])]
  {
  }

  lemma OneMoreFrame(accepted: seq<seq<Byte>>, input: seq<Byte>, earlier: seq<seq<Byte>>, payload: seq<Byte>)
    requires Feed(Fresh(accepted), input) == Fresh(accepted + earlier)
    ensures Feed(Fresh(accepted), input + Wire(payload)) == Fresh(accepted + (earlier + [Body(payload)]))
  {
    hide Wire, Body, Feed;
    FeedAppend(Fresh(accepted), input, Wire(payload));
    FrameRoundTrip(accepted + earlier, payload);
    assert accepted + earlier + [Body(payload)] == accepted + (earlier + [Body(payload)]);
  }

  /** Any sequence of payloads arrives as it was sent: each one once, whole and in order. */
  lemma {:induction false} StreamRoundTrip(accepted: seq<seq<Byte>>, payloads: seq<seq<Byte>>)
    ensures Feed(Fresh(accepted), Stream(payloads)) == Fresh(accepted + Bodies(payloads))
  {
    hide Wire, Body, Receive;
    if payloads == [] {
      assert Bodies(payloads) == [] && accepted + [] == accepted;
    } else {
      hide Feed;
      var k := |payloads| - 1;
      StreamRoundTrip(accepted, payloads[..k]);
      OneMoreFrame(accepted, Stream(payloads[..k]), Bodies(payloads[..k]), payloads[k]);
      BodiesAppend(payloads);
    }
  }

  // Resynchronisation.

  /** The length of the run of escape bytes at the end. */
  function TrailingEscapes(s: seq<Byte>): nat {
    if s == [] || s[|s| - 1] != ESCAPE then 0 else 1 + TrailingEscapes(s[..|s| - 1])
  }

  lemma {:induction false} EscapingIsOddRun(accepted: seq<seq<Byte>>, noise: seq<Byte>)
    ensures Feed(Fresh(accepted), noise).escaping <==> TrailingEscapes(noise) % 2 == 1
  {
    if noise != [] {
      EscapingIsOddRun(accepted, noise[..|noise| - 1]);
    }
  }

  /** After any bytes at all, an end marker brings the receiver back to its initial state
      exactly when an even number of escape bytes stands before it. */
  lemma MarkerResets(noise: seq<Byte>)
    ensures (exists accepted :: Feed(Fresh([]), noise + [END_MARKER]) == Fresh(accepted))
              <==> TrailingEscapes(noise) % 2 == 0
  {
    hide Feed, TrailingEscapes, Deliver;
    var s := Feed(Fresh([]), noise);
    EscapingIsOddRun([], noise);
    FeedAppend(Fresh([]), noise, [END_MARKER]);
    FeedOne(s, END_MARKER);
    if !s.escaping {
      assert Feed(Fresh([]), noise + [END_MARKER]) == Fresh(Deliver(s.accepted, s.buffer));
    }
  }

  lemma Resynchronised(noise: seq<Byte>, payloads: seq<seq<Byte>>)
    requires TrailingEscapes(noise) % 2 == 0
    ensures var s := Feed(Fresh([]), noise);
            Feed(Fresh([]), noise + [END_MARKER] + Stream(payloads))
              == Fresh(Deliver(s.accepted, s.buffer) + Bodies(payloads))
  {
    hide Stream, Deliver, Bodies, Feed, TrailingEscapes;
    var s := Feed(Fresh([]), noise);
    EscapingIsOddRun([], noise);
    FeedAppend(Fresh([]), noise + [END_MARKER], Stream(payloads));
    FeedAppend(Fresh([]), noise, [END_MARKER]);
    FeedOne(s, END_MARKER);
    StreamRoundTrip(Deliver(s.accepted, s.buffer), payloads);
  }

  /** Two end markers in a row bring it back from every state. */
  lemma TwoMarkersReset(s: Rx)
    ensures var r := Feed(s, [END_MARKER, END_MARKER]);
            r == Fresh(r.accepted)
  {
    assert [END_MARKER, END_MARKER] == [END_MARKER] + [END_MARKER];
    FeedAppend(s, [END_MARKER], [END_MARKER]);
    FeedOne(s, END_MARKER);
    FeedOne(Receive(s, END_MARKER), END_MARKER);
  }

  /** A body that was changed within 8 consecutive bits before it was escaped leaves no trace:
      nothing is accepted for it and the next frames are unharmed. */
  lemma DamagedBodyDropped(accepted: seq<seq<Byte>>, payload: seq<Byte>, d: seq<bv8>, start: nat)
    requires |d| == |payload| + 1 && Burst(d, start)
    ensures Feed(Fresh(accepted), EscapeBytes(Damage(Body(payload), d)) + [END_MARKER]) == Fresh(accepted)
  {
    hide EscapeBytes, ChecksumOf, Feed, Accepted, Burst;
    var damaged := Damage(Body(payload), d);
    FeedAppend(Fresh(accepted), EscapeBytes(damaged), [END_MARKER]);
    FeedEscaped(Fresh(accepted), damaged);
    assert [] + damaged == damaged;
    FeedOne(Rx(damaged, false, accepted), END_MARKER);
    BurstRejected(payload, d, start);
  }
}
