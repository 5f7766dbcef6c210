/** MoldUDP64 downstream packets: building them and taking them apart again. */
module MoldUdp {
  import opened Wrappers
  import opened Bytes
  import opened BinaryFile

  const SESSION_LENGTH: nat := 10
  const HEADER_LENGTH: nat := 20
  const EOS_COUNT: nat := 0xFFFF

  datatype NetworkError =
    | TruncatedFrame
    | InvalidHeaderLength
    | TruncatedIpHeader
    | InvalidTotalLength
    | FrameExceedsStream
    | NotIpv4EtherType
    | NotIpv4
    | NotUdp
    | InvalidUdpLength
    | TruncatedUdpPayload
    | TruncatedMoldHeader
    | TruncatedMessageLength
    | TruncatedMessagePayload
    | TrailingBytes
    | DoesNotFit            // a value is too large for its header field
    | BadOption

  /** What a generator yields before it stops, and the error it stops with, if any. */
  datatype Output<T> = Output(items: seq<T>, error: Option<NetworkError>)

  /** A recovered message: its frame, the frame's sequence number and its place in the frame. */
  datatype Recovered = Recovered(frameIndex: nat, seqNumber: nat, messageNumber: nat, payload: ByteString)

  function MoldHeader(session: ByteString, seqNumber: nat, count: nat): ByteString
    requires |session| == SESSION_LENGTH && Fits(seqNumber, 8) && Fits(count, 2)
  {
    session + Uint(seqNumber, 8) + Uint(count, 2)
  }

  /** A packet: its header and its length-prefixed messages; heartbeats and end-of-session carry none. */
  function MoldPayload(session: ByteString, seqNumber: nat, count: nat, messages: seq<ByteString>): ByteString
    requires |session| == SESSION_LENGTH && Fits(seqNumber, 8) && Fits(count, 2) && Framable(messages)
  {
    MoldHeader(session, seqNumber, count) + EncodeBinaryFile(messages)
  }

  lemma WriteSnoc(messages: seq<ByteString>, m: ByteString)
    requires Framable(messages) && Fits(|m|, 2)
    ensures Framable(messages + [m]) && EncodeBinaryFile(messages + [m]) == EncodeBinaryFile(messages) + Frame(m)
  {
    WriteAppend(messages, [m]);
    assert EncodeBinaryFile([m]) == Frame(m) + EncodeBinaryFile([m][1..]);
  }

  lemma {:induction false} WriteAppend(a: seq<ByteString>, b: seq<ByteString>)
    requires Framable(a) && Framable(b)
    ensures Framable(a + b) && EncodeBinaryFile(a + b) == EncodeBinaryFile(a) + EncodeBinaryFile(b)
  {
    hide Frame, Fits;
    if a == [] {
      assert a + b == b;
    } else {
      WriteAppend(a[1..], b);
      assert (a + b)[1..] == a[1..] + b;
    }
  }

  /** The packet builder's loop. */
  method BuildMoldPayload(session: ByteString, seqNumber: nat, count: nat, messages: seq<ByteString>)
    returns (payload: ByteString)
    requires |session| == SESSION_LENGTH && Fits(seqNumber, 8) && Fits(count, 2) && Framable(messages)
    ensures payload == MoldPayload(session, seqNumber, count, messages)
  {
    hide Uint, Fits;
    payload := session;
    payload := payload + Uint(seqNumber, 8);
    payload := payload + Uint(count, 2);
    for i := 0 to |messages|
      invariant Framable(messages[..i])
      invariant payload == MoldHeader(session, seqNumber, count) + EncodeBinaryFile(messages[..i])
    {
      assert messages[..i + 1] == messages[..i] + [messages[i]];
      WriteSnoc(messages[..i], messages[i]);
      payload := payload + Uint(|messages[i]|, 2);
      payload := payload + messages[i];
    }
    assert messages[..|messages|] == messages;
  }

  // ----- taking a packet apart

  /** The messages of a packet body: exactly as many as announced, with nothing after them. */
  function BodyMessages(body: ByteString, left: nat): Output<ByteString>
    decreases left
  {
    if left == 0 then Output([], if body == [] then None else Some(TrailingBytes))
    else if |body| < 2 then Output([], Some(TruncatedMessageLength))
    else
      var end := 2 + U16(body, 0);
      if end > |body| then Output([], Some(TruncatedMessagePayload))
      else
        var rest := BodyMessages(body[end..], left - 1);
        Output([body[2..end]] + rest.items, rest.error)
  }

  function Numbered(frameIndex: nat, seqNumber: nat, first: nat, payloads: seq<ByteString>): seq<Recovered> {
    seq(|payloads|, k requires 0 <= k < |payloads| => Recovered(frameIndex, seqNumber, first + k, payloads[k]))
  }

  /** Whether a packet carries messages. */
  predicate CarriesMessages(count: nat) {
    count != 0 && count != EOS_COUNT
  }

  function MoldMessages(payload: ByteString, frameIndex: nat): Output<Recovered> {
    if |payload| < HEADER_LENGTH then Output([], Some(TruncatedMoldHeader))
    else
      var seqNumber, count := U64(payload, 10), U16(payload, 18);
      if !CarriesMessages(count) then Output([], None)
      else
        var body := BodyMessages(payload[HEADER_LENGTH..], count);
        Output(Numbered(frameIndex, seqNumber, 0, body.items), body.error)
  }

  /** The packet reader's loop. */
  method IterMoldMessages(payload: ByteString, frameIndex: nat)
    returns (messages: seq<Recovered>, error: Option<NetworkError>)
    ensures Output(messages, error) == MoldMessages(payload, frameIndex)
  {
    messages, error := [], None;
    if |payload| < HEADER_LENGTH {
      return messages, Some(TruncatedMoldHeader);
    }
    var seqNumber, count := U64(payload, 10), U16(payload, 18);
    if count == 0 || count == EOS_COUNT {
      return;
    }
    messages, error := IterBody(payload, seqNumber, count, frameIndex);
  }

  method IterBody(payload: ByteString, seqNumber: nat, count: nat, frameIndex: nat)
    returns (messages: seq<Recovered>, error: Option<NetworkError>)
    requires |payload| >= HEADER_LENGTH
    ensures var body := BodyMessages(payload[HEADER_LENGTH..], count);
      messages == Numbered(frameIndex, seqNumber, 0, body.items) && error == body.error
  {
    hide U16;
    messages, error := [], None;
    var cursor := HEADER_LENGTH;
    ghost var whole := BodyMessages(payload[HEADER_LENGTH..], count);
    ghost var seen: seq<ByteString>, rest := [], whole;
    for messageNumber := 0 to count
      invariant HEADER_LENGTH <= cursor <= |payload|
      invariant |seen| == messageNumber
      invariant rest == BodyMessages(payload[cursor..], count - messageNumber)
      invariant whole == Output(seen + rest.items, rest.error)
      invariant messages == Numbered(frameIndex, seqNumber, 0, seen)
    {
      if |payload| - cursor < 2 {
        assert seen + rest.items == seen;
        return messages, Some(TruncatedMessageLength);
      }
      BodyAt(payload, cursor, count - messageNumber);
      var messageLength := U16(payload, cursor);
      cursor := cursor + 2;
      var messageEnd := cursor + messageLength;
      if messageEnd > |payload| {
        assert seen + rest.items == seen;
        return messages, Some(TruncatedMessagePayload);
      }
      var m := payload[cursor..messageEnd];
      messages := messages + [Recovered(frameIndex, seqNumber, messageNumber, m)];
      cursor := messageEnd;
      rest := BodyMessages(payload[cursor..], count - messageNumber - 1);
      assert seen + ([m] + rest.items) == seen + [m] + rest.items;
      seen := seen + [m];
    }
    assert seen + rest.items == seen;
    if cursor != |payload| {
      return messages, Some(TrailingBytes);
    }
  }

  lemma BodyAt(payload: ByteString, cursor: nat, left: nat)
    requires cursor + 2 <= |payload| && left > 0
    ensures var end := cursor + 2 + U16(payload, cursor);
      BodyMessages(payload[cursor..], left)
      == if end > |payload| then Output([], Some(TruncatedMessagePayload))
         else var rest := BodyMessages(payload[end..], left - 1);
           Output([payload[cursor + 2..end]] + rest.items, rest.error)
  {
    var tail, end := payload[cursor..], cursor + 2 + U16(payload, cursor);
    assert Slice(tail, 0, 2) == Slice(payload, cursor, cursor + 2);
    if end <= |payload| {
      assert tail[2..end - cursor] == payload[cursor + 2..end];
      assert tail[end - cursor..] == payload[end..];
    }
  }

  // ----- building and taking apart agree

  lemma BodyCons(m: ByteString, rest: ByteString, left: nat, parsed: Output<ByteString>)
    requires Fits(|m|, 2) && parsed == BodyMessages(rest, left)
    ensures BodyMessages(Frame(m) + rest, left + 1) == Output([m] + parsed.items, parsed.error)
  {
    ReadFrame(m, rest);
  }

  lemma {:induction false} BodyOfWritten(messages: seq<ByteString>)
    requires Framable(messages)
    ensures BodyMessages(EncodeBinaryFile(messages), |messages|) == Output(messages, None)
  {
    hide Frame, BodyMessages;
    if messages == [] {
      NoBody();
    } else {
      BodyOfWritten(messages[1..]);
      BodyCons(messages[0], EncodeBinaryFile(messages[1..]), |messages| - 1, Output(messages[1..], None));
      assert [messages[0]] + messages[1..] == messages;
    }
  }

  lemma NoBody()
    ensures BodyMessages([], 0) == Output([], None)
  {
  }

  /** An accepted body is nothing but the announced number of framed messages. */
  lemma {:induction false} BodyIsWritten(body: ByteString, left: nat)
    requires BodyMessages(body, left).error == None
    ensures var messages := BodyMessages(body, left).items;
      |messages| == left && Framable(messages) && EncodeBinaryFile(messages) == body
    decreases left
  {
    if left > 0 {
      var end := 2 + U16(body, 0);
      FrameOfPrefix(body);
      BodyIsWritten(body[end..], left - 1);
      BodyStep(body, left);
    }
  }

  lemma BodyStep(body: ByteString, left: nat)
    requires left > 0 && |body| >= 2 && 2 + U16(body, 0) <= |body|
    requires var rest := BodyMessages(body[2 + U16(body, 0)..], left - 1);
      |rest.items| == left - 1 && Framable(rest.items) && EncodeBinaryFile(rest.items) == body[2 + U16(body, 0)..]
    requires Fits(U16(body, 0), 2) && Frame(body[2..2 + U16(body, 0)]) == body[..2 + U16(body, 0)]
    ensures var messages := BodyMessages(body, left).items;
      |messages| == left && Framable(messages) && EncodeBinaryFile(messages) == body
  {
  }

  /** A reading of a body: framed messages, then too many bytes or too few. */
  predicate Stopped(body: ByteString, left: nat, read: Output<ByteString>) {
    && |read.items| <= left && Framable(read.items) && EncodeBinaryFile(read.items) <= body
    && StoppedAt(body[|EncodeBinaryFile(read.items)|..], left - |read.items|, read.error)
  }

  /** Why no further message is read from some bytes. */
  predicate StoppedAt(rest: ByteString, left: nat, error: Option<NetworkError>) {
    if left == 0 then error == if rest == [] then None else Some(TrailingBytes)
    else if |rest| < 2 then error == Some(TruncatedMessageLength)
    else error == Some(TruncatedMessagePayload) && |rest| < 2 + (0x100 * rest[0] as nat + rest[1] as nat)
  }

  /** Where reading a body stops, and why. */
  lemma {:induction false} BodyStopsExactly(body: ByteString, left: nat)
    ensures Stopped(body, left, BodyMessages(body, left))
    decreases left
  {
    hide Stopped;
    if left == 0 || |body| < 2 || 2 + U16(body, 0) > |body| {
      StoppedHere(body, left);
    } else {
      FrameOfPrefix(body);
      var end := 2 + U16(body, 0);
      BodyStopsExactly(body[end..], left - 1);
      StoppedLater(body, end, left, BodyMessages(body[end..], left - 1));
    }
  }

  lemma StoppedHere(body: ByteString, left: nat)
    requires left == 0 || |body| < 2 || 2 + U16(body, 0) > |body|
    ensures Stopped(body, left, BodyMessages(body, left))
  {
    hide Field;
    BigEndian(body, 0);
    assert BodyMessages(body, left).items == [] && body[0..] == body;
  }

  /** One more message in front of a reading. */
  lemma StoppedLater(body: ByteString, end: nat, left: nat, later: Output<ByteString>)
    requires left > 0 && 2 <= end <= |body| && Stopped(body[end..], left - 1, later)
    requires Fits(end - 2, 2) && Frame(body[2..end]) == body[..end]
    ensures Stopped(body, left, Output([body[2..end]] + later.items, later.error))
  {
    hide StoppedAt, Frame;
    var items := [body[2..end]] + later.items;
    assert items[1..] == later.items;
    assert EncodeBinaryFile(items) == body[..end] + EncodeBinaryFile(later.items);
    assert body[|EncodeBinaryFile(items)|..] == body[end..][|EncodeBinaryFile(later.items)|..];
  }

  /** A packet shorter than its header is refused, and counts 0 and 0xFFFF announce no messages. */
  lemma MoldMessagesExactly(p: ByteString, frameIndex: nat)
    ensures MoldMessages(p, frameIndex)
         == if |p| < 20 then Output([], Some(TruncatedMoldHeader))
            else
              var count := 0x100 * p[18] as nat + p[19] as nat;
              var body := BodyMessages(p[20..], count);
              if count == 0 || count == 0xFFFF then Output([], None)
              else Output(seq(|body.items|, k requires 0 <= k < |body.items| =>
                                Recovered(frameIndex, U64(p, 10), k, body.items[k])), body.error)
  {
    hide Field, BodyMessages;
    BigEndian(p, 18);
  }

  lemma HeaderFields(session: ByteString, seqNumber: nat, count: nat, body: ByteString)
    requires |session| == SESSION_LENGTH && Fits(seqNumber, 8) && Fits(count, 2)
    ensures var p := MoldHeader(session, seqNumber, count) + body;
      && |p| >= HEADER_LENGTH && U64(p, 10) == seqNumber && U16(p, 18) == count && p[HEADER_LENGTH..] == body
  {
    hide Uint, FromBytes, Fits;
    var p := MoldHeader(session, seqNumber, count) + body;
    assert p[10..18] == Uint(seqNumber, 8);
    assert p[18..20] == Uint(count, 2);
    FromUint(seqNumber, 8);
    FromUint(count, 2);
  }

  /** A built data packet yields its messages in order; heartbeats and end-of-session yield nothing. */
  lemma PacketRoundTrip(session: ByteString, seqNumber: nat, count: nat, messages: seq<ByteString>, frameIndex: nat)
    requires |session| == SESSION_LENGTH && Fits(seqNumber, 8) && Fits(count, 2) && Framable(messages)
    requires CarriesMessages(count) ==> count == |messages|
    ensures MoldMessages(MoldPayload(session, seqNumber, count, messages), frameIndex)
         == Output(if CarriesMessages(count) then Numbered(frameIndex, seqNumber, 0, messages) else [], None)
  {
    hide MoldHeader, U64, U16, BodyMessages, EncodeBinaryFile;
    HeaderFields(session, seqNumber, count, EncodeBinaryFile(messages));
    BodyOfWritten(messages);
  }

  /** Rebuilding an accepted data packet from its session, numbers and messages gives the same bytes. */
  lemma PacketRebuilds(payload: ByteString, frameIndex: nat)
    requires MoldMessages(payload, frameIndex).error == None
    requires CarriesMessages(U16(payload, 18))
    ensures var seqNumber, count := U64(payload, 10), U16(payload, 18);
      var messages := BodyMessages(payload[HEADER_LENGTH..], count).items;
      && Fits(seqNumber, 8) && Fits(count, 2) && |messages| == count && Framable(messages)
      && MoldMessages(payload, frameIndex).items == Numbered(frameIndex, seqNumber, 0, messages)
      && MoldPayload(payload[..SESSION_LENGTH], seqNumber, count, messages) == payload
  {
    hide BodyMessages;
    BodyIsWritten(payload[HEADER_LENGTH..], U16(payload, 18));
    UintFrom(payload[10..18]);
    UintFrom(payload[18..20]);
    assert payload == payload[..10] + payload[10..18] + payload[18..20] + payload[20..];
  }
}
