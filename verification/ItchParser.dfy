/** The message decoder, and its agreement with the message encodings in both directions. */
module ItchParser {
  import opened Wrappers
  import opened Contracts
  import opened Bytes
  import opened ItchMessages

  datatype ParseError =
    | EmptyMessage
    | WrongLength(expected: nat, actual: nat)
    | InvalidSide(indicator: Byte)
    | TruncatedLength
    | FrameExceedsStream

  function BookMessageLength(messageType: Byte): Option<nat> {
    if messageType == ADD_NO_MPID then Some(36)
    else if messageType == ADD_WITH_MPID then Some(40)
    else if messageType == EXECUTED then Some(31)
    else if messageType == EXECUTED_WITH_PRICE then Some(36)
    else if messageType == CANCEL then Some(23)
    else if messageType == DELETE then Some(19)
    else if messageType == REPLACE then Some(35)
    else None
  }

  predicate IsAdd(messageType: Byte) {
    messageType == ADD_NO_MPID || messageType == ADD_WITH_MPID
  }

  predicate IsExecution(messageType: Byte) {
    messageType == EXECUTED || messageType == EXECUTED_WITH_PRICE
  }

  function ParseSide(indicator: Byte): Option<Side> {
    if indicator == BUY_INDICATOR then Some(Buy)
    else if indicator == SELL_INDICATOR then Some(Sell)
    else None
  }

  /** Decodes one message; a message that does not touch the displayed book decodes to no event. */
  function ParseItchMessage(payload: ByteString, msgIndex: nat): Result<Option<Event>, ParseError> {
    if payload == [] then Err(EmptyMessage)
    else
      var messageType := payload[0];
      var expected := BookMessageLength(messageType);
      if expected == None then Ok(None)
      else if |payload| != expected.value then Err(WrongLength(expected.value, |payload|))
      else
        if IsAdd(messageType) then
          match ParseSide(payload[19])
          case None => Err(InvalidSide(payload[19]))
          case Some(side) => Ok(Some(AddEvent(payload, side, msgIndex)))
        else if IsExecution(messageType) then Ok(Some(ReductionEvent(payload, Op.Execute, msgIndex)))
        else if messageType == CANCEL then Ok(Some(ReductionEvent(payload, Op.Cancel, msgIndex)))
        else if messageType == DELETE then Ok(Some(DeleteEvent(payload, msgIndex)))
        else Ok(Some(ReplaceEvent(payload, msgIndex)))
  }

  function AddEvent(payload: ByteString, side: Side, msgIndex: nat): Event
    requires |payload| >= 36 && side != Unknown
  {
    NormalisedEvent(Op.Add, U16(payload, 1), side, U64(payload, 11), msgIndex,
                    Some(U32(payload, 32)), Some(U32(payload, 20)), None, Some(U48(payload, 5)))
  }

  function ReductionEvent(payload: ByteString, op: Op, msgIndex: nat): Event
    requires |payload| >= 23 && (op == Op.Execute || op == Op.Cancel)
  {
    NormalisedEvent(op, U16(payload, 1), Unknown, U64(payload, 11), msgIndex,
                    None, Some(U32(payload, 19)), None, Some(U48(payload, 5)))
  }

  function DeleteEvent(payload: ByteString, msgIndex: nat): Event
    requires |payload| >= 19
  {
    NormalisedEvent(Op.Delete, U16(payload, 1), Unknown, U64(payload, 11), msgIndex,
                    None, None, None, Some(U48(payload, 5)))
  }

  function ReplaceEvent(payload: ByteString, msgIndex: nat): Event
    requires |payload| >= 35
  {
    NormalisedEvent(Op.Replace, U16(payload, 1), Unknown, U64(payload, 11), msgIndex,
                    Some(U32(payload, 31)), Some(U32(payload, 27)), Some(U64(payload, 19)), Some(U48(payload, 5)))
  }

  // ----- the layout of a book message, in numbers

  /** The length of each type of book message. */
  function LengthOf(messageType: Byte): nat {
    if messageType == 0x41 then 36
    else if messageType == 0x46 then 40
    else if messageType == 0x45 then 31
    else if messageType == 0x43 then 36
    else if messageType == 0x58 then 23
    else if messageType == 0x44 then 19
    else 35
  }

  /** Whether an event is the one at the offsets of a payload of the right length; adds differ by their side. */
  predicate ReadsAs(p: ByteString, e: RawEvent, msgIndex: nat)
    requires p != [] && p[0] in {0x41, 0x46, 0x45, 0x43, 0x58, 0x44, 0x55} && |p| == LengthOf(p[0])
  {
    && e.locate == U16(p, 1) && e.timestampNs == Some(U48(p, 5) as int) && e.orderRef == U64(p, 11)
    && e.msgIndex == msgIndex
    && if p[0] == 0x41 || p[0] == 0x46 then
         && e.op == Op.Add && e.side == (if p[19] == 0x42 then Buy else Sell)
         && e.shares == Some(U32(p, 20) as int) && e.price == Some(U32(p, 32) as int) && e.newOrderRef == None
       else if p[0] == 0x45 || p[0] == 0x43 || p[0] == 0x58 then
         && e.op == (if p[0] == 0x58 then Op.Cancel else Op.Execute) && e.side == Unknown
         && e.shares == Some(U32(p, 19) as int) && e.price == None && e.newOrderRef == None
       else if p[0] == 0x44 then
         && e.op == Op.Delete && e.side == Unknown && e.shares == None && e.price == None && e.newOrderRef == None
       else
         && e.op == Op.Replace && e.side == Unknown && e.newOrderRef == Some(U64(p, 19) as int)
         && e.shares == Some(U32(p, 27) as int) && e.price == Some(U32(p, 31) as int)
  }

  /** What the decoder makes of every payload, byte by byte. */
  lemma DecodedExactly(p: ByteString, msgIndex: nat)
    ensures var r := ParseItchMessage(p, msgIndex);
      && (p == [] ==> r == Err(EmptyMessage))
      && (p != [] && p[0] !in {0x41, 0x46, 0x45, 0x43, 0x58, 0x44, 0x55} ==> r == Ok(None))
      && (p != [] && p[0] in {0x41, 0x46, 0x45, 0x43, 0x58, 0x44, 0x55} ==>
            if |p| != LengthOf(p[0]) then r == Err(WrongLength(LengthOf(p[0]), |p|))
            else if p[0] in {0x41, 0x46} && p[19] !in {0x42, 0x53} then r == Err(InvalidSide(p[19]))
            else r.Ok? && r.value.Some? && ReadsAs(p, r.value.value, msgIndex))
  {
  }

  // ----- decoding an encoded message

  lemma CommonOffsets(parts: seq<ByteString>)
    requires |parts| >= 5 && |parts[0]| == 1 && |parts[1]| == 2 && |parts[2]| == 2 && |parts[3]| == 6 && |parts[4]| == 8
    ensures Offset(parts, 1) == 1 && Offset(parts, 3) == 5 && Offset(parts, 4) == 11 && Offset(parts, 5) == 19
  {
  }

  lemma EncodedHeader(m: Message)
    requires Encodable(m)
    ensures var p := Encode(m);
      && |p| >= 19 && p[0] == MessageType(m.body)
      && Field(p, 1, 2) == m.locate && Field(p, 5, 6) == m.timestampNs && Field(p, 11, 8) == m.orderRef
    ensures Offset(Parts(m), 5) == 19
  {
    var parts := Parts(m);
    CommonOffsets(parts);
    PartAt(parts, 0);
    FieldAt(parts, 1, m.locate, 2);
    FieldAt(parts, 3, m.timestampNs, 6);
    FieldAt(parts, 4, m.orderRef, 8);
    assert Slice(Join(parts), 0, 1) == parts[0];
  }

  lemma EncodedAdd(m: Message)
    requires Encodable(m) && m.body.AddBody?
    ensures var p := Encode(m);
      && |p| == (if m.body.attribution.Some? then 40 else 36) && p[19] == SideByte(m.body.side)
      && Field(p, 20, 4) == m.body.shares && Field(p, 32, 4) == m.body.price
  {
    var parts := Parts(m);
    EncodedHeader(m);
    PartAt(parts, 5);
    assert Slice(Join(parts), 19, 20) == parts[5];
    assert Offset(parts, 6) == 20;
    FieldAt(parts, 6, m.body.shares, 4);
    assert Offset(parts, 7) == 24;
    assert Offset(parts, 8) == 32;
    FieldAt(parts, 8, m.body.price, 4);
    assert Offset(parts, 9) == 36;
    JoinLength(parts);
  }

  lemma EncodedReduction(m: Message)
    requires Encodable(m) && (m.body.ExecuteBody? || m.body.CancelBody?)
    ensures var p := Encode(m);
      && BookMessageLength(MessageType(m.body)) == Some(|p|)
      && Field(p, 19, 4) == m.body.shares
  {
    var parts := Parts(m);
    EncodedHeader(m);
    FieldAt(parts, 5, m.body.shares, 4);
    assert Offset(parts, 6) == 23;
    JoinLength(parts);
    if m.body.ExecuteBody? {
      assert Offset(parts, 7) == 31;
      if m.body.pricing.Some? {
        assert Offset(parts, 8) == 32;
        assert Offset(parts, 9) == 36;
      }
    }
  }

  lemma EncodedReplace(m: Message)
    requires Encodable(m) && m.body.ReplaceBody?
    ensures var p := Encode(m);
      && |p| == 35 && Field(p, 19, 8) == m.body.newOrderRef
      && Field(p, 27, 4) == m.body.shares && Field(p, 31, 4) == m.body.price
  {
    var parts := Parts(m);
    EncodedHeader(m);
    FieldAt(parts, 5, m.body.newOrderRef, 8);
    assert Offset(parts, 6) == 27;
    FieldAt(parts, 6, m.body.shares, 4);
    assert Offset(parts, 7) == 31;
    FieldAt(parts, 7, m.body.price, 4);
    assert Offset(parts, 8) == 35;
    JoinLength(parts);
  }

  lemma EncodedDelete(m: Message)
    requires Encodable(m) && m.body.DeleteBody?
    ensures |Encode(m)| == 19
  {
    EncodedHeader(m);
    JoinLength(Parts(m));
  }

  // The fields the decoder does not look at.

  lemma EncodedTracking(m: Message)
    requires Encodable(m)
    ensures Field(Encode(m), 3, 2) == m.trackingNumber
  {
    var parts := Parts(m);
    assert Offset(parts, 1) == 1;
    assert Offset(parts, 2) == 3;
    FieldAt(parts, 2, m.trackingNumber, 2);
  }

  lemma EncodedText(m: Message)
    requires Encodable(m) && m.body.AddBody?
    ensures |Encode(m)| == (if m.body.attribution.Some? then 40 else 36)
    ensures Encode(m)[24..32] == m.body.stock
    ensures m.body.attribution.Some? ==> Encode(m)[36..40] == m.body.attribution.value
  {
    var parts := Parts(m);
    EncodedAdd(m);
    EncodedHeader(m);
    assert Offset(parts, 6) == 20;
    assert Offset(parts, 7) == 24;
    PartAt(parts, 7);
    assert Slice(Join(parts), 24, 32) == m.body.stock;
    if m.body.attribution.Some? {
      assert Offset(parts, 8) == 32;
      assert Offset(parts, 9) == 36;
      PartAt(parts, 9);
      assert Slice(Join(parts), 36, 40) == m.body.attribution.value;
    }
  }

  lemma EncodedExecution(m: Message)
    requires Encodable(m) && m.body.ExecuteBody?
    ensures |Encode(m)| == (if m.body.pricing.Some? then 36 else 31)
    ensures Field(Encode(m), 23, 8) == m.body.matchNumber
    ensures m.body.pricing.Some? ==>
      Encode(m)[31] == m.body.pricing.value.printable && Field(Encode(m), 32, 4) == m.body.pricing.value.executionPrice
  {
    var parts := Parts(m);
    EncodedReduction(m);
    EncodedHeader(m);
    assert Offset(parts, 6) == 23;
    FieldAt(parts, 6, m.body.matchNumber, 8);
    assert |parts[6]| == 8;
    if m.body.pricing.Some? {
      assert Offset(parts, 7) == 31;
      PartAt(parts, 7);
      assert Slice(Join(parts), 31, 32) == [m.body.pricing.value.printable];
      assert Offset(parts, 8) == 32;
      FieldAt(parts, 8, m.body.pricing.value.executionPrice, 4);
    }
  }

  /** Every message a builder can produce decodes to the event it stands for. */
  lemma ParseEncoded(m: Message, msgIndex: nat)
    requires Encodable(m)
    ensures ParseItchMessage(Encode(m), msgIndex) == Ok(Some(EventOf(m, msgIndex)))
  {
    hide Encode, Field, Power256;
    EncodedHeader(m);
    match m.body {
      case AddBody(_, _, _, _, _) => EncodedAdd(m);
      case ReplaceBody(_, _, _) => EncodedReplace(m);
      case DeleteBody => EncodedDelete(m);
      case _ => EncodedReduction(m);
    }
  }

  // ----- encoding a decoded message

  /** The body a payload encodes, if its type and length are right. */
  function BodyOf(p: ByteString): Body
    requires p != [] && BookMessageLength(p[0]) == Some(|p|)
  {
    if IsAdd(p[0]) then AddBodyOf(p)
    else if IsExecution(p[0]) then ExecuteBodyOf(p)
    else if p[0] == CANCEL then CancelBody(Field(p, 19, 4))
    else if p[0] == DELETE then DeleteBody
    else ReplaceBody(Field(p, 19, 8), Field(p, 27, 4), Field(p, 31, 4))
  }

  function AddBodyOf(p: ByteString): Body
    requires |p| >= 36 && (p[0] == ADD_WITH_MPID ==> |p| == 40)
  {
    AddBody(if p[19] == BUY_INDICATOR then Buy else Sell, Field(p, 20, 4), p[24..32], Field(p, 32, 4),
            if p[0] == ADD_WITH_MPID then Some(p[36..40]) else None)
  }

  function ExecuteBodyOf(p: ByteString): Body
    requires |p| >= 31 && (p[0] == EXECUTED_WITH_PRICE ==> |p| == 36)
  {
    ExecuteBody(Field(p, 19, 4), Field(p, 23, 8),
                if p[0] == EXECUTED_WITH_PRICE then Some(Pricing(p[31], Field(p, 32, 4))) else None)
  }

  function WithHeaderOf(p: ByteString, body: Body): Message {
    Message(Field(p, 1, 2), Field(p, 3, 2), Field(p, 5, 6), Field(p, 11, 8), body)
  }

  function MessageOf(p: ByteString): Message
    requires p != [] && BookMessageLength(p[0]) == Some(|p|)
  {
    WithHeaderOf(p, BodyOf(p))
  }

  lemma FieldSlice(p: ByteString, offset: nat, length: nat)
    requires offset + length <= |p|
    ensures Fits(Field(p, offset, length), length)
    ensures Uint(Field(p, offset, length), length) == p[offset..offset + length] == Slice(p, offset, offset + length)
  {
    UintFrom(p[offset..offset + length]);
  }

  /** The header fields of a payload re-encode to its first nineteen bytes. */
  lemma HeaderReencodes(p: ByteString, body: Body)
    requires |p| >= 19 && Encodable(Message(0, 0, 0, 0, body)) && MessageType(body) == p[0]
    ensures Encodable(WithHeaderOf(p, body))
    ensures Join(CommonParts(WithHeaderOf(p, body))) == p[..19]
  {
    FieldSlice(p, 1, 2);
    FieldSlice(p, 3, 2);
    FieldSlice(p, 5, 6);
    FieldSlice(p, 11, 8);
    HeaderPieces(p);
    assert p[0..1] == [p[0]];
  }

  lemma HeaderPieces(p: ByteString)
    requires |p| >= 19
    ensures Join([p[0..1], p[1..3], p[3..5], p[5..11], p[11..19]]) == p[..19]
  {
    JoinPiece(p, [], 0, 1);
    assert [] + [p[0..1]] == [p[0..1]];
    PiecesJoin(p, [p[0..1]], 1, 3, 5);
    PiecesJoin(p, [p[0..1]] + [p[1..3], p[3..5]], 5, 11, 19);
    assert [p[0..1]] + [p[1..3], p[3..5]] + [p[5..11], p[11..19]]
        == [p[0..1], p[1..3], p[3..5], p[5..11], p[11..19]];
  }

  /** Two more pieces after a joined prefix. */
  lemma PiecesJoin(p: ByteString, front: seq<ByteString>, a: nat, b: nat, c: nat)
    requires a <= b <= c <= |p| && Join(front) == p[..a]
    ensures Join(front + [p[a..b], p[b..c]]) == p[..c]
  {
    JoinPiece(p, front, a, b);
    JoinPiece(p, front + [p[a..b]], b, c);
    assert front + [p[a..b]] + [p[b..c]] == front + [p[a..b], p[b..c]];
  }

  lemma AddReencodes(p: ByteString)
    requires p != [] && IsAdd(p[0]) && BookMessageLength(p[0]) == Some(|p|)
    requires ParseSide(p[19]).Some?
    ensures var m := WithHeaderOf(p, AddBodyOf(p)); Encodable(m) && Encode(m) == p
  {
    AddBodyPieces(p);
    HeaderReencodes(p, AddBodyOf(p));
    var common := CommonParts(WithHeaderOf(p, AddBodyOf(p)));
    PiecesJoin(p, common, 19, 20, 24);
    PiecesJoin(p, common + [p[19..20], p[20..24]], 24, 32, 36);
    var unattributed := common + [p[19..20], p[20..24]] + [p[24..32], p[32..36]];
    assert unattributed == common + [p[19..20], p[20..24], p[24..32], p[32..36]];
    if p[0] == ADD_WITH_MPID {
      JoinPiece(p, unattributed, 36, 40);
      assert unattributed + [p[36..40]] == common + [p[19..20], p[20..24], p[24..32], p[32..36], p[36..40]];
    }
  }

  lemma AddBodyPieces(p: ByteString)
    requires p != [] && IsAdd(p[0]) && BookMessageLength(p[0]) == Some(|p|)
    requires ParseSide(p[19]).Some?
    ensures Encodable(Message(0, 0, 0, 0, AddBodyOf(p))) && MessageType(AddBodyOf(p)) == p[0]
    ensures BodyParts(Message(0, 0, 0, 0, AddBodyOf(p)))
         == if p[0] == ADD_WITH_MPID then [p[19..20], p[20..24], p[24..32], p[32..36], p[36..40]]
            else [p[19..20], p[20..24], p[24..32], p[32..36]]
  {
    FieldSlice(p, 20, 4);
    FieldSlice(p, 32, 4);
    assert p[19..20] == [p[19]];
  }

  lemma ExecuteReencodes(p: ByteString)
    requires p != [] && IsExecution(p[0]) && BookMessageLength(p[0]) == Some(|p|)
    ensures var m := WithHeaderOf(p, ExecuteBodyOf(p)); Encodable(m) && Encode(m) == p
  {
    ExecuteBodyPieces(p);
    HeaderReencodes(p, ExecuteBodyOf(p));
    var common := CommonParts(WithHeaderOf(p, ExecuteBodyOf(p)));
    PiecesJoin(p, common, 19, 23, 31);
    var unpriced := common + [p[19..23], p[23..31]];
    if p[0] == EXECUTED_WITH_PRICE {
      PiecesJoin(p, unpriced, 31, 32, 36);
      assert unpriced + [p[31..32], p[32..36]] == common + [p[19..23], p[23..31], p[31..32], p[32..36]];
    }
  }

  lemma ExecuteBodyPieces(p: ByteString)
    requires p != [] && IsExecution(p[0]) && BookMessageLength(p[0]) == Some(|p|)
    ensures Encodable(Message(0, 0, 0, 0, ExecuteBodyOf(p))) && MessageType(ExecuteBodyOf(p)) == p[0]
    ensures BodyParts(Message(0, 0, 0, 0, ExecuteBodyOf(p)))
         == if p[0] == EXECUTED_WITH_PRICE then [p[19..23], p[23..31], p[31..32], p[32..36]]
            else [p[19..23], p[23..31]]
  {
    FieldSlice(p, 19, 4);
    FieldSlice(p, 23, 8);
    if p[0] == EXECUTED_WITH_PRICE {
      FieldSlice(p, 32, 4);
      assert p[31..32] == [p[31]];
    }
  }

  lemma CancelReencodes(p: ByteString)
    requires |p| == 23 && p[0] == CANCEL
    ensures var m := WithHeaderOf(p, CancelBody(Field(p, 19, 4))); Encodable(m) && Encode(m) == p
  {
    FieldSlice(p, 19, 4);
    HeaderReencodes(p, CancelBody(Field(p, 19, 4)));
    JoinPiece(p, CommonParts(WithHeaderOf(p, CancelBody(Field(p, 19, 4)))), 19, 23);
  }

  lemma DeleteReencodes(p: ByteString)
    requires |p| == 19 && p[0] == DELETE
    ensures var m := WithHeaderOf(p, DeleteBody); Encodable(m) && Encode(m) == p
  {
    HeaderReencodes(p, DeleteBody);
    assert Parts(WithHeaderOf(p, DeleteBody)) == CommonParts(WithHeaderOf(p, DeleteBody));
  }

  lemma ReplaceReencodes(p: ByteString)
    requires |p| == 35 && p[0] == REPLACE
    ensures var m := WithHeaderOf(p, ReplaceBody(Field(p, 19, 8), Field(p, 27, 4), Field(p, 31, 4)));
      Encodable(m) && Encode(m) == p
  {
    FieldSlice(p, 19, 8);
    FieldSlice(p, 27, 4);
    FieldSlice(p, 31, 4);
    var body := ReplaceBody(Field(p, 19, 8), Field(p, 27, 4), Field(p, 31, 4));
    HeaderReencodes(p, body);
    var common := CommonParts(WithHeaderOf(p, body));
    PiecesJoin(p, common, 19, 27, 31);
    JoinPiece(p, common + [p[19..27], p[27..31]], 31, 35);
    assert Parts(WithHeaderOf(p, body)) == common + [p[19..27], p[27..31]] + [p[31..35]];
  }

  lemma MessageReencodes(p: ByteString)
    requires p != [] && BookMessageLength(p[0]) == Some(|p|)
    requires IsAdd(p[0]) ==> ParseSide(p[19]).Some?
    ensures Encodable(MessageOf(p)) && Encode(MessageOf(p)) == p
  {
    if IsAdd(p[0]) {
      AddReencodes(p);
    } else if IsExecution(p[0]) {
      ExecuteReencodes(p);
    } else if p[0] == CANCEL {
      CancelReencodes(p);
    } else if p[0] == DELETE {
      DeleteReencodes(p);
    } else {
      ReplaceReencodes(p);
    }
  }

  /** The decoder accepts nothing but encodings: whatever decodes to an event re-encodes to the same bytes. */
  lemma ParsedIsEncoded(p: ByteString, msgIndex: nat)
    requires ParseItchMessage(p, msgIndex).Ok? && ParseItchMessage(p, msgIndex).value.Some?
    ensures p != [] && BookMessageLength(p[0]) == Some(|p|)
    ensures var m := MessageOf(p);
      && Encodable(m) && Encode(m) == p
      && EventOf(m, msgIndex) == ParseItchMessage(p, msgIndex).value.value
  {
    MessageReencodes(p);
    ParseEncoded(MessageOf(p), msgIndex);
  }

  /** A payload is rejected exactly when it is empty, or claims a book type without being any message's encoding. */
  lemma RejectedExactly(p: ByteString, msgIndex: nat)
    ensures ParseItchMessage(p, msgIndex).Err? <==>
      || p == []
      || (BookMessageLength(p[0]).Some? && forall m :: Encodable(m) ==> Encode(m) != p)
  {
    if ParseItchMessage(p, msgIndex).Err? {
      forall m | Encodable(m)
        ensures Encode(m) != p
      {
        ParseEncoded(m, msgIndex);
      }
    } else if BookMessageLength(p[0]).Some? {
      ParsedIsEncoded(p, msgIndex);
    }
  }

  // ----- which events there are

  /** The event with some timestamp, where the contract leaves it out. */
  function Timed(e: RawEvent): RawEvent {
    if e.timestampNs == None then e.(timestampNs := Some(0)) else e
  }

  ghost predicate Decodes(p: ByteString, e: RawEvent)
    requires e.msgIndex >= 0
  {
    var r := ParseItchMessage(p, e.msgIndex);
    r.Ok? && r.value.Some? && r.value.value == e
  }

  /** A message that stands for a timed event. */
  function MessageFor(e: Event): Message
    requires e.timestampNs.Some?
  {
    var body := match e.op
      case Add => AddBody(e.side, e.shares.value, [32, 32, 32, 32, 32, 32, 32, 32], e.price.value, None)
      case Execute => ExecuteBody(e.shares.value, 0, None)
      case Cancel => CancelBody(e.shares.value)
      case Delete => DeleteBody
      case Replace => ReplaceBody(e.newOrderRef.value, e.shares.value, e.price.value);
    Message(e.locate, 0, e.timestampNs.value, e.orderRef, body)
  }

  /** An event passes the contract's checks if and only if, timestamped, it is what some payload decodes to. */
  lemma ValidExactlyDecodable(e: RawEvent)
    ensures e.Valid() <==> e.msgIndex >= 0 && exists p :: Decodes(p, Timed(e))
  {
    if e.Valid() {
      FieldWidths();
      var timed: Event := Timed(e);
      var m := MessageFor(timed);
      ParseEncoded(m, e.msgIndex);
      assert Decodes(Encode(m), Timed(e));
    }
  }
}
