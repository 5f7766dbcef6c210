/** The decoder's packed word and the scoreboard that compares it with a golden event. */
module Scoreboard {
  import opened Wrappers
  import opened Contracts
  import opened Bits
  import opened BitLayout
  import Bytes
  import ItchParser

  const DATA_W: nat := 201
  const DECODER_DATA_W: nat := 217

  datatype FieldName = MessageType | StockLocate | Orn | UpdatedOrn | SideBit | SharesField | PriceField

  /** data_t, the decoder's output. */
  function DecoderField(name: FieldName): Field {
    match name
    case MessageType => Field(209, 8)
    case StockLocate => Field(193, 16)
    case Orn => Field(129, 64)
    case UpdatedOrn => Field(65, 64)
    case SideBit => Field(64, 1)
    case SharesField => Field(32, 32)
    case PriceField => Field(0, 32)
  }

  /** o_data_t, the order book's input: no locate, so the message type sits lower. */
  function DataField(name: FieldName): Field
    requires name != StockLocate
  {
    if name == MessageType then Field(193, 8) else DecoderField(name)
  }

  const DECODER_NAMES := [MessageType, StockLocate, Orn, UpdatedOrn, SideBit, SharesField, PriceField]

  const DECODER_FIELDS: seq<Field> := [
    DecoderField(MessageType), DecoderField(StockLocate), DecoderField(Orn), DecoderField(UpdatedOrn),
    DecoderField(SideBit), DecoderField(SharesField), DecoderField(PriceField)]

  const DATA_FIELDS: seq<Field> := [
    DataField(MessageType), DataField(Orn), DataField(UpdatedOrn), DataField(SideBit), DataField(SharesField),
    DataField(PriceField)]

  function TypeOf(op: Op): nat {
    match op
    case Add => 0x41
    case Execute => 0x45
    case Cancel => 0x58
    case Delete => 0x44
    case Replace => 0x55
  }

  /** An add may carry an attribution, an execution a price. */
  predicate MessageTypeMatchesOp(messageType: nat, op: Op) {
    match op
    case Add => messageType == 0x41 || messageType == 0x46
    case Execute => messageType == 0x45 || messageType == 0x43
    case _ => messageType == TypeOf(op)
  }

  function NoneToZero(value: Option<int>): int {
    if value == None then 0 else value.value
  }

  function SideValue(side: Side): int {
    if side == Buy then 1 else 0
  }

  /** What an event puts in a field. */
  function EventValue(e: RawEvent, name: FieldName): int {
    match name
    case MessageType => TypeOf(e.op)
    case StockLocate => e.locate
    case Orn => e.orderRef
    case UpdatedOrn => NoneToZero(e.newOrderRef)
    case SideBit => SideValue(e.side)
    case SharesField => NoneToZero(e.shares)
    case PriceField => NoneToZero(e.price)
  }

  function DecoderValues(e: RawEvent): seq<int> {
    [EventValue(e, MessageType), EventValue(e, StockLocate), EventValue(e, Orn), EventValue(e, UpdatedOrn),
     EventValue(e, SideBit), EventValue(e, SharesField), EventValue(e, PriceField)]
  }

  function DataValues(e: RawEvent): seq<int> {
    [EventValue(e, MessageType), EventValue(e, Orn), EventValue(e, UpdatedOrn), EventValue(e, SideBit),
     EventValue(e, SharesField), EventValue(e, PriceField)]
  }

  function PackDecoderData(e: RawEvent): Result<nat, PackError> {
    Pack(DECODER_FIELDS, DECODER_DATA_W, DecoderValues(e))
  }

  function PackData(e: RawEvent): Result<nat, PackError> {
    Pack(DATA_FIELDS, DATA_W, DataValues(e))
  }

  lemma Limits()
    ensures Shl(1, 1) == 2 && Shl(1, 8) == 0x100 && Shl(1, 16) == LOCATE_LIMIT
    ensures Shl(1, 32) == PRICE_LIMIT == SHARES_LIMIT && Shl(1, 64) == ORDER_REF_LIMIT
  {
    hide Shl;
    SmallShifts();
    ShlAdd(16, 16);
    ShlAdd(32, 32);
  }

  lemma SmallShifts()
    ensures Shl(1, 1) == 2 && Shl(1, 8) == 0x100 && Shl(1, 16) == 0x1_0000
  {
  }

  /** The seven decoder fields tile the 217-bit word and the six book fields the 201-bit word. */
  lemma LayoutsTile()
    ensures Tiles(DECODER_FIELDS, DECODER_DATA_W)
    ensures Tiles(DATA_FIELDS, DATA_W)
  {
  }

  /** A valid event always packs; its word fits the port and unpacks to the event's own fields. */
  lemma EventsPack(e: Event)
    ensures InRange(DECODER_FIELDS, DecoderValues(e)) && InRange(DATA_FIELDS, DataValues(e))
    ensures PackDecoderData(e).Ok? && PackData(e).Ok?
    ensures var word := PackDecoderData(e).value;
      word < Shl(1, DECODER_DATA_W)
      && forall name: FieldName :: ExtractField(word, DecoderField(name)) == EventValue(e, name)
    ensures var word := PackData(e).value;
      word < Shl(1, DATA_W)
      && forall name: FieldName :: name != StockLocate ==> ExtractField(word, DataField(name)) == EventValue(e, name)
  {
    hide Shl, ExtractField, Pack, Tiles;
    Limits();
    LayoutsTile();
    PackExactly(DECODER_FIELDS, DECODER_DATA_W, DecoderValues(e));
    PackExactly(DATA_FIELDS, DATA_W, DataValues(e));
    forall name: FieldName
      ensures ExtractField(PackDecoderData(e).value, DecoderField(name)) == EventValue(e, name)
    {
      var k := DecoderIndex(name);
      assert Unpack(PackDecoderData(e).value, DECODER_FIELDS)[k] == DecoderValues(e)[k];
    }
    forall name: FieldName | name != StockLocate
      ensures ExtractField(PackData(e).value, DataField(name)) == EventValue(e, name)
    {
      var k := if name == MessageType then 0 else DecoderIndex(name) - 1;
      assert Unpack(PackData(e).value, DATA_FIELDS)[k] == DataValues(e)[k];
    }
  }

  function BodyBits(e: Event): (nat, nat, nat, nat) {
    (if e.newOrderRef.Some? then e.newOrderRef.value else 0, if e.side == Buy then 1 else 0,
     if e.shares.Some? then e.shares.value else 0, if e.price.Some? then e.price.value else 0)
  }

  /** Where each field stands in the two packed words, bit position by bit position. */
  lemma PackedExactly(e: Event)
    ensures PackDecoderData(e).Ok? && PackData(e).Ok?
    ensures var word, (updated, side, shares, price) := PackDecoderData(e).value, BodyBits(e);
      && word < Shl(1, 217)
      && MessageTypeMatchesOp(ExtractField(word, Field(209, 8)), e.op)
      && ExtractField(word, Field(193, 16)) == e.locate && ExtractField(word, Field(129, 64)) == e.orderRef
      && ExtractField(word, Field(65, 64)) == updated && ExtractField(word, Field(64, 1)) == side
      && ExtractField(word, Field(32, 32)) == shares && ExtractField(word, Field(0, 32)) == price
    ensures var word, (updated, side, shares, price) := PackData(e).value, BodyBits(e);
      && word < Shl(1, 201)
      && MessageTypeMatchesOp(ExtractField(word, Field(193, 8)), e.op)
      && ExtractField(word, Field(129, 64)) == e.orderRef
      && ExtractField(word, Field(65, 64)) == updated && ExtractField(word, Field(64, 1)) == side
      && ExtractField(word, Field(32, 32)) == shares && ExtractField(word, Field(0, 32)) == price
  {
    hide ExtractField, Shl, PackDecoderData, PackData, InRange;
    EventsPack(e);
    var word, word' := PackDecoderData(e).value, PackData(e).value;
    assert forall name: FieldName :: ExtractField(word, DecoderField(name)) == EventValue(e, name);
    assert DecoderField(MessageType) == Field(209, 8) && DataField(MessageType) == Field(193, 8);
    assert DecoderField(StockLocate) == Field(193, 16);
    assert DecoderField(Orn) == Field(129, 64) == DataField(Orn);
    assert DecoderField(UpdatedOrn) == Field(65, 64) == DataField(UpdatedOrn);
    assert DecoderField(SideBit) == Field(64, 1) == DataField(SideBit);
    assert DecoderField(SharesField) == Field(32, 32) == DataField(SharesField);
    assert DecoderField(PriceField) == Field(0, 32) == DataField(PriceField);
  }

  function DecoderIndex(name: FieldName): (k: nat)
    ensures k < |DECODER_NAMES| && DECODER_NAMES[k] == name
  {
    match name
    case MessageType => 0
    case StockLocate => 1
    case Orn => 2
    case UpdatedOrn => 3
    case SideBit => 4
    case SharesField => 5
    case PriceField => 6
  }

  // ----- the scoreboard

  datatype Verdict = Pass | OpMismatch | InvalidSide | FieldMismatch(name: FieldName)

  /** The fields an operation is compared on, in the order they are compared. */
  function Compared(op: Op): seq<FieldName> {
    [StockLocate, Orn]
    + match op
      case Add => [SideBit, PriceField, SharesField]
      case Execute => [SharesField]
      case Cancel => [SharesField]
      case Delete => []
      case Replace => [UpdatedOrn, PriceField, SharesField]
  }

  predicate FieldAgrees(word: nat, e: RawEvent, name: FieldName) {
    ExtractField(word, DecoderField(name)) == EventValue(e, name)
  }

  datatype Check = Check(name: FieldName, actual: nat, expected: int)

  /** Compares a decoder word with a golden event on the fields the operation defines, and on no other. */
  method AssertDataMatchesWord(word: nat, e: RawEvent) returns (verdict: Verdict)
    ensures verdict == Pass <==>
      && MessageTypeMatchesOp(ExtractField(word, DecoderField(MessageType)), e.op)
      && (e.op == Add ==> e.side != Unknown)
      && forall name :: name in Compared(e.op) ==> FieldAgrees(word, e, name)
    ensures verdict == OpMismatch <==> !MessageTypeMatchesOp(ExtractField(word, DecoderField(MessageType)), e.op)
    ensures verdict == InvalidSide <==>
      && MessageTypeMatchesOp(ExtractField(word, DecoderField(MessageType)), e.op)
      && e.op == Add && e.side == Unknown
    ensures verdict.FieldMismatch? ==>
      exists k :: 0 <= k < |Compared(e.op)| && Compared(e.op)[k] == verdict.name && !FieldAgrees(word, e, verdict.name)
             && forall j :: 0 <= j < k ==> FieldAgrees(word, e, Compared(e.op)[j])
  {
    hide ExtractField, Shl;
    var messageType := ExtractField(word, DecoderField(MessageType));
    if !MessageTypeMatchesOp(messageType, e.op) {
      return OpMismatch;
    }
    var checks := [Check(StockLocate, ExtractField(word, DecoderField(StockLocate)), e.locate),
                   Check(Orn, ExtractField(word, DecoderField(Orn)), e.orderRef)];
    var shares := Check(SharesField, ExtractField(word, DecoderField(SharesField)), NoneToZero(e.shares));
    var price := Check(PriceField, ExtractField(word, DecoderField(PriceField)), NoneToZero(e.price));
    match e.op {
      case Add =>
        if e.side == Unknown {
          return InvalidSide;
        }
        var side := Check(SideBit, ExtractField(word, DecoderField(SideBit)), if e.side == Buy then 1 else 0);
        checks := checks + [side, price, shares];
      case Execute => checks := checks + [shares];
      case Cancel => checks := checks + [shares];
      case Delete =>
      case Replace =>
        var updated := Check(UpdatedOrn, ExtractField(word, DecoderField(UpdatedOrn)), NoneToZero(e.newOrderRef));
        checks := checks + [updated, price, shares];
    }
    assert |checks| == |Compared(e.op)|;
    for k := 0 to |checks|
      invariant forall j :: 0 <= j < |checks| ==> checks[j].name == Compared(e.op)[j]
      invariant forall j :: 0 <= j < |checks| ==>
        (checks[j].actual == checks[j].expected) == FieldAgrees(word, e, checks[j].name)
      invariant forall j :: 0 <= j < k ==> FieldAgrees(word, e, Compared(e.op)[j])
    {
      if checks[k].actual != checks[k].expected {
        return FieldMismatch(checks[k].name);
      }
    }
    verdict := Pass;
  }

  /** What the scoreboard accepts for a valid event, said through the event's own packing. */
  ghost predicate Accepts(word: nat, e: Event) {
    && MessageTypeMatchesOp(ExtractField(word, DecoderField(MessageType)), e.op)
    && forall name :: name in Compared(e.op) ==> FieldAgrees(word, e, name)
  }

  /** Every event's own packing is accepted, and nothing else that differs from it on a compared field. */
  lemma AcceptedExactly(word: nat, e: Event)
    ensures PackDecoderData(e).Ok? && Accepts(PackDecoderData(e).value, e)
    ensures Accepts(word, e) <==>
      && MessageTypeMatchesOp(ExtractField(word, DecoderField(MessageType)), e.op)
      && forall name :: name in Compared(e.op) ==>
           ExtractField(word, DecoderField(name)) == ExtractField(PackDecoderData(e).value, DecoderField(name))
  {
    hide ExtractField, PackDecoderData, Shl, InRange;
    EventsPack(e);
  }

  /** The place of a field in the order of comparison, whatever the operation. */
  function Rank(name: FieldName): nat {
    match name
    case MessageType => 0
    case StockLocate => 1
    case Orn => 2
    case SideBit => 3
    case UpdatedOrn => 4
    case PriceField => 5
    case SharesField => 6
  }

  /** Which fields an operation is compared on, and that the first disagreement is the lowest in rank. */
  lemma ComparedExactly(op: Op)
    ensures forall j, k :: 0 <= j < k < |Compared(op)| ==> Rank(Compared(op)[j]) < Rank(Compared(op)[k])
    ensures forall name :: name in Compared(op) <==>
      || name == StockLocate || name == Orn
      || (op == Add && name in {SideBit, PriceField, SharesField})
      || ((op == Execute || op == Cancel) && name == SharesField)
      || (op == Replace && name in {UpdatedOrn, PriceField, SharesField})
  {
  }

  /** Which words the scoreboard accepts for an event, bit position by bit position. */
  lemma AcceptsBits(word: nat, e: Event)
    ensures Accepts(word, e) <==>
      var messageType, (updated, side, shares, price) := ExtractField(word, Field(209, 8)), BodyBits(e);
      && ExtractField(word, Field(193, 16)) == e.locate && ExtractField(word, Field(129, 64)) == e.orderRef
      && match e.op
         case Add =>
           && messageType in {0x41, 0x46} && ExtractField(word, Field(64, 1)) == side
           && ExtractField(word, Field(0, 32)) == price && ExtractField(word, Field(32, 32)) == shares
         case Execute => messageType in {0x45, 0x43} && ExtractField(word, Field(32, 32)) == shares
         case Cancel => messageType == 0x58 && ExtractField(word, Field(32, 32)) == shares
         case Delete => messageType == 0x44
         case Replace =>
           && messageType == 0x55 && ExtractField(word, Field(65, 64)) == updated
           && ExtractField(word, Field(0, 32)) == price && ExtractField(word, Field(32, 32)) == shares
  {
    hide ExtractField;
    if Accepts(word, e) {
      assert forall name :: name in Compared(e.op) ==> FieldAgrees(word, e, name);
      assert StockLocate in Compared(e.op) && Orn in Compared(e.op);
      assert e.op == Add ==> SideBit in Compared(e.op);
      assert e.op == Replace ==> UpdatedOrn in Compared(e.op);
      assert e.op == Add || e.op == Replace ==> PriceField in Compared(e.op);
      assert e.op != Delete ==> SharesField in Compared(e.op);
    }
  }

  /** The type byte of a decodable payload belongs to the operation the golden parser finds, and to no other. */
  lemma TypesFollowParser(payload: Bytes.ByteString, msgIndex: nat, op: Op)
    requires ItchParser.ParseItchMessage(payload, msgIndex).Ok?
    requires ItchParser.ParseItchMessage(payload, msgIndex).value.Some?
    ensures payload != []
    ensures MessageTypeMatchesOp(payload[0], op)
       <==> op == ItchParser.ParseItchMessage(payload, msgIndex).value.value.op
  {
  }
}
