/** Encapsulate then recover: what comes back, and how a receiver restores the source from it. */
module Recovery {
  import opened Wrappers
  import opened Bytes
  import opened BinaryFile
  import opened MoldUdp
  import opened WireFrames
  import opened FramePlans

  // ----- the recovery loop

  /** The messages of already-split frames, then whatever stopped the splitting. */
  function RecoverFrames(frames: seq<ByteString>, splitError: Option<NetworkError>, first: nat): Output<Recovered>
    requires forall f :: f in frames ==> WellFramed(f)
  {
    if frames == [] then Output([], splitError)
    else
      var here := FrameMessages(frames[0], first);
      if here.error.Some? then here
      else
        var rest := RecoverFrames(frames[1..], splitError, first + 1);
        Output(here.items + rest.items, rest.error)
  }

  lemma {:induction false} RecoverSplits(data: ByteString, first: nat)
    ensures var split := EthernetFrames(data);
      && (forall f :: f in split.items ==> WellFramed(f))
      && RecoverFrom(data, first) == RecoverFrames(split.items, split.error, first)
    decreases |data|
  {
    hide FirstFrame, WellFramed, FrameMessages;
    if data != [] && FirstFrame(data).Ok? {
      var length := FirstFrame(data).value;
      FirstFrameWellFramed(data);
      RecoverSplits(data[length..], first + 1);
      var rest := EthernetFrames(data[length..]);
      assert EthernetFrames(data).items == [data[..length]] + rest.items;
      assert ([data[..length]] + rest.items)[1..] == rest.items;
    }
  }

  /** The loop that takes one frame after another apart. */
  method RecoverItchPayloads(data: ByteString) returns (messages: seq<Recovered>, error: Option<NetworkError>)
    ensures Output(messages, error) == RecoverFrom(data, 0)
  {
    var frames, splitError := IterEthernetFrames(data);
    RecoverSplits(data, 0);
    messages, error := RecoverEach(frames, splitError);
  }

  method RecoverEach(frames: seq<ByteString>, splitError: Option<NetworkError>)
    returns (messages: seq<Recovered>, error: Option<NetworkError>)
    requires forall f :: f in frames ==> WellFramed(f)
    ensures Output(messages, error) == RecoverFrames(frames, splitError, 0)
  {
    hide WellFramed, UdpPayload, MoldMessages;
    messages, error := [], None;
    ghost var whole := RecoverFrames(frames, splitError, 0);
    ghost var rest := whole;
    assert frames[0..] == frames;
    for i := 0 to |frames|
      invariant rest == RecoverFrames(frames[i..], splitError, i)
      invariant whole == Output(messages + rest.items, rest.error)
    {
      assert frames[i] in frames;
      assert frames[i..][1..] == frames[i + 1..];
      var packet := UdpPayload(frames[i]);
      if packet.Err? {
        return messages, Some(packet.error);
      }
      var found: seq<Recovered>;
      found, error := IterMoldMessages(packet.value, i);
      if error.Some? {
        return messages + found, error;
      }
      rest := RecoverFrames(frames[i + 1..], splitError, i + 1);
      assert messages + (found + rest.items) == messages + found + rest.items;
      messages := messages + found;
    }
    error := splitError;
  }

  // ----- what a sequence of plans carries

  /** The messages one plan's frame carries. */
  function PlanItems(plan: FramePlan, frameIndex: nat): seq<Recovered> {
    if CarriesMessages(plan.count) then Numbered(frameIndex, plan.seqNumber, 0, Payloads(plan.messages)) else []
  }

  function Carried(plans: seq<FramePlan>, first: nat): seq<Recovered> {
    if plans == [] then [] else PlanItems(plans[0], first) + Carried(plans[1..], first + 1)
  }

  /** A plan that announces messages announces exactly the ones it has. */
  predicate WellCounted(plan: FramePlan) {
    CarriesMessages(plan.count) ==> plan.count == |plan.messages|
  }

  predicate AllCounted(plans: seq<FramePlan>) {
    forall p :: p in plans ==> WellCounted(p)
  }

  function Flat(plans: seq<FramePlan>, session: ByteString, o: PacketOptions): ByteString
    requires AllFit(plans) && |session| == SESSION_LENGTH && o.Valid()
  {
    if plans == [] then [] else PlanFrame(plans[0], session, o) + Flat(plans[1..], session, o)
  }

  lemma {:induction false} FlatSnoc(plans: seq<FramePlan>, session: ByteString, o: PacketOptions)
    requires plans != [] && AllFit(plans) && |session| == SESSION_LENGTH && o.Valid()
    ensures Flat(plans, session, o)
         == Flat(plans[..|plans| - 1], session, o) + PlanFrame(plans[|plans| - 1], session, o)
  {
    hide PlanFrame, PlanFits;
    if |plans| > 1 {
      FlatSnoc(plans[1..], session, o);
      assert plans[1..][..|plans| - 2] == plans[..|plans| - 1][1..];
    } else {
      assert plans[1..] == [] && plans[..0] == [];
    }
  }

  lemma {:induction false} SinkFrames(plans: seq<FramePlan>, session: ByteString, o: PacketOptions)
    requires AllFit(plans) && |session| == SESSION_LENGTH && o.Valid()
    ensures SinkOf(plans, session, o).frames == Flat(plans, session, o)
  {
    hide PlanFrame, PlanFits;
    if plans != [] {
      SinkFrames(plans[..|plans| - 1], session, o);
      FlatSnoc(plans, session, o);
    }
  }

  lemma FrameCarries(plan: FramePlan, session: ByteString, o: PacketOptions, frameIndex: nat)
    requires PlanFits(plan) && WellCounted(plan) && |session| == SESSION_LENGTH && o.Valid()
    ensures var f := PlanFrame(plan, session, o);
      WellFramed(f) && FrameMessages(f, frameIndex) == Output(PlanItems(plan, frameIndex), None)
  {
    hide WireFrame, MoldPayload, MoldMessages, WellFramed, UdpPayload, LengthFits;
    FieldWidths();
    BuiltFrame(PlanPacket(plan, session), o.srcPort, o.dstPort);
    PacketRoundTrip(session, plan.seqNumber, plan.count, Payloads(plan.messages), frameIndex);
  }

  /** Frames written one after another are recovered one after another. */
  lemma {:induction false} FlatCarries(plans: seq<FramePlan>, session: ByteString, o: PacketOptions, first: nat)
    requires AllFit(plans) && AllCounted(plans) && |session| == SESSION_LENGTH && o.Valid()
    ensures RecoverFrom(Flat(plans, session, o), first) == Output(Carried(plans, first), None)
  {
    hide FirstFrame, FrameMessages, PlanFrame, PlanItems, WellFramed, PlanFits, WellCounted;
    if plans != [] {
      var f := PlanFrame(plans[0], session, o);
      FrameCarries(plans[0], session, o, first);
      FlatCarries(plans[1..], session, o, first + 1);
      FirstFrameThen(f, Flat(plans[1..], session, o));
      WellFramedNonEmpty(f);
    }
  }

  lemma WellFramedNonEmpty(frame: ByteString)
    requires WellFramed(frame)
    ensures frame != []
  {
  }

  // ----- the recovered payloads

  function CopyCount(o: PacketOptions, index: nat): nat {
    if o.dropFrame == Some(index) then 0
    else 1 + (if o.abDuplicate then 1 else 0) + (if o.duplicateFrame == Some(index) then 1 else 0)
  }

  function Repeat(payloads: seq<ByteString>, n: nat): seq<ByteString> {
    if n == 0 then [] else payloads + Repeat(payloads, n - 1)
  }

  /** The source payloads chunk by chunk, each chunk as often as its frame was sent. */
  function SentPayloads(records: seq<Record>, o: PacketOptions, index: nat): seq<ByteString>
    requires o.Valid()
    decreases |records|
  {
    if records == [] then []
    else
      var n := Least(o.messagesPerPacket, |records|);
      Repeat(Payloads(records[..n]), CopyCount(o, index)) + SentPayloads(records[n..], o, index + 1)
  }

  function PayloadsOf(items: seq<Recovered>): seq<ByteString> {
    seq(|items|, k requires 0 <= k < |items| => items[k].payload)
  }

  lemma PayloadsOfAppend(a: seq<Recovered>, b: seq<Recovered>)
    ensures PayloadsOf(a + b) == PayloadsOf(a) + PayloadsOf(b)
  {
  }

  lemma {:induction false} WrittenAppend(a: seq<FramePlan>, b: seq<FramePlan>, o: PacketOptions)
    ensures Written(a + b, o) == Written(a, o) + Written(b, o)
  {
    hide Copies;
    if b == [] {
      assert a + b == a;
    } else {
      WrittenAppend(a, b[..|b| - 1], o);
      assert (a + b)[..|a + b| - 1] == a + b[..|b| - 1];
    }
  }

  lemma WrittenCons(plan: FramePlan, rest: seq<FramePlan>, o: PacketOptions)
    ensures Written([plan] + rest, o) == Copies(plan, o) + Written(rest, o)
  {
    hide Copies;
    WrittenAppend([plan], rest, o);
    assert [plan][..0] == [];
    assert Written([plan], o) == Copies(plan, o);
  }

  lemma {:induction false} CarriedAppend(a: seq<FramePlan>, b: seq<FramePlan>, first: nat)
    ensures Carried(a + b, first) == Carried(a, first) + Carried(b, first + |a|)
  {
    hide PlanItems;
    if a == [] {
      assert a + b == b;
    } else {
      CarriedAppend(a[1..], b, first + 1);
      assert (a + b)[1..] == a[1..] + b;
    }
  }

  /** The copies of a data plan carry its payloads once each. */
  lemma CopiesCarry(index: nat, seqNumber: nat, messages: seq<Record>, o: PacketOptions, first: nat)
    requires CarriesMessages(|messages|)
    ensures var copies := Copies(DataPlan(index, seqNumber, messages), o);
      && |copies| == CopyCount(o, index)
      && PayloadsOf(Carried(copies, first)) == Repeat(Payloads(messages), CopyCount(o, index))
      && forall c :: c in copies ==> c.seqNumber == seqNumber && c.messages == messages && c.count == |messages|
  {
    CopiesRepeat(Copies(DataPlan(index, seqNumber, messages), o), messages, first);
  }

  lemma {:induction false} CopiesRepeat(copies: seq<FramePlan>, messages: seq<Record>, first: nat)
    requires CarriesMessages(|messages|)
    requires forall c :: c in copies ==> c.count == |messages| && c.messages == messages
    ensures PayloadsOf(Carried(copies, first)) == Repeat(Payloads(messages), |copies|)
  {
    if copies != [] {
      CopiesRepeat(copies[1..], messages, first + 1);
      PayloadsOfAppend(PlanItems(copies[0], first), Carried(copies[1..], first + 1));
      assert PayloadsOf(PlanItems(copies[0], first)) == Payloads(messages);
    }
  }

  lemma {:induction false} DataPayloads(records: seq<Record>, o: PacketOptions, seqNumber: nat, index: nat, first: nat)
    requires o.Valid()
    ensures PayloadsOf(Carried(Written(DataPlans(records, o.messagesPerPacket, seqNumber, index), o), first))
         == SentPayloads(records, o, index)
    decreases |records|
  {
    hide Copies, Carried, Repeat;
    if records == [] {
      NothingCarried(first);
    } else {
      var n := Least(o.messagesPerPacket, |records|);
      var plan := DataPlan(index, seqNumber, records[..n]);
      var rest := DataPlans(records[n..], o.messagesPerPacket, seqNumber + n, index + 1);
      var copies := Copies(plan, o);
      WrittenCons(plan, rest, o);
      CopiesCarry(index, seqNumber, records[..n], o, first);
      DataPayloads(records[n..], o, seqNumber + n, index + 1, first + |copies|);
      CarriedAppend(copies, Written(rest, o), first);
      PayloadsOfAppend(Carried(copies, first), Carried(Written(rest, o), first + |copies|));
    }
  }

  lemma NothingCarried(first: nat)
    ensures Carried([], first) == []
  {
  }

  predicate AllSilent(plans: seq<FramePlan>) {
    forall p :: p in plans ==> !CarriesMessages(p.count)
  }

  lemma {:induction false} SilentCarry(plans: seq<FramePlan>, first: nat)
    requires AllSilent(plans)
    ensures Carried(plans, first) == []
  {
    if plans != [] {
      SilentCarry(plans[1..], first + 1);
    }
  }

  lemma {:induction false} SilentWritten(plans: seq<FramePlan>, o: PacketOptions)
    requires AllSilent(plans)
    ensures AllSilent(Written(plans, o))
  {
    if plans != [] {
      SilentWritten(plans[..|plans| - 1], o);
      assert plans[|plans| - 1] in plans;
    }
  }

  /** Heartbeats and the end of session carry nothing, however often they are written. */
  lemma TailCarriesNothing(o: PacketOptions, seqNumber: nat, first: nat)
    ensures AllSilent(Written(TailPlans(o, seqNumber), o))
    ensures Carried(Written(TailPlans(o, seqNumber), o), first) == []
  {
    SilentWritten(TailPlans(o, seqNumber), o);
    SilentCarry(Written(TailPlans(o, seqNumber), o), first);
  }

  lemma {:induction false} DataCounted(records: seq<Record>, o: PacketOptions, seqNumber: nat, index: nat)
    requires o.Valid()
    ensures AllCounted(Written(DataPlans(records, o.messagesPerPacket, seqNumber, index), o))
    decreases |records|
  {
    hide Copies, Carried, Repeat, AllCounted, Written, Payloads;
    if records == [] {
      NothingCounted(o);
    } else {
      var n := Least(o.messagesPerPacket, |records|);
      var plan := DataPlan(index, seqNumber, records[..n]);
      var rest := DataPlans(records[n..], o.messagesPerPacket, seqNumber + n, index + 1);
      DataCounted(records[n..], o, seqNumber + n, index + 1);
      CopiesCounted(index, seqNumber, records[..n], o);
      CountedAppend(Copies(plan, o), Written(rest, o));
      WrittenCons(plan, rest, o);
    }
  }

  lemma NothingCounted(o: PacketOptions)
    ensures AllCounted(Written([], o))
  {
  }

  lemma CopiesCounted(index: nat, seqNumber: nat, messages: seq<Record>, o: PacketOptions)
    ensures AllCounted(Copies(DataPlan(index, seqNumber, messages), o))
  {
  }

  lemma CountedAppend(a: seq<FramePlan>, b: seq<FramePlan>)
    requires AllCounted(a) && AllCounted(b)
    ensures AllCounted(a + b)
  {
  }

  /** Everything written, frame by frame: the data frames' messages and nothing else. */
  lemma AllCarried(records: seq<Record>, o: PacketOptions)
    requires o.Valid()
    ensures var wire := Written(Plans(records, o), o);
      && AllCounted(wire)
      && Carried(wire, 0) == Carried(Written(DataPlans(records, o.messagesPerPacket, o.seqStart, 0), o), 0)
  {
    hide DataPlans, TailPlans, Written, Carried;
    var data, tail := DataPlans(records, o.messagesPerPacket, o.seqStart, 0), TailPlans(o, o.seqStart + |records|);
    WrittenAppend(data, tail, o);
    DataCounted(records, o, o.seqStart, 0);
    TailCarriesNothing(o, o.seqStart + |records|, |Written(data, o)|);
    CarriedAppend(Written(data, o), Written(tail, o), 0);
  }

  /**
    Whatever the encapsulator accepts, recovery returns without error, and the payloads it
    returns are the source's, chunk by chunk: the dropped chunk missing, the copied chunks
    repeated in place, everything else once.
    */
  lemma EncapsulateThenRecover(records: seq<Record>, o: PacketOptions, session: ByteString)
    requires Refusal(Yielded(records, None), o, session) == None
    ensures var sink := SinkOf(Written(Plans(records, o), o), PaddedSession(session), o);
      var recovered := RecoverFrom(sink.frames, 0);
      && recovered == Output(Carried(Written(Plans(records, o), o), 0), None)
      && PayloadsOf(recovered.items) == SentPayloads(records, o, 0)
  {
    hide SinkOf, Written, Plans, RecoverFrom, Carried, FrameExists, SentPayloads;
    var wire := Written(Plans(records, o), o);
    AllCarried(records, o);
    SinkFrames(wire, PaddedSession(session), o);
    FlatCarries(wire, PaddedSession(session), o, 0);
    DataPayloads(records, o, o.seqStart, 0, 0);
  }

  // ----- sequence numbers

  /** The number a receiver computes for a message. */
  function Number(m: Recovered): nat {
    m.seqNumber + m.messageNumber
  }

  /** Every message is numbered by its position in the source, counted from the starting number. */
  predicate NumberedBySource(items: seq<Recovered>, records: seq<Record>, start: nat) {
    forall k :: 0 <= k < |items| ==>
      && start <= Number(items[k]) < start + |records|
      && items[k].payload == records[Number(items[k]) - start].payload
  }

  lemma NumberedAppend(a: seq<Recovered>, b: seq<Recovered>, records: seq<Record>, start: nat)
    requires NumberedBySource(a, records, start) && NumberedBySource(b, records, start)
    ensures NumberedBySource(a + b, records, start)
  {
  }

  lemma {:induction false} CopiesNumbered(copies: seq<FramePlan>, seqNumber: nat, messages: seq<Record>, first: nat)
    requires forall c :: c in copies ==> c.seqNumber == seqNumber && c.messages == messages
    ensures NumberedBySource(Carried(copies, first), messages, seqNumber)
  {
    if copies != [] {
      CopiesNumbered(copies[1..], seqNumber, messages, first + 1);
      NumberedAppend(PlanItems(copies[0], first), Carried(copies[1..], first + 1), messages, seqNumber);
    }
  }

  lemma NumberedWithin(items: seq<Recovered>, records: seq<Record>, start: nat, lo: nat, hi: nat)
    requires lo <= hi <= |records| && NumberedBySource(items, records[lo..hi], start + lo)
    ensures NumberedBySource(items, records, start)
  {
  }

  lemma NumberedTwo(a: seq<Recovered>, b: seq<Recovered>, records: seq<Record>, n: nat, start: nat)
    requires n <= |records|
    requires NumberedBySource(a, records[..n], start) && NumberedBySource(b, records[n..], start + n)
    ensures NumberedBySource(a + b, records, start)
  {
    hide NumberedBySource;
    assert records[0..n] == records[..n] && records[n..|records|] == records[n..];
    NumberedWithin(a, records, start, 0, n);
    NumberedWithin(b, records, start, n, |records|);
    NumberedAppend(a, b, records, start);
  }

  lemma {:induction false} DataNumbered(records: seq<Record>, o: PacketOptions, seqNumber: nat, index: nat, first: nat)
    requires o.Valid()
    ensures NumberedBySource(Carried(Written(DataPlans(records, o.messagesPerPacket, seqNumber, index), o), first),
                             records, seqNumber)
    decreases |records|
  {
    hide Copies, Carried, NumberedBySource;
    if records == [] {
      NothingCarried(first);
      NothingNumbered(seqNumber);
    } else {
      var n := Least(o.messagesPerPacket, |records|);
      var copies := Copies(DataPlan(index, seqNumber, records[..n]), o);
      var rest := DataPlans(records[n..], o.messagesPerPacket, seqNumber + n, index + 1);
      ChunkCarried(records, o, seqNumber, index, first);
      CopiesCarry(index, seqNumber, records[..n], o, first);
      CopiesNumbered(copies, seqNumber, records[..n], first);
      DataNumbered(records[n..], o, seqNumber + n, index + 1, first + |copies|);
      NumberedTwo(Carried(copies, first), Carried(Written(rest, o), first + |copies|), records, n, seqNumber);
    }
  }

  /** The data frames carry what the copies of the first chunk carry, then what the rest carries. */
  lemma ChunkCarried(records: seq<Record>, o: PacketOptions, seqNumber: nat, index: nat, first: nat)
    requires o.Valid() && records != []
    ensures var n := Least(o.messagesPerPacket, |records|);
      var copies := Copies(DataPlan(index, seqNumber, records[..n]), o);
      var rest := DataPlans(records[n..], o.messagesPerPacket, seqNumber + n, index + 1);
      Carried(Written(DataPlans(records, o.messagesPerPacket, seqNumber, index), o), first)
      == Carried(copies, first) + Carried(Written(rest, o), first + |copies|)
  {
    hide Copies, Carried;
    var n := Least(o.messagesPerPacket, |records|);
    var plan := DataPlan(index, seqNumber, records[..n]);
    var rest := DataPlans(records[n..], o.messagesPerPacket, seqNumber + n, index + 1);
    WrittenCons(plan, rest, o);
    CarriedAppend(Copies(plan, o), Written(rest, o), first);
  }

  lemma NothingNumbered(start: nat)
    ensures NumberedBySource([], [], start)
  {
  }

  // ----- restoring the source from what was received

  /** What a receiver keeps that discards every number it has seen before. */
  function FirstCopies(items: seq<Recovered>): seq<Recovered> {
    if items == [] then []
    else
      var earlier, last := items[..|items| - 1], items[|items| - 1];
      FirstCopies(earlier) + if Number(last) in Numbers(earlier) then [] else [last]
  }

  function Numbers(items: seq<Recovered>): set<nat> {
    set m | m in items :: Number(m)
  }

  /** A numbered payload, the part of a recovered message that does not depend on its frame. */
  function Pairs(items: seq<Recovered>): seq<(nat, ByteString)> {
    seq(|items|, k requires 0 <= k < |items| => (Number(items[k]), items[k].payload))
  }

  /** Source records numbered from some starting number. */
  function SourcePairs(records: seq<Record>, start: nat): seq<(nat, ByteString)> {
    seq(|records|, k requires 0 <= k < |records| => (start + k, records[k].payload))
  }

  lemma FirstCopiesSnoc(items: seq<Recovered>, m: Recovered)
    ensures FirstCopies(items + [m]) == FirstCopies(items) + if Number(m) in Numbers(items) then [] else [m]
  {
    assert (items + [m])[..|items|] == items;
  }

  /** Items whose numbers are all new are kept after whatever is kept of the earlier ones. */
  lemma {:induction false} FirstOfFresh(a: seq<Recovered>, b: seq<Recovered>)
    requires Numbers(a) !! Numbers(b)
    ensures FirstCopies(a + b) == FirstCopies(a) + FirstCopies(b)
  {
    hide FirstCopies, Numbers, Number;
    if b == [] {
      NothingFirst(b);
      assert a + b == a;
    } else {
      var b', last := b[..|b| - 1], b[|b| - 1];
      LastNumber(b);
      NumbersAppend(a, b');
      FirstOfFresh(a, b');
      FirstCopiesSnoc(b', last);
      FirstCopiesSnoc(a + b', last);
      assert b == b' + [last] && a + b == (a + b') + [last];
    }
  }

  lemma NothingFirst(items: seq<Recovered>)
    requires items == []
    ensures FirstCopies(items) == []
  {
  }

  lemma LastNumber(b: seq<Recovered>)
    requires b != []
    ensures Number(b[|b| - 1]) in Numbers(b) && Numbers(b[..|b| - 1]) <= Numbers(b)
  {
    assert b[|b| - 1] in b;
  }

  lemma NumbersAppend(a: seq<Recovered>, b: seq<Recovered>)
    ensures Numbers(a + b) == Numbers(a) + Numbers(b)
  {
  }

  /** Items whose numbers have all been seen before add nothing. */
  lemma {:induction false} FirstOfStale(a: seq<Recovered>, b: seq<Recovered>)
    requires Numbers(b) <= Numbers(a)
    ensures FirstCopies(a + b) == FirstCopies(a)
  {
    if b == [] {
      assert a + b == a;
    } else {
      var b', last := b[..|b| - 1], b[|b| - 1];
      assert b == b' + [last];
      NumbersAppend(b', [last]);
      NumbersAppend(a, b');
      assert last in b;
      FirstOfStale(a, b');
      assert (a + b)[..|a + b| - 1] == a + b';
    }
  }

  lemma FrameRange(items: seq<Recovered>, frameIndex: nat, seqNumber: nat, payloads: seq<ByteString>)
    requires items == Numbered(frameIndex, seqNumber, 0, payloads)
    ensures forall n :: n in Numbers(items) ==> seqNumber <= n < seqNumber + |payloads|
  {
  }

  /** One frame's messages have distinct numbers. */
  lemma {:induction false} FirstOfFrame(items: seq<Recovered>, frameIndex: nat, seqNumber: nat,
                                        payloads: seq<ByteString>)
    requires items == Numbered(frameIndex, seqNumber, 0, payloads)
    ensures FirstCopies(items) == items
  {
    hide Numbers;
    if payloads != [] {
      var earlier, last := items[..|items| - 1], items[|items| - 1];
      var payloads' := payloads[..|payloads| - 1];
      assert earlier == Numbered(frameIndex, seqNumber, 0, payloads');
      FirstOfFrame(earlier, frameIndex, seqNumber, payloads');
      FrameRange(earlier, frameIndex, seqNumber, payloads');
      assert Number(last) !in Numbers(earlier);
    }
  }

  lemma FramePairs(frameIndex: nat, seqNumber: nat, messages: seq<Record>)
    ensures Pairs(Numbered(frameIndex, seqNumber, 0, Payloads(messages))) == SourcePairs(messages, seqNumber)
  {
  }

  lemma {:induction false} SameNumbers(copies: seq<FramePlan>, seqNumber: nat, messages: seq<Record>, first: nat,
                                       frameIndex: nat)
    requires CarriesMessages(|messages|)
    requires forall c :: c in copies ==> c.seqNumber == seqNumber && c.messages == messages && c.count == |messages|
    ensures Numbers(Carried(copies, first)) <= Numbers(Numbered(frameIndex, seqNumber, 0, Payloads(messages)))
  {
    if copies != [] {
      SameNumbers(copies[1..], seqNumber, messages, first + 1, frameIndex);
      NumbersAppend(PlanItems(copies[0], first), Carried(copies[1..], first + 1));
      NumbersOfFrame(first, frameIndex, seqNumber, Payloads(messages));
    }
  }

  lemma NumbersOfFrame(first: nat, frameIndex: nat, seqNumber: nat, payloads: seq<ByteString>)
    ensures Numbers(Numbered(first, seqNumber, 0, payloads)) <= Numbers(Numbered(frameIndex, seqNumber, 0, payloads))
  {
    var a, b := Numbered(first, seqNumber, 0, payloads), Numbered(frameIndex, seqNumber, 0, payloads);
    forall n | n in Numbers(a) ensures n in Numbers(b) {
      var k :| 0 <= k < |a| && Number(a[k]) == n;
      assert b[k] in b && Number(b[k]) == n;
    }
  }

  /** Of the copies of one plan exactly the first is kept. */
  lemma FirstOfCopies(index: nat, seqNumber: nat, messages: seq<Record>, o: PacketOptions, first: nat)
    requires CarriesMessages(|messages|)
    ensures var items := Carried(Copies(DataPlan(index, seqNumber, messages), o), first);
      && Pairs(FirstCopies(items)) == (if CopyCount(o, index) == 0 then [] else SourcePairs(messages, seqNumber))
      && forall n :: n in Numbers(items) ==> seqNumber <= n < seqNumber + |messages|
  {
    hide Copies, FirstCopies, Pairs, SourcePairs, Numbers, Numbered;
    CopiesCarry(index, seqNumber, messages, o, first);
    var copies := Copies(DataPlan(index, seqNumber, messages), o);
    if copies == [] {
      NothingKept(first);
    } else {
      var frame := Numbered(first, seqNumber, 0, Payloads(messages));
      assert Carried(copies, first) == frame + Carried(copies[1..], first + 1);
      SameNumbers(copies[1..], seqNumber, messages, first + 1, first);
      FirstOfStale(frame, Carried(copies[1..], first + 1));
      NumbersAppend(frame, Carried(copies[1..], first + 1));
      FirstOfFrame(frame, first, seqNumber, Payloads(messages));
      FrameRange(frame, first, seqNumber, Payloads(messages));
      FramePairs(first, seqNumber, messages);
    }
  }

  lemma NothingKept(first: nat)
    ensures Carried([], first) == [] && Pairs(FirstCopies([])) == [] && Numbers([]) == {}
  {
  }

  /** The source without the records of one chunk, everything keeping its number. */
  function WithoutChunk(records: seq<Record>, perPacket: nat, chunk: int, start: nat): seq<(nat, ByteString)>
    requires perPacket > 0
  {
    if chunk < 0 then SourcePairs(records, start)
    else
      var lo := Least(ChunkStart(chunk, perPacket), |records|);
      WithoutRange(records, lo, Least(lo + perPacket, |records|), start)
  }

  /** Where a chunk starts. */
  function ChunkStart(chunk: nat, perPacket: nat): nat {
    chunk * perPacket
  }

  function WithoutRange(records: seq<Record>, lo: nat, hi: nat, start: nat): seq<(nat, ByteString)>
    requires lo <= hi <= |records|
  {
    SourcePairs(records[..lo], start) + SourcePairs(records[hi..], start + hi)
  }

  lemma SourcePairsSplit(records: seq<Record>, n: nat, start: nat)
    requires n <= |records|
    ensures SourcePairs(records, start) == SourcePairs(records[..n], start) + SourcePairs(records[n..], start + n)
  {
  }

  /** Removing a chunk of the whole is keeping or removing the first chunk and going on with the rest. */
  lemma WithoutChunkStep(records: seq<Record>, perPacket: nat, chunk: int, start: nat)
    requires perPacket > 0 && records != []
    ensures var n := Least(perPacket, |records|);
      WithoutChunk(records, perPacket, chunk, start)
      == (if chunk == 0 then [] else SourcePairs(records[..n], start))
       + WithoutChunk(records[n..], perPacket, chunk - 1, start + n)
  {
    hide SourcePairs, ChunkStart, WithoutRange;
    var n := Least(perPacket, |records|);
    NextChunk(if chunk > 0 then chunk - 1 else 0, perPacket);
    if chunk < 0 {
      SourcePairsSplit(records, n, start);
    } else if chunk == 0 {
      WithoutFirst(records, n, start);
    } else {
      var lo := Least(ChunkStart(chunk, perPacket), |records|);
      WithoutRangeStep(records, n, lo, Least(lo + perPacket, |records|), start);
    }
  }

  lemma WithoutFirst(records: seq<Record>, n: nat, start: nat)
    requires n <= |records|
    ensures WithoutRange(records, 0, n, start) == [] + SourcePairs(records[n..], start + n)
  {
    hide SourcePairs;
    NoSourcePairs(records[..0], start);
  }

  lemma WithoutRangeStep(records: seq<Record>, n: nat, lo: nat, hi: nat, start: nat)
    requires n <= lo <= hi <= |records|
    ensures WithoutRange(records, lo, hi, start)
         == SourcePairs(records[..n], start) + WithoutRange(records[n..], lo - n, hi - n, start + n)
  {
    hide SourcePairs;
    SourcePairsSplit(records[..lo], n, start);
    assert records[..lo][..n] == records[..n];
    assert records[..lo][n..] == records[n..][..lo - n];
    assert records[hi..] == records[n..][hi - n..];
    var x, y := SourcePairs(records[n..][..lo - n], start + n), SourcePairs(records[hi..], start + hi);
    assert SourcePairs(records[..n], start) + x + y == SourcePairs(records[..n], start) + (x + y);
  }

  lemma NextChunk(chunk: nat, perPacket: nat)
    ensures ChunkStart(0, perPacket) == 0
    ensures ChunkStart(chunk + 1, perPacket) == ChunkStart(chunk, perPacket) + perPacket
  {
  }

  lemma NoSourcePairs(records: seq<Record>, start: nat)
    requires records == []
    ensures SourcePairs(records, start) == []
  {
  }

  lemma PairsAppend(a: seq<Recovered>, b: seq<Recovered>)
    ensures Pairs(a + b) == Pairs(a) + Pairs(b)
  {
  }

  /** Which chunk the drop option names, counted from some chunk on. */
  function DroppedChunk(o: PacketOptions, index: nat): int {
    if o.dropFrame.Some? then o.dropFrame.value - index else -1
  }

  /** Messages numbered below a bound and from it on are restored separately. */
  lemma RestoredTwo(a: seq<Recovered>, b: seq<Recovered>, start: nat, n: nat, total: nat)
    requires n <= total
    requires forall m :: m in Numbers(a) ==> start <= m < start + n
    requires forall m :: m in Numbers(b) ==> start + n <= m < start + total
    ensures Pairs(FirstCopies(a + b)) == Pairs(FirstCopies(a)) + Pairs(FirstCopies(b))
    ensures forall m :: m in Numbers(a + b) ==> start <= m < start + total
  {
    hide FirstCopies, Pairs, Numbers;
    FirstOfFresh(a, b);
    NumbersAppend(a, b);
    PairsAppend(FirstCopies(a), FirstCopies(b));
  }

  lemma {:induction false} DataRestored(records: seq<Record>, o: PacketOptions, seqNumber: nat, index: nat, first: nat)
    requires o.Valid()
    ensures var items := Carried(Written(DataPlans(records, o.messagesPerPacket, seqNumber, index), o), first);
      && Pairs(FirstCopies(items)) == WithoutChunk(records, o.messagesPerPacket, DroppedChunk(o, index), seqNumber)
      && forall n :: n in Numbers(items) ==> seqNumber <= n < seqNumber + |records|
    decreases |records|
  {
    hide Copies, Carried, FirstCopies, Pairs, SourcePairs, Numbers, WithoutChunk;
    if records == [] {
      NothingKept(first);
      NothingWithout(o.messagesPerPacket, DroppedChunk(o, index), seqNumber);
    } else {
      var n := Least(o.messagesPerPacket, |records|);
      var copies := Copies(DataPlan(index, seqNumber, records[..n]), o);
      var rest := DataPlans(records[n..], o.messagesPerPacket, seqNumber + n, index + 1);
      var a, b := Carried(copies, first), Carried(Written(rest, o), first + |copies|);
      ChunkCarried(records, o, seqNumber, index, first);
      FirstOfCopies(index, seqNumber, records[..n], o, first);
      DataRestored(records[n..], o, seqNumber + n, index + 1, first + |copies|);
      RestoredTwo(a, b, seqNumber, n, |records|);
      ChunkRestored(records, o, seqNumber, index, Pairs(FirstCopies(a)), Pairs(FirstCopies(b)));
    }
  }

  /** What the first chunk leaves and what the rest leaves make up what the whole leaves. */
  lemma ChunkRestored(records: seq<Record>, o: PacketOptions, seqNumber: nat, index: nat,
                      first: seq<(nat, ByteString)>, rest: seq<(nat, ByteString)>)
    requires o.Valid() && records != []
    requires var n := Least(o.messagesPerPacket, |records|);
      && first == (if CopyCount(o, index) == 0 then [] else SourcePairs(records[..n], seqNumber))
      && rest == WithoutChunk(records[n..], o.messagesPerPacket, DroppedChunk(o, index + 1), seqNumber + n)
    ensures first + rest == WithoutChunk(records, o.messagesPerPacket, DroppedChunk(o, index), seqNumber)
  {
    hide SourcePairs, WithoutChunk;
    var n := Least(o.messagesPerPacket, |records|);
    WithoutChunkStep(records, o.messagesPerPacket, DroppedChunk(o, index), seqNumber);
    if o.dropFrame.None? {
      NoChunkDropped(records[n..], o.messagesPerPacket, seqNumber + n);
    }
  }

  lemma NoChunkDropped(records: seq<Record>, perPacket: nat, start: nat)
    requires perPacket > 0
    ensures WithoutChunk(records, perPacket, -1, start) == WithoutChunk(records, perPacket, -2, start)
  {
  }

  lemma NothingWithout(perPacket: nat, chunk: int, start: nat)
    requires perPacket > 0
    ensures WithoutChunk([], perPacket, chunk, start) == []
  {
  }

  // ----- which numbers are missing

  /** The numbers of numbered payloads. */
  function NumbersOf(pairs: seq<(nat, ByteString)>): set<nat> {
    set p | p in pairs :: p.0
  }

  /** Discarding repeats discards no number. */
  lemma {:induction false} FirstCopiesNumbers(items: seq<Recovered>)
    ensures Numbers(FirstCopies(items)) == Numbers(items)
  {
    if items != [] {
      var earlier, last := items[..|items| - 1], items[|items| - 1];
      FirstCopiesNumbers(earlier);
      NumbersAppend(earlier, [last]);
      assert items == earlier + [last];
      NumbersAppend(FirstCopies(earlier), if Number(last) in Numbers(earlier) then [] else [last]);
      assert Numbers([last]) == {Number(last)};
    }
  }

  lemma PairsKeepNumbers(items: seq<Recovered>)
    ensures NumbersOf(Pairs(items)) == Numbers(items)
  {
    var pairs := Pairs(items);
    forall n | n in Numbers(items) ensures n in NumbersOf(pairs) {
      var k :| 0 <= k < |items| && Number(items[k]) == n;
      assert pairs[k] in pairs;
    }
    forall n | n in NumbersOf(pairs) ensures n in Numbers(items) {
      var k :| 0 <= k < |pairs| && pairs[k].0 == n;
      assert items[k] in items;
    }
  }

  /** The source positions of one chunk. */
  predicate InChunk(position: int, perPacket: nat, chunk: int) {
    chunk >= 0 && ChunkStart(chunk, perPacket) <= position < ChunkStart(chunk, perPacket) + perPacket
  }

  lemma SourceNumbers(records: seq<Record>, start: nat)
    ensures forall n :: n in NumbersOf(SourcePairs(records, start)) <==> start <= n < start + |records|
  {
    var pairs := SourcePairs(records, start);
    forall n | start <= n < start + |records| ensures n in NumbersOf(pairs) {
      assert pairs[n - start] in pairs;
    }
  }

  /** Without a chunk exactly its numbers are missing. */
  lemma WithoutChunkNumbers(records: seq<Record>, perPacket: nat, chunk: int, start: nat)
    requires perPacket > 0
    ensures forall n :: n in NumbersOf(WithoutChunk(records, perPacket, chunk, start))
                   <==> start <= n < start + |records| && !InChunk(n - start, perPacket, chunk)
  {
    hide SourcePairs, NumbersOf;
    if chunk < 0 {
      SourceNumbers(records, start);
    } else {
      var lo := Least(ChunkStart(chunk, perPacket), |records|);
      var hi := Least(lo + perPacket, |records|);
      SourceNumbers(records[..lo], start);
      SourceNumbers(records[hi..], start + hi);
      NumbersOfAppend(SourcePairs(records[..lo], start), SourcePairs(records[hi..], start + hi));
    }
  }

  lemma NumbersOfAppend(a: seq<(nat, ByteString)>, b: seq<(nat, ByteString)>)
    ensures NumbersOf(a + b) == NumbersOf(a) + NumbersOf(b)
  {
  }

  /**
    The receiver's view.  Every recovered message carries the number of its source position;
    keeping the first copy of each number gives back exactly the source in order, without the
    dropped frame's chunk when a frame was dropped and entire otherwise; and the numbers that
    never arrive are exactly those of the dropped chunk.
    */
  lemma SourceRestored(records: seq<Record>, o: PacketOptions, session: ByteString)
    requires Refusal(Yielded(records, None), o, session) == None
    ensures var sink := SinkOf(Written(Plans(records, o), o), PaddedSession(session), o);
      var items := RecoverFrom(sink.frames, 0).items;
      && NumberedBySource(items, records, o.seqStart)
      && Pairs(FirstCopies(items)) == WithoutChunk(records, o.messagesPerPacket, DroppedChunk(o, 0), o.seqStart)
      && forall n :: n in Numbers(items)
             <==> o.seqStart <= n < o.seqStart + |records|
                  && !InChunk(n - o.seqStart, o.messagesPerPacket, DroppedChunk(o, 0))
  {
    hide SinkOf, Written, Plans, RecoverFrom, Carried, FrameExists, FirstCopies, Pairs, WithoutChunk, NumberedBySource;
    hide Numbers, NumbersOf, InChunk;
    EncapsulateThenRecover(records, o, session);
    AllCarried(records, o);
    DataNumbered(records, o, o.seqStart, 0, 0);
    DataRestored(records, o, o.seqStart, 0, 0);
    var items := Carried(Written(DataPlans(records, o.messagesPerPacket, o.seqStart, 0), o), 0);
    FirstCopiesNumbers(items);
    PairsKeepNumbers(FirstCopies(items));
    WithoutChunkNumbers(records, o.messagesPerPacket, DroppedChunk(o, 0), o.seqStart);
  }
}
