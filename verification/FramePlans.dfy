/** Chunking a record file into frame plans, and writing the frames. */
module FramePlans {
  import opened Wrappers
  import opened Bytes
  import opened BinaryFile
  import opened MoldUdp
  import opened WireFrames
  import ItchParser

  datatype Feed = FeedA | FeedB | FeedDup

  datatype FramePlan = FramePlan(
    sourceFrameIndex: Option<nat>,
    seqNumber: nat,
    count: nat,
    messages: seq<Record>,
    heartbeat: bool,
    eos: bool,
    feed: Feed,
    duplicateOf: Option<nat>)
  {
    predicate IsData() {
      !heartbeat && !eos
    }

    function ExpectedNext(): nat {
      if IsData() then seqNumber + count else seqNumber
    }
  }

  datatype PacketOptions = PacketOptions(
    messagesPerPacket: int,
    seqStart: int,
    srcPort: int,
    dstPort: int,
    emitHeartbeat: bool,
    emitEos: bool,
    duplicateFrame: Option<int>,
    dropFrame: Option<int>,
    abDuplicate: bool)
  {
    predicate Valid() {
      && 1 <= messagesPerPacket < EOS_COUNT
      && 0 <= seqStart < 0x1_0000_0000_0000_0000
      && 1 <= srcPort <= 0xFFFF
      && 1 <= dstPort <= 0xFFFF
      && (duplicateFrame.Some? ==> duplicateFrame.value >= 0)
      && (dropFrame.Some? ==> dropFrame.value >= 0)
      && (duplicateFrame.Some? ==> duplicateFrame != dropFrame)
    }
  }

  function Least(a: nat, b: nat): nat {
    if a < b then a else b
  }

  function DataPlan(index: nat, seqNumber: nat, messages: seq<Record>): FramePlan {
    FramePlan(Some(index), seqNumber, |messages|, messages, false, false, FeedA, None)
  }

  /** Consecutive chunks of the records, numbered as frames and as messages. */
  function DataPlans(records: seq<Record>, perPacket: nat, seqNumber: nat, index: nat): seq<FramePlan>
    requires perPacket > 0
    decreases |records|
  {
    if records == [] then []
    else
      var n := Least(perPacket, |records|);
      [DataPlan(index, seqNumber, records[..n])] + DataPlans(records[n..], perPacket, seqNumber + n, index + 1)
  }

  function TailPlans(o: PacketOptions, seqNumber: nat): seq<FramePlan> {
    (if o.emitHeartbeat then [FramePlan(None, seqNumber, 0, [], true, false, FeedA, None)] else [])
    + (if o.emitEos then [FramePlan(None, seqNumber, EOS_COUNT, [], false, true, FeedA, None)] else [])
  }

  function Plans(records: seq<Record>, o: PacketOptions): seq<FramePlan>
    requires o.Valid()
  {
    DataPlans(records, o.messagesPerPacket, o.seqStart, 0) + TailPlans(o, o.seqStart + |records|)
  }

  /** A full group followed by the chunks of the rest is the chunks of both. */
  lemma FullGroup(group: seq<Record>, rest: seq<Record>, perPacket: nat, seqNumber: nat, index: nat)
    requires perPacket > 0 && |group| == perPacket
    ensures DataPlans(group + rest, perPacket, seqNumber, index)
         == [DataPlan(index, seqNumber, group)] + DataPlans(rest, perPacket, seqNumber + perPacket, index + 1)
  {
  }

  lemma LastGroup(group: seq<Record>, perPacket: nat, seqNumber: nat, index: nat)
    requires perPacket > 0 && |group| < perPacket
    ensures DataPlans(group, perPacket, seqNumber, index)
         == if group == [] then [] else [DataPlan(index, seqNumber, group)]
  {
    if group != [] {
      assert group[..|group|] == group && group[|group|..] == [];
    }
  }

  /** The planner's loop over the source records. */
  method BuildFramePlans(records: seq<Record>, o: PacketOptions) returns (plans: seq<FramePlan>)
    requires o.Valid()
    ensures plans == Plans(records, o)
  {
    hide DataPlans;
    plans := [];
    var group: seq<Record> := [];
    var seqNumber, index := o.seqStart, 0;
    ghost var whole := DataPlans(records, o.messagesPerPacket, o.seqStart, 0);
    ghost var rest := whole;
    assert group + records[0..] == records;
    for i := 0 to |records|
      invariant |group| < o.messagesPerPacket
      invariant seqNumber + |group| == o.seqStart + i
      invariant seqNumber >= 0
      invariant rest == DataPlans(group + records[i..], o.messagesPerPacket, seqNumber, index)
      invariant whole == plans + rest
    {
      assert group + [records[i]] + records[i + 1..] == group + records[i..];
      group := group + [records[i]];
      if |group| == o.messagesPerPacket {
        FullGroup(group, records[i + 1..], o.messagesPerPacket, seqNumber, index);
        plans := plans + [DataPlan(index, seqNumber, group)];
        seqNumber, index := seqNumber + |group|, index + 1;
        assert [] + records[i + 1..] == records[i + 1..];
        group := [];
        rest := DataPlans(records[i + 1..], o.messagesPerPacket, seqNumber, index);
      }
    }
    assert group + records[|records|..] == group;
    LastGroup(group, o.messagesPerPacket, seqNumber, index);
    if group != [] {
      plans := plans + [DataPlan(index, seqNumber, group)];
      seqNumber := seqNumber + |group|;
    }
    if o.emitHeartbeat {
      plans := plans + [FramePlan(None, seqNumber, 0, [], true, false, FeedA, None)];
    }
    if o.emitEos {
      plans := plans + [FramePlan(None, seqNumber, EOS_COUNT, [], false, true, FeedA, None)];
    }
  }

  // ----- what is written for each plan

  /** The copies of a plan that reach the wire, in order. */
  function Copies(plan: FramePlan, o: PacketOptions): seq<FramePlan> {
    if Names(o.dropFrame, plan) then []
    else
      [plan]
      + (if o.abDuplicate && plan.IsData() then [plan.(feed := FeedB, duplicateOf := plan.sourceFrameIndex)] else [])
      + (if Names(o.duplicateFrame, plan) then [plan.(feed := FeedDup, duplicateOf := plan.sourceFrameIndex)] else [])
  }

  /** Whether a frame option picks a plan out. */
  predicate Names(frame: Option<int>, plan: FramePlan) {
    frame.Some? && plan.sourceFrameIndex.Some? && plan.sourceFrameIndex.value == frame.value
  }

  function Written(plans: seq<FramePlan>, o: PacketOptions): seq<FramePlan> {
    if plans == [] then [] else Written(plans[..|plans| - 1], o) + Copies(plans[|plans| - 1], o)
  }

  /** Whether every header field of a plan's frame holds its value. */
  predicate PlanFits(plan: FramePlan) {
    && Fits(plan.seqNumber, 8) && Fits(plan.count, 2) && Framable(Payloads(plan.messages))
    && LengthFits(HEADER_LENGTH + |EncodeBinaryFile(Payloads(plan.messages))|)
  }

  function PlanPacket(plan: FramePlan, session: ByteString): (packet: ByteString)
    requires PlanFits(plan) && |session| == SESSION_LENGTH
    ensures LengthFits(|packet|)
  {
    MoldPayload(session, plan.seqNumber, plan.count, Payloads(plan.messages))
  }

  function PlanFrame(plan: FramePlan, session: ByteString, o: PacketOptions): ByteString
    requires PlanFits(plan) && |session| == SESSION_LENGTH && o.Valid()
  {
    FieldWidths();
    WireFrame(PlanPacket(plan, session), o.srcPort, o.dstPort)
  }

  predicate AllFit(plans: seq<FramePlan>) {
    forall p :: p in plans ==> PlanFits(p)
  }

  // ----- the encapsulator

  datatype EncapsulationError =
    | InvalidOptions
    | SessionTooLong
    | BadFile(parseError: ItchParser.ParseError)
    | NoSuchFrame
    | FieldOverflow

  datatype FrameMeta = FrameMeta(frameIndex: nat, plan: FramePlan, frameLength: nat)

  /** What has been written so far, with the running totals. */
  datatype Sink = Sink(frames: ByteString, meta: seq<FrameMeta>, dataFrames: nat, messages: nat)

  datatype EncapsulationStats = EncapsulationStats(
    sourceMessagesSeen: nat,
    framesWritten: nat,
    dataFramesWritten: nat,
    messagesWritten: nat,
    framesDropped: nat,
    finalSeq: nat)

  function PaddedSession(session: ByteString): ByteString
    requires |session| <= SESSION_LENGTH
    ensures |PaddedSession(session)| == SESSION_LENGTH
  {
    session + seq(SESSION_LENGTH - |session|, _ => 32)
  }

  /** What writing some plans, in order, leaves in the sink. */
  function SinkOf(plans: seq<FramePlan>, session: ByteString, o: PacketOptions): Sink
    requires AllFit(plans) && |session| == SESSION_LENGTH && o.Valid()
  {
    if plans == [] then Sink([], [], 0, 0)
    else
      var before, plan := SinkOf(plans[..|plans| - 1], session, o), plans[|plans| - 1];
      var frame := PlanFrame(plan, session, o);
      Sink(before.frames + frame,
           before.meta + [FrameMeta(|before.meta|, plan, |frame|)],
           before.dataFrames + (if plan.IsData() then 1 else 0),
           before.messages + (if plan.IsData() then plan.count else 0))
  }

  predicate FrameExists(plans: seq<FramePlan>, frame: Option<int>) {
    frame.None? || exists k :: 0 <= k < |plans| && Names(frame, plans[k])
  }

  /** Builds and writes one frame, unless some field does not fit. */
  method WriteFrame(sink: Sink, plan: FramePlan, ghost done: seq<FramePlan>, session: ByteString, o: PacketOptions)
    returns (sink': Sink, fits: bool)
    requires AllFit(done) && |session| == SESSION_LENGTH && o.Valid() && sink == SinkOf(done, session, o)
    ensures fits == PlanFits(plan)
    ensures if fits then AllFit(done + [plan]) && sink' == SinkOf(done + [plan], session, o) else sink' == sink
  {
    hide PlanFrame;
    fits := PlanFits(plan);
    sink' := sink;
    if fits {
      var frame := PlanFrame(plan, session, o);
      assert (done + [plan])[..|done|] == done;
      sink' := Sink(sink.frames + frame,
                    sink.meta + [FrameMeta(|sink.meta|, plan, |frame|)],
                    sink.dataFrames + (if plan.IsData() then 1 else 0),
                    sink.messages + (if plan.IsData() then plan.count else 0));
    }
  }

  /** Writes one plan and its copies. */
  method WriteCopies(sink: Sink, plan: FramePlan, ghost done: seq<FramePlan>, session: ByteString, o: PacketOptions)
    returns (sink': Sink, fits: bool)
    requires AllFit(done) && |session| == SESSION_LENGTH && o.Valid() && sink == SinkOf(done, session, o)
    requires !Names(o.dropFrame, plan)
    ensures fits == PlanFits(plan)
    ensures if fits then AllFit(done + Copies(plan, o)) && sink' == SinkOf(done + Copies(plan, o), session, o)
            else sink' == sink
  {
    hide SinkOf, AllFit, PlanFits;
    ghost var sent := done + [plan];
    sink', fits := WriteFrame(sink, plan, done, session, o);
    if !fits {
      return;
    }
    if o.abDuplicate && plan.IsData() {
      var copy := plan.(feed := FeedB, duplicateOf := plan.sourceFrameIndex);
      SameFit(plan, copy);
      var copied: bool;
      sink', copied := WriteFrame(sink', copy, sent, session, o);
      sent := sent + [copy];
    }
    if Names(o.duplicateFrame, plan) {
      var copy := plan.(feed := FeedDup, duplicateOf := plan.sourceFrameIndex);
      SameFit(plan, copy);
      var copied: bool;
      sink', copied := WriteFrame(sink', copy, sent, session, o);
      sent := sent + [copy];
    }
    assert sent == done + Copies(plan, o);
  }

  /** A copy differs from its plan only in labels that are not on the wire. */
  lemma SameFit(plan: FramePlan, copy: FramePlan)
    requires copy == plan.(feed := copy.feed, duplicateOf := copy.duplicateOf)
    ensures PlanFits(copy) == PlanFits(plan)
  {
  }

  /** The encapsulator's loop over the plans; it stops at the first frame that does not fit. */
  method WritePlans(plans: seq<FramePlan>, session: ByteString, o: PacketOptions)
    returns (sink: Sink, dropped: nat, n: nat)
    requires |session| == SESSION_LENGTH && o.Valid()
    ensures n <= |plans| && AllFit(Written(plans[..n], o)) && sink == SinkOf(Written(plans[..n], o), session, o)
    ensures dropped == DroppedCount(plans[..n], o)
    ensures n < |plans| <==> !AllFit(Written(plans, o))
    ensures n < |plans| ==> !PlanFits(plans[n]) && !Names(o.dropFrame, plans[n])
  {
    hide SinkOf, PlanFits, Names;
    sink, dropped := Sink([], [], 0, 0), 0;
    NothingWritten(plans[..0], session, o);
    for i := 0 to |plans|
      invariant AllFit(Written(plans[..i], o))
      invariant sink == SinkOf(Written(plans[..i], o), session, o)
      invariant dropped == DroppedCount(plans[..i], o)
    {
      assert plans[..i + 1][..i] == plans[..i];
      if Names(o.dropFrame, plans[i]) {
        dropped := dropped + 1;
        assert Written(plans[..i + 1], o) == Written(plans[..i], o);
        continue;
      }
      var fits: bool;
      sink, fits := WriteCopies(sink, plans[i], Written(plans[..i], o), session, o);
      if !fits {
        WrittenIncludes(plans, i, o);
        return sink, dropped, i;
      }
    }
    assert plans[..|plans|] == plans;
    n := |plans|;
  }

  function DroppedCount(plans: seq<FramePlan>, o: PacketOptions): nat {
    if plans == [] then 0
    else DroppedCount(plans[..|plans| - 1], o) + if Names(o.dropFrame, plans[|plans| - 1]) then 1 else 0
  }

  lemma NothingWritten(plans: seq<FramePlan>, session: ByteString, o: PacketOptions)
    requires plans == [] && |session| == SESSION_LENGTH && o.Valid()
    ensures Written(plans, o) == [] && AllFit([]) && SinkOf([], session, o) == Sink([], [], 0, 0)
    ensures DroppedCount(plans, o) == 0
  {
  }

  lemma {:induction false} WrittenIncludes(plans: seq<FramePlan>, i: nat, o: PacketOptions)
    requires i < |plans| && !Names(o.dropFrame, plans[i])
    ensures plans[i] in Written(plans, o)
  {
    if i < |plans| - 1 {
      WrittenIncludes(plans[..|plans| - 1], i, o);
    } else {
      assert Copies(plans[i], o)[0] == plans[i];
    }
  }

  // ----- the whole run

  function SourceCount(plans: seq<FramePlan>): nat {
    if plans == [] then 0
    else SourceCount(plans[..|plans| - 1]) + if plans[|plans| - 1].IsData() then plans[|plans| - 1].count else 0
  }

  lemma {:induction false} SourceCountAppend(a: seq<FramePlan>, b: seq<FramePlan>)
    ensures SourceCount(a + b) == SourceCount(a) + SourceCount(b)
  {
    if b == [] {
      assert a + b == a;
    } else {
      SourceCountAppend(a, b[..|b| - 1]);
      assert (a + b)[..|a + b| - 1] == a + b[..|b| - 1];
    }
  }

  /** The data plans account for every record, and the last one ends where the next message would start. */
  lemma {:induction false} DataPlansCover(records: seq<Record>, perPacket: nat, seqNumber: nat, index: nat)
    requires perPacket > 0
    ensures var plans := DataPlans(records, perPacket, seqNumber, index);
      && SourceCount(plans) == |records|
      && (forall k :: 0 <= k < |plans| ==> plans[k].IsData())
      && (records != [] ==> plans != [] && plans[|plans| - 1].ExpectedNext() == seqNumber + |records|)
      && (records == [] ==> plans == [])
    decreases |records|
  {
    if records != [] {
      var n := Least(perPacket, |records|);
      DataPlansCover(records[n..], perPacket, seqNumber + n, index + 1);
      var first := DataPlan(index, seqNumber, records[..n]);
      var rest := DataPlans(records[n..], perPacket, seqNumber + n, index + 1);
      SourceCountAppend([first], rest);
      assert SourceCount([first]) == n by {
        assert [first][..0] == [];
      }
      assert DataPlans(records, perPacket, seqNumber, index) == [first] + rest;
    }
  }

  lemma PlansCover(records: seq<Record>, o: PacketOptions)
    requires o.Valid()
    ensures var plans := Plans(records, o);
      && SourceCount(plans) == |records|
      && (plans == [] ==> records == [])
      && (plans != [] ==> plans[|plans| - 1].ExpectedNext() == o.seqStart + |records|)
  {
    hide DataPlans;
    DataPlansCover(records, o.messagesPerPacket, o.seqStart, 0);
    var data, tail := DataPlans(records, o.messagesPerPacket, o.seqStart, 0), TailPlans(o, o.seqStart + |records|);
    SourceCountAppend(data, tail);
    TailCountsNothing(o, o.seqStart + |records|);
  }

  lemma TailCountsNothing(o: PacketOptions, seqNumber: nat)
    ensures SourceCount(TailPlans(o, seqNumber)) == 0
  {
    var tail := TailPlans(o, seqNumber);
    if |tail| == 2 {
      assert tail[..1][..0] == [];
      assert SourceCount(tail[..1]) == 0;
    }
  }

  /** Why the encapsulator refuses a run, if it does; the first applicable reason counts. */
  function Refusal(read: Yielded<Record>, o: PacketOptions, session: ByteString): Option<EncapsulationError> {
    if !o.Valid() then Some(InvalidOptions)
    else if |session| > SESSION_LENGTH then Some(SessionTooLong)
    else if read.error.Some? then Some(BadFile(read.error.value))
    else
      var plans := Plans(read.items, o);
      if !FrameExists(plans, o.duplicateFrame) || !FrameExists(plans, o.dropFrame) then Some(NoSuchFrame)
      else if !AllFit(Written(plans, o)) then Some(FieldOverflow)
      else None
  }

  /** The first plan that is to be written and does not fit. */
  predicate StopsAt(plans: seq<FramePlan>, n: nat, o: PacketOptions) {
    && n < |plans| && !PlanFits(plans[n]) && !Names(o.dropFrame, plans[n])
    && AllFit(Written(plans[..n], o))
  }

  /** What encapsulating some records leaves in the sink, what it counts and why it fails. */
  predicate Encapsulates(read: Yielded<Record>, o: PacketOptions, session: ByteString,
                         sink: Sink, stats: EncapsulationStats, error: Option<EncapsulationError>) {
    && error == Refusal(read, o, session)
    && match error
       case None =>
         var plans := Plans(read.items, o);
         && sink == SinkOf(Written(plans, o), PaddedSession(session), o)
         && stats == EncapsulationStats(|read.items|, |sink.meta|, sink.dataFrames, sink.messages,
                                        DroppedCount(plans, o), o.seqStart + |read.items|)
       case Some(FieldOverflow) =>
         var plans := Plans(read.items, o);
         exists n ::
           && 0 <= n < |plans| && StopsAt(plans, n, o)
           && sink == SinkOf(Written(plans[..n], o), PaddedSession(session), o)
       case Some(_) => sink == Sink([], [], 0, 0)
  }

  /** There is only one place to stop, so the sink of an overflowing run is determined too. */
  lemma StopUnique(plans: seq<FramePlan>, m: nat, n: nat, o: PacketOptions)
    requires StopsAt(plans, m, o) && StopsAt(plans, n, o)
    ensures m == n
  {
    hide PlanFits, Written, Names;
    if m < n {
      WrittenIncludes(plans[..n], m, o);
    } else if n < m {
      WrittenIncludes(plans[..m], n, o);
    }
  }

  method EncapsulateRecords(records: seq<Record>, readError: Option<ItchParser.ParseError>, o: PacketOptions,
                            session: ByteString)
    returns (sink: Sink, stats: EncapsulationStats, error: Option<EncapsulationError>)
    ensures Encapsulates(Yielded(records, readError), o, session, sink, stats, error)
  {
    hide SinkOf, PlanFits, Written, Names;
    sink := Sink([], [], 0, 0);
    stats := EncapsulationStats(0, 0, 0, 0, 0, 0);
    if !o.Valid() {
      return sink, stats, Some(InvalidOptions);
    }
    if |session| > SESSION_LENGTH {
      return sink, stats, Some(SessionTooLong);
    }
    if readError.Some? {
      return sink, stats, Some(BadFile(readError.value));
    }
    var plans := BuildFramePlans(records, o);
    if !FrameExists(plans, o.duplicateFrame) || !FrameExists(plans, o.dropFrame) {
      return sink, stats, Some(NoSuchFrame);
    }
    var dropped, n;
    sink, dropped, n := WritePlans(plans, PaddedSession(session), o);
    if n < |plans| {
      assert StopsAt(plans, n, o);
      return sink, stats, Some(FieldOverflow);
    }
    assert plans[..|plans|] == plans;
    PlansCover(records, o);
    var finalSeq := if plans == [] then o.seqStart else plans[|plans| - 1].ExpectedNext();
    stats := EncapsulationStats(SourceCount(plans), |sink.meta|, sink.dataFrames, sink.messages, dropped, finalSeq);
    error := None;
  }

  method EncapsulateBytes(data: ByteString, o: PacketOptions, session: ByteString, startIndex: nat,
                          maxMessages: Option<nat>)
    returns (sink: Sink, stats: EncapsulationStats, error: Option<EncapsulationError>)
    ensures Encapsulates(Records(data, startIndex, maxMessages), o, session, sink, stats, error)
  {
    hide Encapsulates;
    var records, readError := ReadBinaryFile(data, startIndex, maxMessages);
    sink, stats, error := EncapsulateRecords(records, readError, o, session);
  }
}
