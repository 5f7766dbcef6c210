/** What an encapsulation run puts on the wire and into its records, said without the planner and the writer. */
module EncapsulationLayout {
  import opened Wrappers
  import opened Bytes
  import opened BinaryFile
  import opened MoldUdp
  import opened WireFrames
  import opened FramePlans
  import opened Recovery
  import opened RoundtripCheck

  // ----- which frames, in which order

  /** The records of one chunk. */
  function Chunk(records: seq<Record>, start: nat, size: nat): seq<Record>
    requires start <= |records|
  {
    if start + size <= |records| then records[start..start + size] else records[start..]
  }

  /** Whether a frame and its labels are those of one data chunk, sent for one of the three reasons. */
  predicate IsDataFrame(p: FramePlan, records: seq<Record>, o: PacketOptions, seqStart: nat, index: nat, j: nat)
    requires o.Valid()
  {
    && !p.heartbeat && !p.eos
    && p.sourceFrameIndex == Some(index + j) && o.dropFrame != Some((index + j) as int)
    && j * o.messagesPerPacket < |records|
    && p.seqNumber == seqStart + j * o.messagesPerPacket
    && p.messages == Chunk(records, j * o.messagesPerPacket, o.messagesPerPacket) && p.count == |p.messages|
    && match p.feed
       case FeedA => p.duplicateOf == None
       case FeedB => o.abDuplicate && p.duplicateOf == Some(index + j)
       case FeedDup => o.duplicateFrame == Some((index + j) as int) && p.duplicateOf == Some(index + j)
  }

  /** Whether a frame belongs to the run: a chunk's, the heartbeat or the end of session. */
  ghost predicate Belongs(p: FramePlan, records: seq<Record>, o: PacketOptions)
    requires o.Valid()
  {
    || (p.sourceFrameIndex.Some? && IsDataFrame(p, records, o, o.seqStart, 0, p.sourceFrameIndex.value))
    || (o.emitHeartbeat && p == FramePlan(None, o.seqStart + |records|, 0, [], true, false, FeedA, None))
    || (o.emitEos && p == FramePlan(None, o.seqStart + |records|, 0xFFFF, [], false, true, FeedA, None))
  }

  /** Chunks in source order, each as A, B and duplicate; then the heartbeat, then the end of session. */
  predicate Before(p: FramePlan, q: FramePlan) {
    || (p.sourceFrameIndex.Some? && q.sourceFrameIndex.None?)
    || (p.heartbeat && q.eos)
    || (p.sourceFrameIndex.Some? && q.sourceFrameIndex.Some?
        && (|| p.sourceFrameIndex.value < q.sourceFrameIndex.value
            || (p.sourceFrameIndex == q.sourceFrameIndex
                && ((p.feed == FeedA && q.feed != FeedA) || (p.feed == FeedB && q.feed == FeedDup)))))
  }

  predicate Ordered(plans: seq<FramePlan>) {
    forall i, j :: 0 <= i < j < |plans| ==> Before(plans[i], plans[j])
  }

  lemma OrderedAppend(a: seq<FramePlan>, b: seq<FramePlan>)
    requires Ordered(a) && Ordered(b) && forall p, q :: p in a && q in b ==> Before(p, q)
    ensures Ordered(a + b)
  {
    hide Before;
  }

  lemma CopiesAreChunk(p: FramePlan, records: seq<Record>, o: PacketOptions, seqNumber: nat, index: nat)
    requires o.Valid() && records != []
    ensures var n := Least(o.messagesPerPacket, |records|);
      p in Copies(DataPlan(index, seqNumber, records[..n]), o) <==> IsDataFrame(p, records, o, seqNumber, index, 0)
  {
    var n := Least(o.messagesPerPacket, |records|);
    assert Chunk(records, 0, o.messagesPerPacket) == records[..n];
    assert 0 * o.messagesPerPacket == 0;
  }

  /** A later chunk of the whole is a chunk of what is left after the first. */
  lemma LaterChunks(p: FramePlan, records: seq<Record>, o: PacketOptions, seqNumber: nat, index: nat, j: nat)
    requires o.Valid() && records != [] && j > 0
    ensures var n := Least(o.messagesPerPacket, |records|);
      IsDataFrame(p, records, o, seqNumber, index, j)
      <==> IsDataFrame(p, records[n..], o, seqNumber + n, index + 1, j - 1)
  {
    hide Chunk;
    NextMultiple(j, o.messagesPerPacket);
    ChunkOfRest(records, (j - 1) * o.messagesPerPacket, o.messagesPerPacket);
  }

  lemma NextMultiple(j: nat, size: nat)
    requires j > 0
    ensures j * size == (j - 1) * size + size >= size
  {
  }

  lemma ChunkOfRest(records: seq<Record>, start: nat, size: nat)
    ensures start + size <= |records| ==> Chunk(records, start + size, size) == Chunk(records[size..], start, size)
  {
  }

  /** The data frames written are exactly the chunks' frames, in order. */
  lemma {:induction false} DataFramesExactly(records: seq<Record>, o: PacketOptions, seqNumber: nat, index: nat)
    requires o.Valid()
    ensures var w := Written(DataPlans(records, o.messagesPerPacket, seqNumber, index), o);
      && Ordered(w)
      && forall p :: p in w <==>
           && p.sourceFrameIndex.Some? && p.sourceFrameIndex.value >= index
           && IsDataFrame(p, records, o, seqNumber, index, p.sourceFrameIndex.value - index)
    decreases |records|
  {
    hide IsDataFrame, Copies, Before, Ordered;
    if records == [] {
      NoDataFrames(records, o, seqNumber, index);
    } else {
      var n := Least(o.messagesPerPacket, |records|);
      var plan := DataPlan(index, seqNumber, records[..n]);
      var rest := DataPlans(records[n..], o.messagesPerPacket, seqNumber + n, index + 1);
      Recovery.WrittenCons(plan, rest, o);
      DataFramesExactly(records[n..], o, seqNumber + n, index + 1);
      CopiesOrdered(index, seqNumber, records[..n], o);
      forall p
        ensures p in Copies(plan, o) + Written(rest, o) <==>
          && p.sourceFrameIndex.Some? && p.sourceFrameIndex.value >= index
          && IsDataFrame(p, records, o, seqNumber, index, p.sourceFrameIndex.value - index)
      {
        CopiesAreChunk(p, records, o, seqNumber, index);
        ChunkIndex(p, records, o, seqNumber, index, 0);
        if p.sourceFrameIndex.Some? && p.sourceFrameIndex.value > index {
          LaterChunks(p, records, o, seqNumber, index, p.sourceFrameIndex.value - index);
        }
      }
      forall p, q | p in Copies(plan, o) && q in Written(rest, o) ensures Before(p, q) {
        CopiesAreChunk(p, records, o, seqNumber, index);
        ChunkIndex(p, records, o, seqNumber, index, 0);
        EarlierChunk(p, q);
      }
      OrderedAppend(Copies(plan, o), Written(rest, o));
    }
  }

  lemma ChunkIndex(p: FramePlan, records: seq<Record>, o: PacketOptions, seqNumber: nat, index: nat, j: nat)
    requires o.Valid()
    ensures IsDataFrame(p, records, o, seqNumber, index, j) ==> p.sourceFrameIndex == Some(index + j)
  {
  }

  lemma EarlierChunk(p: FramePlan, q: FramePlan)
    requires p.sourceFrameIndex.Some? && q.sourceFrameIndex.Some?
    requires p.sourceFrameIndex.value < q.sourceFrameIndex.value
    ensures Before(p, q)
  {
  }

  lemma NoDataFrames(records: seq<Record>, o: PacketOptions, seqNumber: nat, index: nat)
    requires o.Valid() && records == []
    ensures Written(DataPlans(records, o.messagesPerPacket, seqNumber, index), o) == [] && Ordered([])
    ensures forall p, j: nat :: !IsDataFrame(p, records, o, seqNumber, index, j)
  {
  }

  lemma CopiesOrdered(index: nat, seqNumber: nat, messages: seq<Record>, o: PacketOptions)
    ensures Ordered(Copies(DataPlan(index, seqNumber, messages), o))
  {
  }

  lemma TailFramesExactly(o: PacketOptions, seqNumber: nat)
    ensures var w := Written(TailPlans(o, seqNumber), o);
      && Ordered(w)
      && forall p :: p in w <==>
           || (o.emitHeartbeat && p == FramePlan(None, seqNumber, 0, [], true, false, FeedA, None))
           || (o.emitEos && p == FramePlan(None, seqNumber, 0xFFFF, [], false, true, FeedA, None))
  {
    var heartbeat := FramePlan(None, seqNumber, 0, [], true, false, FeedA, None);
    var eos := FramePlan(None, seqNumber, 0xFFFF, [], false, true, FeedA, None);
    var tail := TailPlans(o, seqNumber);
    assert Copies(heartbeat, o) == [heartbeat] && Copies(eos, o) == [eos];
    if |tail| == 2 {
      assert tail[..1] == [heartbeat] && tail[..1][..0] == [];
      assert Written(tail[..1], o) == [heartbeat];
    } else if |tail| == 1 {
      assert tail[..0] == [];
    }
  }

  /** The frames of a run that fits are exactly those that belong to it, once each and in order. */
  lemma WrittenExactly(records: seq<Record>, o: PacketOptions)
    requires o.Valid()
    ensures var w := Written(Plans(records, o), o);
      Ordered(w) && forall p :: p in w <==> Belongs(p, records, o)
  {
    hide IsDataFrame, Written, DataPlans, TailPlans, Ordered;
    var data, tail := DataPlans(records, o.messagesPerPacket, o.seqStart, 0), TailPlans(o, o.seqStart + |records|);
    WrittenAppend(data, tail, o);
    DataFramesExactly(records, o, o.seqStart, 0);
    TailFramesExactly(o, o.seqStart + |records|);
    OrderedAppend(Written(data, o), Written(tail, o));
  }

  // ----- what each frame says

  /** Every byte of a frame: its headers, the padded session, the numbers of its packet and the messages. */
  predicate FrameSays(f: ByteString, plan: FramePlan, session: ByteString, o: PacketOptions)
    requires o.Valid() && |session| <= 10
  {
    && HasHeaders(f, o.srcPort, o.dstPort) && |f| >= 62
    && f[42..42 + |session|] == session && (forall i :: 42 + |session| <= i < 52 ==> f[i] == 0x20)
    && U64(f, 52) == plan.seqNumber && U16(f, 60) == plan.count
    && Framable(Payloads(plan.messages)) && f[62..] == EncodeBinaryFile(Payloads(plan.messages))
  }

  lemma PlanFrameSays(plan: FramePlan, session: ByteString, o: PacketOptions)
    requires PlanFits(plan) && |session| <= 10 && o.Valid()
    ensures FrameSays(PlanFrame(plan, PaddedSession(session), o), plan, session, o)
  {
    hide WireFrame, HasHeaders, FromBytes, Uint, EncodeBinaryFile, LengthFits, Framable;
    FieldWidths();
    var padded, messages := PaddedSession(session), Payloads(plan.messages);
    var packet, f := PlanPacket(plan, padded), PlanFrame(plan, padded, o);
    BuiltHeaders(packet, o.srcPort, o.dstPort);
    BuiltFields(packet, o.srcPort, o.dstPort);
    HeaderFields(padded, plan.seqNumber, plan.count, EncodeBinaryFile(messages));
    assert f[52..60] == packet[10..18] && f[60..62] == packet[18..20] && f[62..] == packet[20..];
    assert f[42..52] == packet[..10] == padded;
    assert f[42..42 + |session|] == f[42..52][..|session|];
    assert forall i :: 42 <= i < 52 ==> f[i] == padded[i - 42];
  }

  function FramesOf(plans: seq<FramePlan>, session: ByteString, o: PacketOptions): seq<ByteString>
    requires AllFit(plans) && |session| == SESSION_LENGTH && o.Valid()
  {
    seq(|plans|, k requires 0 <= k < |plans| => PlanFrame(plans[k], session, o))
  }

  lemma {:induction false} FlatSplits(plans: seq<FramePlan>, session: ByteString, o: PacketOptions)
    requires AllFit(plans) && |session| == SESSION_LENGTH && o.Valid()
    ensures EthernetFrames(Flat(plans, session, o)) == Output(FramesOf(plans, session, o), None)
  {
    hide FirstFrame, PlanFrame, WellFramed, PlanFits;
    if plans != [] {
      var f, rest := PlanFrame(plans[0], session, o), Flat(plans[1..], session, o);
      FrameIsWellFramed(plans[0], session, o);
      FlatSplits(plans[1..], session, o);
      FirstFrameThen(f, rest);
      assert [f] + FramesOf(plans[1..], session, o) == FramesOf(plans, session, o);
    }
  }

  lemma FrameIsWellFramed(plan: FramePlan, session: ByteString, o: PacketOptions)
    requires PlanFits(plan) && |session| == SESSION_LENGTH && o.Valid()
    ensures WellFramed(PlanFrame(plan, session, o)) && PlanFrame(plan, session, o) != []
  {
    hide WireFrame, UdpPayload, FirstFrame;
    FieldWidths();
    BuiltFrame(PlanPacket(plan, session), o.srcPort, o.dstPort);
  }

  lemma {:induction false} SinkMeta(plans: seq<FramePlan>, session: ByteString, o: PacketOptions)
    requires AllFit(plans) && |session| == SESSION_LENGTH && o.Valid()
    ensures var meta := SinkOf(plans, session, o).meta;
      && |meta| == |plans|
      && forall k :: 0 <= k < |plans| ==> meta[k] == FrameMeta(k, plans[k], |PlanFrame(plans[k], session, o)|)
  {
    hide PlanFrame, PlanFits;
    if plans != [] {
      SinkMeta(plans[..|plans| - 1], session, o);
    }
  }

  /** Frame by frame, the stream and the records of a sink, whatever plans were written. */
  predicate Laid(sink: Sink, session: ByteString, o: PacketOptions)
    requires o.Valid() && |session| <= 10
  {
    var frames := EthernetFrames(sink.frames);
    && frames.error == None && |frames.items| == |sink.meta|
    && forall k :: 0 <= k < |sink.meta| ==>
         && sink.meta[k].frameIndex == k && sink.meta[k].frameLength == |frames.items[k]|
         && FrameSays(frames.items[k], sink.meta[k].plan, session, o)
  }

  lemma SinkLaid(plans: seq<FramePlan>, session: ByteString, o: PacketOptions)
    requires AllFit(plans) && |session| <= 10 && o.Valid()
    ensures Laid(SinkOf(plans, PaddedSession(session), o), session, o)
  {
    hide PlanFrame, PlanFits, FrameSays, SinkOf, PaddedSession;
    var padded := PaddedSession(session);
    SinkFrames(plans, padded, o);
    FlatSplits(plans, padded, o);
    SinkMeta(plans, padded, o);
    forall k | 0 <= k < |plans| ensures FrameSays(PlanFrame(plans[k], padded, o), plans[k], session, o) {
      PlanFrameSays(plans[k], session, o);
    }
  }

  // ----- the totals

  /** Data frames announce their messages; the others announce none. */
  predicate Announces(p: FramePlan) {
    && (p.IsData() <==> p.count != 0 && p.count != 0xFFFF)
    && (p.IsData() ==> p.count == |p.messages|)
  }

  function DataPositions(meta: seq<FrameMeta>): set<nat> {
    set k: nat | k < |meta| && meta[k].plan.IsData()
  }

  lemma {:induction false} DataFramesCounted(plans: seq<FramePlan>, session: ByteString, o: PacketOptions)
    requires AllFit(plans) && |session| == SESSION_LENGTH && o.Valid()
    ensures var sink := SinkOf(plans, session, o); sink.dataFrames == |DataPositions(sink.meta)|
  {
    hide PlanFrame, PlanFits;
    if plans != [] {
      var n := |plans| - 1;
      var earlier, sink := SinkOf(plans[..n], session, o), SinkOf(plans, session, o);
      DataFramesCounted(plans[..n], session, o);
      SinkMeta(plans[..n], session, o);
      PositionsSnoc(earlier.meta, sink.meta[n]);
    }
  }

  lemma PositionsSnoc(meta: seq<FrameMeta>, m: FrameMeta)
    ensures |DataPositions(meta + [m])| == |DataPositions(meta)| + if m.plan.IsData() then 1 else 0
  {
    assert DataPositions(meta + [m]) == DataPositions(meta) + (if m.plan.IsData() then {|meta|} else {});
  }

  lemma {:induction false} MessagesCounted(plans: seq<FramePlan>, session: ByteString, o: PacketOptions)
    requires AllFit(plans) && |session| == SESSION_LENGTH && o.Valid() && forall p :: p in plans ==> Announces(p)
    ensures SinkOf(plans, session, o).messages == |Carried(plans, 0)|
  {
    hide PlanFrame, PlanFits, Carried, Announces;
    if plans == [] {
      NothingCarried(0);
    } else {
      var n := |plans| - 1;
      MessagesCounted(plans[..n], session, o);
      CarriedAppend(plans[..n], [plans[n]], 0);
      assert plans[..n] + [plans[n]] == plans;
      OneCarried(plans[n], n);
    }
  }

  lemma OneCarried(plan: FramePlan, first: nat)
    requires Announces(plan)
    ensures |Carried([plan], first)| == if plan.IsData() then plan.count else 0
  {
    assert Carried([plan], first) == PlanItems(plan, first) + Carried([], first + 1);
  }

  lemma BelongingAnnounces(p: FramePlan, records: seq<Record>, o: PacketOptions)
    requires o.Valid() && Belongs(p, records, o)
    ensures Announces(p)
  {
  }

  lemma {:induction false} DroppedAmong(plans: seq<FramePlan>, o: PacketOptions, index: nat)
    requires IndexedFrom(plans, index)
    ensures DroppedCount(plans, o) == if NamesAmong(o.dropFrame, index, |plans|) then 1 else 0
  {
    if plans != [] {
      var n := |plans| - 1;
      DroppedAmong(plans[..n], o, index);
      assert plans[n].sourceFrameIndex == Some(index + n);
    }
  }

  lemma {:induction false} DroppedAppend(a: seq<FramePlan>, b: seq<FramePlan>, o: PacketOptions)
    ensures DroppedCount(a + b, o) == DroppedCount(a, o) + DroppedCount(b, o)
  {
    hide Names;
    if b == [] {
      assert a + b == a;
    } else {
      DroppedAppend(a, b[..|b| - 1], o);
      assert (a + b)[..|a + b| - 1] == a + b[..|b| - 1];
    }
  }

  lemma {:induction false} NoneDropped(plans: seq<FramePlan>, o: PacketOptions)
    requires forall p :: p in plans ==> p.sourceFrameIndex == None
    ensures DroppedCount(plans, o) == 0
  {
    if plans != [] {
      NoneDropped(plans[..|plans| - 1], o);
      assert plans[|plans| - 1] in plans;
    }
  }

  lemma DroppedExactly(records: seq<Record>, o: PacketOptions)
    requires o.Valid() && FrameExists(Plans(records, o), o.dropFrame)
    ensures DroppedCount(Plans(records, o), o) == if o.dropFrame.Some? then 1 else 0
  {
    hide DroppedCount, FrameExists, IndexedFrom;
    var data, tail := DataPlans(records, o.messagesPerPacket, o.seqStart, 0), TailPlans(o, o.seqStart + |records|);
    DroppedAppend(data, tail, o);
    NoneDropped(tail, o);
    DataIndices(records, o.messagesPerPacket, o.seqStart, 0);
    DroppedAmong(data, o, 0);
    ExistsExactly(records, o, o.dropFrame);
  }

  // ----- a whole run

  /** Whatever a run leaves in the sink, on success or before an overflow, is laid out frame by frame. */
  lemma SinkAlwaysLaid(read: Yielded<Record>, o: PacketOptions, session: ByteString, sink: Sink,
                       stats: EncapsulationStats, error: Option<EncapsulationError>)
    requires Encapsulates(read, o, session, sink, stats, error) && o.Valid() && |session| <= 10
    ensures Laid(sink, session, o)
  {
    hide SinkOf, Written, Plans, Laid, PlanFits, FrameExists, DataPlans;
    match error {
      case None => SinkLaid(Written(Plans(read.items, o), o), session, o);
      case Some(FieldOverflow) =>
        var plans := Plans(read.items, o);
        var n :| 0 <= n < |plans| && StopsAt(plans, n, o)
          && sink == SinkOf(Written(plans[..n], o), PaddedSession(session), o);
        SinkLaid(Written(plans[..n], o), session, o);
      case Some(_) => EmptySinkLaid(session, o);
    }
  }

  lemma EmptySinkLaid(session: ByteString, o: PacketOptions)
    requires |session| <= 10 && o.Valid()
    ensures Laid(Sink([], [], 0, 0), session, o)
  {
  }

  /** The frames of a run that is not refused are exactly those that belong to it, once each and in order. */
  lemma FramesExactly(read: Yielded<Record>, o: PacketOptions, session: ByteString, sink: Sink,
                      stats: EncapsulationStats)
    requires Encapsulates(read, o, session, sink, stats, None)
    ensures o.Valid()
    ensures forall p :: Belongs(p, read.items, o) <==> exists k :: 0 <= k < |sink.meta| && sink.meta[k].plan == p
    ensures forall i, j :: 0 <= i < j < |sink.meta| ==> Before(sink.meta[i].plan, sink.meta[j].plan)
  {
    hide SinkOf, Written, Plans, Belongs, Before, PlanFits, FrameExists;
    var w := Written(Plans(read.items, o), o);
    WrittenExactly(read.items, o);
    SinkMeta(w, PaddedSession(session), o);
    forall p ensures Belongs(p, read.items, o) <==> exists k :: 0 <= k < |sink.meta| && sink.meta[k].plan == p {
      if p in w {
        var k :| 0 <= k < |w| && w[k] == p;
        assert sink.meta[k].plan == p;
      }
    }
  }

  /** Its totals are what is in the stream: its frames, its data frames, its messages, and the one frame dropped. */
  lemma TotalsExactly(read: Yielded<Record>, o: PacketOptions, session: ByteString, sink: Sink,
                      stats: EncapsulationStats)
    requires Encapsulates(read, o, session, sink, stats, None)
    ensures stats == EncapsulationStats(
      |read.items|, |EthernetFrames(sink.frames).items|, |DataPositions(sink.meta)|,
      |RecoverFrom(sink.frames, 0).items|, if o.dropFrame.Some? then 1 else 0, o.seqStart + |read.items|)
  {
    hide SinkOf, Written, Plans, EthernetFrames, RecoverFrom, Belongs, PlanFits, FrameExists, FrameSays;
    hide Carried, DataPositions, Announces;
    var w := Written(Plans(read.items, o), o);
    WrittenExactly(read.items, o);
    forall p | p in w ensures Announces(p) {
      BelongingAnnounces(p, read.items, o);
    }
    SinkLaid(w, session, o);
    DataFramesCounted(w, PaddedSession(session), o);
    MessagesCounted(w, PaddedSession(session), o);
    DroppedExactly(read.items, o);
    SinkFrames(w, PaddedSession(session), o);
    AllCarried(read.items, o);
    FlatCarries(w, PaddedSession(session), o, 0);
  }

  // ----- which runs are refused

  /** The bytes some messages take, with their length fields. */
  function WireSize(messages: seq<Record>): nat {
    if messages == [] then 0 else 2 + |messages[0].payload| + WireSize(messages[1..])
  }

  lemma {:induction false} EncodedSize(messages: seq<Record>)
    ensures Framable(Payloads(messages)) ==> |EncodeBinaryFile(Payloads(messages))| == WireSize(messages)
    ensures !Framable(Payloads(messages)) ==> WireSize(messages) >= 0x1_0000
  {
    if messages != [] {
      FieldWidths();
      EncodedSize(messages[1..]);
      assert Payloads(messages)[1..] == Payloads(messages[1..]);
      assert Payloads(messages) == [messages[0].payload] + Payloads(messages[1..]);
    }
  }

  /** A frame fits if its sequence number has 64 bits and its lengths have sixteen. */
  lemma FitsExactly(p: FramePlan)
    requires p.count < 0x1_0000
    ensures PlanFits(p) <==> p.seqNumber < 0x1_0000_0000_0000_0000 && 48 + WireSize(p.messages) < 0x1_0000
  {
    hide Framable, EncodeBinaryFile, WireSize;
    FieldWidths();
    EncodedSize(p.messages);
  }

  /** Whether a frame option asks for a chunk that is not there. */
  predicate NoSuchChunk(frame: Option<int>, records: seq<Record>, size: nat) {
    frame.Some? && (frame.value < 0 || frame.value * size >= |records|)
  }

  lemma {:induction false} ChunkCount(records: seq<Record>, perPacket: nat, seqNumber: nat, index: nat, j: nat)
    requires perPacket > 0
    ensures j < |DataPlans(records, perPacket, seqNumber, index)| <==> j * perPacket < |records|
    decreases |records|
  {
    if records != [] {
      var n := Least(perPacket, |records|);
      ChunkCount(records[n..], perPacket, seqNumber + n, index + 1, if j > 0 then j - 1 else 0);
      if j > 0 {
        NextMultiple(j, perPacket);
      }
    }
  }

  lemma NoSuchChunkExactly(records: seq<Record>, o: PacketOptions, frame: Option<int>)
    requires o.Valid()
    ensures NoSuchChunk(frame, records, o.messagesPerPacket) <==> !FrameExists(Plans(records, o), frame)
  {
    hide FrameExists, Plans;
    ExistsExactly(records, o, frame);
    if frame.Some? && frame.value >= 0 {
      ChunkCount(records, o.messagesPerPacket, o.seqStart, 0, frame.value);
    }
  }

  /** Some frame of the run that does not fit its header fields. */
  ghost predicate Overflows(p: FramePlan, records: seq<Record>, o: PacketOptions)
    requires o.Valid()
  {
    Belongs(p, records, o) && (p.seqNumber >= 0x1_0000_0000_0000_0000 || 48 + WireSize(p.messages) >= 0x1_0000)
  }

  lemma OverflowExactly(records: seq<Record>, o: PacketOptions)
    requires o.Valid()
    ensures AllFit(Written(Plans(records, o), o)) <==> forall p :: !Overflows(p, records, o)
  {
    hide Written, Plans, PlanFits, Belongs;
    WrittenExactly(records, o);
    forall p | Belongs(p, records, o)
      ensures PlanFits(p) <==> !Overflows(p, records, o)
    {
      BelongingCounts(p, records, o);
      FitsExactly(p);
    }
  }

  lemma BelongingCounts(p: FramePlan, records: seq<Record>, o: PacketOptions)
    requires o.Valid() && Belongs(p, records, o)
    ensures p.count < 0x1_0000
  {
  }

  /** Which error a run ends in, if any: options come first, then the session, the file, the frames, the fields. */
  lemma RefusedExactly(read: Yielded<Record>, o: PacketOptions, session: ByteString)
    ensures var usable :=
        && 1 <= o.messagesPerPacket <= 65534 && 0 <= o.seqStart < 0x1_0000_0000_0000_0000
        && 1 <= o.srcPort <= 65535 && 1 <= o.dstPort <= 65535
        && (o.duplicateFrame.Some? ==> o.duplicateFrame.value >= 0)
        && (o.dropFrame.Some? ==> o.dropFrame.value >= 0 && o.dropFrame != o.duplicateFrame);
      Refusal(read, o, session)
      == if !usable then Some(InvalidOptions)
         else if |session| > 10 then Some(SessionTooLong)
         else if read.error.Some? then Some(BadFile(read.error.value))
         else if NoSuchChunk(o.duplicateFrame, read.items, o.messagesPerPacket)
                 || NoSuchChunk(o.dropFrame, read.items, o.messagesPerPacket) then Some(NoSuchFrame)
         else if exists p :: Overflows(p, read.items, o) then Some(FieldOverflow)
         else None
  {
    hide FrameExists, Plans, Written, AllFit, NoSuchChunk, Overflows;
    if o.Valid() {
      NoSuchChunkExactly(read.items, o, o.duplicateFrame);
      NoSuchChunkExactly(read.items, o, o.dropFrame);
      OverflowExactly(read.items, o);
    }
  }
}
