/** The plain round-trip comparison of a source file with what was recovered from its frames. */
module RoundtripCheck {
  import opened Wrappers
  import opened Bytes
  import opened BinaryFile
  import opened MoldUdp
  import opened WireFrames
  import opened FramePlans
  import opened Recovery

  datatype Verdict = Matches | Unreadable | Unrecoverable | WrongCount | Mismatch(index: nat)

  /** Compares payload lists position by position. */
  method AssertRoundtrip(data: ByteString, frames: ByteString, startIndex: nat, maxMessages: Option<nat>)
    returns (verdict: Verdict)
    ensures var read, recovered := Records(data, startIndex, maxMessages), RecoverFrom(frames, 0);
      var expected, actual := Payloads(read.items), PayloadsOf(recovered.items);
      match verdict
      case Unreadable => read.error.Some?
      case Unrecoverable => read.error.None? && recovered.error.Some?
      case WrongCount => read.error.None? && recovered.error.None? && |expected| != |actual|
      case Mismatch(k) =>
        && read.error.None? && recovered.error.None? && |expected| == |actual|
        && k < |expected| && expected[..k] == actual[..k] && expected[k] != actual[k]
      case Matches => read.error.None? && recovered.error.None? && expected == actual
  {
    hide Records, RecoverFrom;
    var records, readError := ReadBinaryFile(data, startIndex, maxMessages);
    if readError.Some? {
      return Unreadable;
    }
    var items, recoverError := RecoverItchPayloads(frames);
    if recoverError.Some? {
      return Unrecoverable;
    }
    var expected, actual := Payloads(records), PayloadsOf(items);
    if |expected| != |actual| {
      return WrongCount;
    }
    for k := 0 to |expected|
      invariant expected[..k] == actual[..k]
    {
      if expected[k] != actual[k] {
        return Mismatch(k);
      }
    }
    verdict := Matches;
  }

  // ----- for which options the comparison passes

  predicate Accepted(records: seq<Record>, o: PacketOptions, session: ByteString) {
    Refusal(Yielded(records, None), o, session) == None
  }

  /** Nothing dropped and nothing sent twice. */
  predicate Plain(o: PacketOptions) {
    o.dropFrame == None && o.duplicateFrame == None && !o.abDuplicate
  }

  lemma {:induction false} PlainSendsOnce(records: seq<Record>, o: PacketOptions, index: nat)
    requires o.Valid() && Plain(o)
    ensures SentPayloads(records, o, index) == Payloads(records)
    decreases |records|
  {
    if records != [] {
      var n := Least(o.messagesPerPacket, |records|);
      PlainSendsOnce(records[n..], o, index + 1);
      RepeatOnce(Payloads(records[..n]));
      assert Payloads(records[..n]) + Payloads(records[n..]) == Payloads(records);
    }
  }

  lemma RepeatOnce(payloads: seq<ByteString>)
    ensures Repeat(payloads, 1) == payloads
  {
    assert Repeat(payloads, 0) == [];
  }

  lemma {:induction false} RepeatLength(payloads: seq<ByteString>, n: nat)
    ensures n > 0 ==> |Repeat(payloads, n)| >= |payloads|
    ensures n > 1 && payloads != [] ==> |Repeat(payloads, n)| > |payloads|
  {
    if n > 1 {
      RepeatLength(payloads, n - 1);
    }
  }

  /** Whether a frame option names one of the next so many data frames. */
  predicate NamesAmong(frame: Option<int>, index: nat, count: nat) {
    frame.Some? && index <= frame.value < index + count
  }

  /** Without a drop every record is sent, and more than once if some frame is sent again. */
  lemma {:induction false} NothingLost(records: seq<Record>, o: PacketOptions, seqNumber: nat, index: nat)
    requires o.Valid() && o.dropFrame == None
    ensures |SentPayloads(records, o, index)| >= |records|
    ensures var count := |DataPlans(records, o.messagesPerPacket, seqNumber, index)|;
      records != [] && (o.abDuplicate || NamesAmong(o.duplicateFrame, index, count)) ==>
        |SentPayloads(records, o, index)| > |records|
    decreases |records|
  {
    if records != [] {
      var n := Least(o.messagesPerPacket, |records|);
      NothingLost(records[n..], o, seqNumber + n, index + 1);
      RepeatLength(Payloads(records[..n]), CopyCount(o, index));
    }
  }

  /** Consecutive data frames, by their indices. */
  predicate IndexedFrom(plans: seq<FramePlan>, index: nat) {
    forall k :: 0 <= k < |plans| ==> plans[k].sourceFrameIndex == Some(index + k)
  }

  lemma IndexedCons(plan: FramePlan, rest: seq<FramePlan>, index: nat)
    requires plan.sourceFrameIndex == Some(index) && IndexedFrom(rest, index + 1)
    ensures IndexedFrom([plan] + rest, index)
  {
  }

  /** The data frames of a file. */
  lemma {:induction false} DataIndices(records: seq<Record>, perPacket: nat, seqNumber: nat, index: nat)
    requires perPacket > 0
    ensures IndexedFrom(DataPlans(records, perPacket, seqNumber, index), index)
    decreases |records|
  {
    hide IndexedFrom;
    if records == [] {
      NothingIndexed(index);
    } else {
      var n := Least(perPacket, |records|);
      DataIndices(records[n..], perPacket, seqNumber + n, index + 1);
      DataPlansCons(records, perPacket, seqNumber, index);
      IndexedCons(DataPlan(index, seqNumber, records[..n]),
                  DataPlans(records[n..], perPacket, seqNumber + n, index + 1), index);
    }
  }

  lemma NothingIndexed(index: nat)
    ensures IndexedFrom([], index)
  {
  }

  lemma {:induction false} ChunkBegins(records: seq<Record>, perPacket: nat, seqNumber: nat, index: nat, k: nat)
    requires perPacket > 0 && k < |DataPlans(records, perPacket, seqNumber, index)|
    ensures ChunkStart(k, perPacket) < |records|
    decreases |records|
  {
    hide ChunkStart;
    NextChunk(if k > 0 then k - 1 else 0, perPacket);
    if k > 0 {
      var n := Least(perPacket, |records|);
      ChunkBegins(records[n..], perPacket, seqNumber + n, index + 1, k - 1);
    }
  }

  /** A frame option exists in a file exactly if it names one of the file's data frames. */
  lemma ExistsExactly(records: seq<Record>, o: PacketOptions, frame: Option<int>)
    requires o.Valid()
    ensures var count := |DataPlans(records, o.messagesPerPacket, o.seqStart, 0)|;
      FrameExists(Plans(records, o), frame) <==> frame.None? || NamesAmong(frame, 0, count)
  {
    hide DataPlans;
    var data := DataPlans(records, o.messagesPerPacket, o.seqStart, 0);
    DataIndices(records, o.messagesPerPacket, o.seqStart, 0);
    var plans := Plans(records, o);
    assert forall k :: 0 <= k < |data| ==> plans[k] == data[k];
    if NamesAmong(frame, 0, |data|) {
      assert data[frame.value].sourceFrameIndex == Some(0 + frame.value);
      assert Names(frame, plans[frame.value]);
    }
  }

  // ----- a file of the same shape on which a drop shows

  /** Only the dropped chunk has anything in it. */
  predicate BlankElsewhere(blank: seq<Record>, o: PacketOptions, index: nat)
    requires o.Valid()
  {
    forall k :: 0 <= k < |blank| && !InChunk(k, o.messagesPerPacket, DroppedChunk(o, index)) ==> blank[k].payload == []
  }

  lemma BlankSplits(blank: seq<Record>, o: PacketOptions, index: nat)
    requires o.Valid() && o.dropFrame.Some? && blank != [] && BlankElsewhere(blank, o, index)
    ensures var n := Least(o.messagesPerPacket, |blank|);
      && (o.dropFrame != Some(index) ==> forall k :: 0 <= k < n ==> blank[k].payload == [])
      && BlankElsewhere(blank[n..], o, index + 1)
  {
    hide ChunkStart;
    var n := Least(o.messagesPerPacket, |blank|);
    var d := DroppedChunk(o, index);
    NextChunk(if d > 0 then d - 1 else 0, o.messagesPerPacket);
    if d > 1 {
      NextChunk(d - 2, o.messagesPerPacket);
    }
    forall k | 0 <= k < |blank| - n && !InChunk(k, o.messagesPerPacket, d - 1)
      ensures blank[n..][k].payload == []
    {
      assert blank[n..][k] == blank[n + k];
    }
  }

  lemma {:induction false} BlankSends(blank: seq<Record>, o: PacketOptions, index: nat)
    requires o.Valid() && o.dropFrame.Some? && BlankElsewhere(blank, o, index)
    ensures forall p :: p in SentPayloads(blank, o, index) ==> p == []
    decreases |blank|
  {
    if blank != [] {
      hide BlankElsewhere;
      var n := Least(o.messagesPerPacket, |blank|);
      BlankSplits(blank, o, index);
      BlankSends(blank[n..], o, index + 1);
      RepeatHas(Payloads(blank[..n]), CopyCount(o, index));
    }
  }

  lemma {:induction false} RepeatHas(payloads: seq<ByteString>, n: nat)
    ensures forall p :: p in Repeat(payloads, n) ==> n > 0 && p in payloads
  {
    if n > 0 {
      RepeatHas(payloads, n - 1);
    }
  }

  lemma {:induction false} BlankIsNoLonger(blank: seq<ByteString>, original: seq<ByteString>)
    requires |blank| == |original| && Framable(original) && forall k :: 0 <= k < |blank| ==> blank[k] == []
    ensures Framable(blank) && |EncodeBinaryFile(blank)| <= |EncodeBinaryFile(original)|
  {
    FieldWidths();
    if blank != [] {
      BlankIsNoLonger(blank[1..], original[1..]);
    }
  }

  /** A blank data frame fits where the original did. */
  lemma BlankFits(index: nat, seqNumber: nat, blank: seq<Record>, original: seq<Record>)
    requires |blank| == |original| && PlanFits(DataPlan(index, seqNumber, original))
    requires forall k :: 0 <= k < |blank| ==> blank[k].payload == []
    ensures PlanFits(DataPlan(index, seqNumber, blank))
  {
    hide Framable, EncodeBinaryFile;
    assert forall k :: 0 <= k < |blank| ==> Payloads(blank)[k] == [];
    BlankIsNoLonger(Payloads(blank), Payloads(original));
  }

  lemma CopiesFit(plan: FramePlan, o: PacketOptions)
    ensures AllFit(Copies(plan, o)) <==> Names(o.dropFrame, plan) || PlanFits(plan)
  {
    hide PlanFits, Names;
    SameFit(plan, plan.(feed := FeedB, duplicateOf := plan.sourceFrameIndex));
    SameFit(plan, plan.(feed := FeedDup, duplicateOf := plan.sourceFrameIndex));
    if !Names(o.dropFrame, plan) {
      assert plan in Copies(plan, o);
    }
  }

  lemma AllFitAppend(a: seq<FramePlan>, b: seq<FramePlan>)
    ensures AllFit(a + b) <==> AllFit(a) && AllFit(b)
  {
    hide PlanFits;
    assert forall p :: p in a + b <==> p in a || p in b;
  }

  lemma NoDataPlans(records: seq<Record>, perPacket: nat, seqNumber: nat, index: nat)
    requires perPacket > 0 && records == []
    ensures DataPlans(records, perPacket, seqNumber, index) == []
  {
  }

  lemma DataPlansCons(records: seq<Record>, perPacket: nat, seqNumber: nat, index: nat)
    requires perPacket > 0 && records != []
    ensures var n := Least(perPacket, |records|);
      DataPlans(records, perPacket, seqNumber, index)
      == [DataPlan(index, seqNumber, records[..n])] + DataPlans(records[n..], perPacket, seqNumber + n, index + 1)
  {
  }

  lemma NamesDataPlan(o: PacketOptions, index: nat, seqNumber: nat, messages: seq<Record>)
    ensures Names(o.dropFrame, DataPlan(index, seqNumber, messages)) <==> o.dropFrame == Some(index)
  {
  }

  /** Data frames of a blank file of the same length: the same shape, and they fit where the original's did. */
  lemma {:induction false} BlankPlans(blank: seq<Record>, original: seq<Record>, o: PacketOptions, seqNumber: nat,
                                      index: nat)
    requires o.Valid() && o.dropFrame.Some? && |blank| == |original| && BlankElsewhere(blank, o, index)
    requires AllFit(Written(DataPlans(original, o.messagesPerPacket, seqNumber, index), o))
    ensures |DataPlans(blank, o.messagesPerPacket, seqNumber, index)|
         == |DataPlans(original, o.messagesPerPacket, seqNumber, index)|
    ensures AllFit(Written(DataPlans(blank, o.messagesPerPacket, seqNumber, index), o))
    decreases |blank|
  {
    hide BlankElsewhere, AllFit, PlanFits, Copies, Written, DataPlans, DataPlan;
    if blank == [] {
      NoDataPlans(blank, o.messagesPerPacket, seqNumber, index);
      NoDataPlans(original, o.messagesPerPacket, seqNumber, index);
    } else {
      DataPlansCons(blank, o.messagesPerPacket, seqNumber, index);
      DataPlansCons(original, o.messagesPerPacket, seqNumber, index);
      var n := Least(o.messagesPerPacket, |blank|);
      BlankSplits(blank, o, index);
      var plan, plan' := DataPlan(index, seqNumber, original[..n]), DataPlan(index, seqNumber, blank[..n]);
      var rest := DataPlans(original[n..], o.messagesPerPacket, seqNumber + n, index + 1);
      var rest' := DataPlans(blank[n..], o.messagesPerPacket, seqNumber + n, index + 1);
      Recovery.WrittenCons(plan, rest, o);
      Recovery.WrittenCons(plan', rest', o);
      AllFitAppend(Copies(plan, o), Written(rest, o));
      AllFitAppend(Copies(plan', o), Written(rest', o));
      CopiesFit(plan, o);
      CopiesFit(plan', o);
      NamesDataPlan(o, index, seqNumber, original[..n]);
      NamesDataPlan(o, index, seqNumber, blank[..n]);
      BlankPlans(blank[n..], original[n..], o, seqNumber + n, index + 1);
      if o.dropFrame != Some(index) {
        BlankFits(index, seqNumber, blank[..n], original[..n]);
      }
    }
  }

  lemma BlankAccepted(blank: seq<Record>, original: seq<Record>, o: PacketOptions, session: ByteString)
    requires Accepted(original, o, session) && o.dropFrame.Some?
    requires |blank| == |original| && BlankElsewhere(blank, o, 0)
    ensures Accepted(blank, o, session)
  {
    hide DataPlans, Written, AllFit, FrameExists, BlankElsewhere;
    var data := DataPlans(original, o.messagesPerPacket, o.seqStart, 0);
    var data' := DataPlans(blank, o.messagesPerPacket, o.seqStart, 0);
    var tail := TailPlans(o, o.seqStart + |original|);
    WrittenAppend(data, tail, o);
    WrittenAppend(data', tail, o);
    AllFitAppend(Written(data, o), Written(tail, o));
    AllFitAppend(Written(data', o), Written(tail, o));
    BlankPlans(blank, original, o, o.seqStart, 0);
    ExistsExactly(original, o, o.dropFrame);
    ExistsExactly(original, o, o.duplicateFrame);
    ExistsExactly(blank, o, o.dropFrame);
    ExistsExactly(blank, o, o.duplicateFrame);
  }

  /** The original with every payload blanked but the first of the dropped chunk, which gets one byte. */
  function Blanked(original: seq<Record>, position: nat): (blank: seq<Record>)
    ensures |blank| == |original|
  {
    seq(|original|, k requires 0 <= k < |original| => Record(original[k].msgIndex, if k == position then [0] else []))
  }

  /** If a frame is dropped, some accepted file of the same length does not come back. */
  lemma DropShows(original: seq<Record>, o: PacketOptions, session: ByteString) returns (blank: seq<Record>)
    requires Accepted(original, o, session) && o.dropFrame.Some?
    ensures Accepted(blank, o, session) && SentPayloads(blank, o, 0) != Payloads(blank)
  {
    hide SentPayloads, ChunkStart;
    var d: nat := o.dropFrame.value;
    var position := ChunkStart(d, o.messagesPerPacket);
    ExistsExactly(original, o, o.dropFrame);
    ChunkBegins(original, o.messagesPerPacket, o.seqStart, 0, d);
    blank := Blanked(original, position);
    BlankAccepted(blank, original, o, session);
    BlankSends(blank, o, 0);
    assert Payloads(blank)[position] == [0];
    assert [0] in Payloads(blank);
  }

  /** Whether what is sent is the source, once and in order. */
  predicate SentAsIs(records: seq<Record>, o: PacketOptions) {
    o.Valid() && SentPayloads(records, o, 0) == Payloads(records)
  }

  /** Whether the comparison passes for a file that was encapsulated. */
  predicate ComesBack(records: seq<Record>, o: PacketOptions, session: ByteString)
    requires Accepted(records, o, session)
  {
    var sink := SinkOf(Written(Plans(records, o), o), PaddedSession(session), o);
    var recovered := RecoverFrom(sink.frames, 0);
    recovered.error == None && PayloadsOf(recovered.items) == Payloads(records)
  }

  /**
    Under options that accept some file with messages in it, the comparison passes for every file they
    accept if and only if nothing is dropped and nothing is sent twice.
    */
  lemma RoundtripExactly(sample: seq<Record>, o: PacketOptions, session: ByteString)
    requires sample != [] && Accepted(sample, o, session)
    ensures Plain(o) <==> forall records :: Accepted(records, o, session) ==> ComesBack(records, o, session)
  {
    hide ComesBack, Accepted, SentPayloads;
    forall records | Accepted(records, o, session)
      ensures ComesBack(records, o, session) <==> SentAsIs(records, o)
    {
      ComesBackExactly(records, o, session);
    }
    AcceptedIsValid(sample, o, session);
    if Plain(o) {
      forall records | Accepted(records, o, session) ensures ComesBack(records, o, session) {
        PlainSendsOnce(records, o, 0);
      }
    } else if o.dropFrame.Some? {
      var blank := DropShows(sample, o, session);
      assert !SentAsIs(blank, o) && !ComesBack(blank, o, session);
    } else {
      NothingLost(sample, o, o.seqStart, 0);
      assert !SentAsIs(sample, o) && !ComesBack(sample, o, session);
    }
  }

  /** For each file: the comparison passes if and only if what is sent is the source as it is. */
  lemma ComesBackExactly(records: seq<Record>, o: PacketOptions, session: ByteString)
    requires Accepted(records, o, session)
    ensures o.Valid()
    ensures ComesBack(records, o, session) <==> SentAsIs(records, o)
  {
    hide SinkOf, Written, Plans, RecoverFrom, SentPayloads, Refusal;
    AcceptedIsValid(records, o, session);
    EncapsulateThenRecover(records, o, session);
  }

  lemma AcceptedIsValid(records: seq<Record>, o: PacketOptions, session: ByteString)
    requires Accepted(records, o, session)
    ensures o.Valid() && |session| <= SESSION_LENGTH && AllFit(Written(Plans(records, o), o))
    ensures var count := |DataPlans(records, o.messagesPerPacket, o.seqStart, 0)|;
      (o.duplicateFrame.Some? ==> NamesAmong(o.duplicateFrame, 0, count))
  {
    hide DataPlans, Written, Plans, AllFit;
    ExistsExactly(records, o, o.duplicateFrame);
  }
}
