/** The length-prefixed record file: its writer, its reader, and their agreement. */
module BinaryFile {
  import opened Wrappers
  import opened Contracts
  import opened Bytes
  import opened ItchParser

  /** A record and its position in the feed. */
  datatype Record = Record(msgIndex: nat, payload: ByteString)

  /** What a generator yields before it stops, and the error it stops with, if any. */
  datatype Yielded<T> = Yielded(items: seq<T>, error: Option<ParseError>)

  /** Whether every payload's length fits its two-byte prefix. */
  predicate Framable(messages: seq<ByteString>) {
    forall m :: m in messages ==> Fits(|m|, 2)
  }

  function Frame(message: ByteString): ByteString
    requires Fits(|message|, 2)
  {
    Uint(|message|, 2) + message
  }

  function EncodeBinaryFile(messages: seq<ByteString>): ByteString
    requires Framable(messages)
  {
    if messages == [] then [] else Frame(messages[0]) + EncodeBinaryFile(messages[1..])
  }

  /** The records of a file from some byte on; a message limit is checked before each record. */
  function Records(data: ByteString, msgIndex: nat, limit: Option<nat>): Yielded<Record>
    decreases |data|
  {
    if data == [] || limit == Some(0) then Yielded([], None)
    else if |data| < 2 then Yielded([], Some(TruncatedLength))
    else
      var end := 2 + Field(data, 0, 2);
      if end > |data| then Yielded([], Some(FrameExceedsStream))
      else
        var rest := Records(data[end..], msgIndex + 1, Decrement(limit));
        Yielded([Record(msgIndex, data[2..end])] + rest.items, rest.error)
  }

  function Decrement(limit: Option<nat>): Option<nat>
    requires limit != Some(0)
  {
    if limit.Some? then Some(limit.value - 1) else None
  }

  function LeftOf(limit: Option<nat>, n: nat): Option<nat>
    requires limit.Some? ==> n <= limit.value
  {
    if limit.Some? then Some(limit.value - n) else None
  }

  lemma NothingToRead(data: ByteString, cursor: nat, msgIndex: nat, limit: Option<nat>)
    requires cursor <= |data|
    ensures cursor == |data| || limit == Some(0) ==> Records(data[cursor..], msgIndex, limit) == Yielded([], None)
    ensures cursor + 1 == |data| && limit != Some(0) ==>
      Records(data[cursor..], msgIndex, limit) == Yielded([], Some(TruncatedLength))
  {
  }

  /** One turn of the reader at some cursor. */
  lemma RecordAt(data: ByteString, cursor: nat, msgIndex: nat, limit: Option<nat>)
    requires cursor + 2 <= |data| && limit != Some(0)
    ensures var end := cursor + 2 + Field(data, cursor, 2);
      Records(data[cursor..], msgIndex, limit)
      == if end > |data| then Yielded([], Some(FrameExceedsStream))
         else var rest := Records(data[end..], msgIndex + 1, Decrement(limit));
           Yielded([Record(msgIndex, data[cursor + 2..end])] + rest.items, rest.error)
  {
    var tail, end := data[cursor..], cursor + 2 + Field(data, cursor, 2);
    assert Slice(tail, 0, 2) == Slice(data, cursor, cursor + 2);
    if end <= |data| {
      assert tail[2..end - cursor] == data[cursor + 2..end];
      assert tail[end - cursor..] == data[end..];
    }
  }

  /** The reader's loop. */
  method ReadBinaryFile(data: ByteString, startIndex: nat, maxMessages: Option<nat>)
    returns (records: seq<Record>, error: Option<ParseError>)
    ensures Yielded(records, error) == Records(data, startIndex, maxMessages)
  {
    hide Field, Records;
    records, error := [], None;
    var cursor, messagesSeen, msgIndex := 0, 0, startIndex;
    ghost var whole := Records(data, startIndex, maxMessages);
    ghost var left, rest := maxMessages, whole;
    assert data[0..] == data;
    while cursor < |data|
      invariant cursor <= |data|
      invariant maxMessages.Some? ==> messagesSeen <= maxMessages.value
      invariant left == LeftOf(maxMessages, messagesSeen)
      invariant rest == Records(data[cursor..], msgIndex, left)
      invariant whole == Yielded(records + rest.items, rest.error)
    {
      NothingToRead(data, cursor, msgIndex, left);
      if maxMessages.Some? && messagesSeen >= maxMessages.value {
        return;
      }
      if |data| - cursor < 2 {
        return records, Some(TruncatedLength);
      }
      var messageLength := U16(data, cursor);
      var payloadStart := cursor + 2;
      var payloadEnd := payloadStart + messageLength;
      RecordAt(data, cursor, msgIndex, left);
      if payloadEnd > |data| {
        return records, Some(FrameExceedsStream);
      }
      var record := Record(msgIndex, data[payloadStart..payloadEnd]);
      assert records + rest.items == records + [record] + rest.items[1..];
      records := records + [record];
      left := Decrement(left);
      cursor, messagesSeen, msgIndex := payloadEnd, messagesSeen + 1, msgIndex + 1;
      rest := Records(data[cursor..], msgIndex, left);
    }
    NothingToRead(data, cursor, msgIndex, left);
  }

  // ----- reading back what was written

  /** Payloads with consecutive indices. */
  function Indexed(messages: seq<ByteString>, start: nat): seq<Record> {
    seq(|messages|, k requires 0 <= k < |messages| => Record(start + k, messages[k]))
  }

  function Payloads(records: seq<Record>): seq<ByteString> {
    seq(|records|, k requires 0 <= k < |records| => records[k].payload)
  }

  lemma ReadFrame(message: ByteString, rest: ByteString)
    requires Fits(|message|, 2)
    ensures var data := Frame(message) + rest;
      && |data| >= 2 + |message| && Field(data, 0, 2) == |message|
      && data[2..2 + |message|] == message && data[2 + |message|..] == rest
  {
    FromUint(|message|, 2);
    assert Slice(Frame(message) + rest, 0, 2) == Uint(|message|, 2);
  }

  /** One written record in front of whatever a reader makes of the rest. */
  lemma ReadFrameThen(message: ByteString, rest: ByteString, msgIndex: nat, limit: Option<nat>, read: Yielded<Record>)
    requires Fits(|message|, 2) && limit != Some(0)
    requires Records(rest, msgIndex + 1, Decrement(limit)) == read
    ensures Records(Frame(message) + rest, msgIndex, limit)
         == Yielded([Record(msgIndex, message)] + read.items, read.error)
  {
    ReadFrame(message, rest);
  }

  /** Whatever follows them, written messages come back first, in order and consecutively numbered. */
  lemma {:induction false} ReadWritten(messages: seq<ByteString>, rest: ByteString, start: nat, limit: Option<nat>,
                                       tail: Yielded<Record>)
    requires Framable(messages) && (limit.Some? ==> |messages| <= limit.value)
    requires tail == Records(rest, start + |messages|, LeftOf(limit, |messages|))
    ensures Records(EncodeBinaryFile(messages) + rest, start, limit)
         == Yielded(Indexed(messages, start) + tail.items, tail.error)
  {
    hide Records, Uint;
    if messages == [] {
      assert EncodeBinaryFile(messages) + rest == rest;
      assert Indexed(messages, start) + tail.items == tail.items;
    } else {
      var more := EncodeBinaryFile(messages[1..]) + rest;
      assert EncodeBinaryFile(messages) + rest == Frame(messages[0]) + more;
      assert LeftOf(Decrement(limit), |messages| - 1) == LeftOf(limit, |messages|);
      ReadWritten(messages[1..], rest, start + 1, Decrement(limit), tail);
      var read := Yielded(Indexed(messages[1..], start + 1) + tail.items, tail.error);
      ReadFrameThen(messages[0], more, start, limit, read);
      IndexedCons(messages, start, tail.items);
    }
  }

  lemma IndexedCons(messages: seq<ByteString>, start: nat, more: seq<Record>)
    requires messages != []
    ensures [Record(start, messages[0])] + (Indexed(messages[1..], start + 1) + more) == Indexed(messages, start) + more
  {
  }

  /** Reading a written file yields its messages and no error. */
  lemma ReadOfWrite(messages: seq<ByteString>, start: nat)
    requires Framable(messages)
    ensures Records(EncodeBinaryFile(messages), start, None) == Yielded(Indexed(messages, start), None)
  {
    ReadWritten(messages, [], start, None, Yielded([], None));
    assert EncodeBinaryFile(messages) + [] == EncodeBinaryFile(messages);
  }

  /** A limit of k yields the first k records whatever bytes come after them. */
  lemma LimitIgnoresTheRest(messages: seq<ByteString>, garbage: ByteString, start: nat)
    requires Framable(messages)
    ensures Records(EncodeBinaryFile(messages) + garbage, start, Some(|messages|))
         == Yielded(Indexed(messages, start), None)
  {
    ReadWritten(messages, garbage, start, Some(|messages|), Yielded([], None));
  }

  // ----- writing back what was read

  /** The bytes after the last complete record. */
  function Unread(data: ByteString): ByteString {
    if |data| < 2 || 2 + Field(data, 0, 2) > |data| then data else Unread(data[2 + Field(data, 0, 2)..])
  }

  lemma FrameOfPrefix(data: ByteString)
    requires |data| >= 2 && 2 + Field(data, 0, 2) <= |data|
    ensures var end := 2 + Field(data, 0, 2);
      Fits(end - 2, 2) && Frame(data[2..end]) == data[..end]
  {
    UintFrom(data[0..2]);
    assert Slice(data, 0, 2) == data[0..2];
  }

  /** A reading of a file whose re-encoding, with what was left unread, is the file. */
  predicate Rewrites(data: ByteString, read: Yielded<Record>, start: nat, unread: ByteString) {
    && Framable(Payloads(read.items))
    && read.items == Indexed(Payloads(read.items), start)
    && EncodeBinaryFile(Payloads(read.items)) + unread == data
    && (read.error == None <==> unread == [])
  }

  lemma RewritesNone(data: ByteString, error: Option<ParseError>, start: nat)
    requires error == None <==> data == []
    ensures Rewrites(data, Yielded([], error), start, data)
  {
    assert Payloads([]) == [];
  }

  lemma RewritesCons(data: ByteString, end: nat, later: Yielded<Record>, start: nat, unread: ByteString)
    requires 2 <= end <= |data| && Fits(end - 2, 2) && Frame(data[2..end]) == data[..end]
    requires Rewrites(data[end..], later, start + 1, unread)
    ensures Rewrites(data, Yielded([Record(start, data[2..end])] + later.items, later.error), start, unread)
  {
    hide Frame, EncodeBinaryFile, Indexed, Framable;
    WrittenCons(data[2..end], later.items, start);
    var encoded := EncodeBinaryFile(Payloads(later.items));
    assert data[..end] + encoded + unread == data[..end] + (encoded + unread) == data;
  }

  lemma {:induction false} ReadRewrites(data: ByteString, start: nat)
    ensures Rewrites(data, Records(data, start, None), start, Unread(data))
    decreases |data|
  {
    hide Rewrites, Frame, Field;
    if |data| < 2 || 2 + Field(data, 0, 2) > |data| {
      RewritesNone(data, Records(data, start, None).error, start);
    } else {
      var end := 2 + Field(data, 0, 2);
      FrameOfPrefix(data);
      ReadRewrites(data[end..], start + 1);
      RewritesCons(data, end, Records(data[end..], start + 1, None), start, Unread(data[end..]));
    }
  }

  /** Re-encoding what an unlimited read yields restores the file up to the bytes it could not read. */
  lemma WriteOfRead(data: ByteString, start: nat)
    ensures var read := Records(data, start, None);
      && Framable(Payloads(read.items))
      && read.items == Indexed(Payloads(read.items), start)
      && EncodeBinaryFile(Payloads(read.items)) + Unread(data) == data
      && (read.error == None <==> Unread(data) == [])
  {
    ReadRewrites(data, start);
  }

  lemma WrittenCons(payload: ByteString, records: seq<Record>, start: nat)
    requires Fits(|payload|, 2) && Framable(Payloads(records))
    requires records == Indexed(Payloads(records), start + 1)
    ensures var all := [Record(start, payload)] + records;
      && Framable(Payloads(all)) && all == Indexed(Payloads(all), start)
      && EncodeBinaryFile(Payloads(all)) == Frame(payload) + EncodeBinaryFile(Payloads(records))
  {
    var all := [Record(start, payload)] + records;
    assert Payloads(all) == [payload] + Payloads(records);
    assert Payloads(all)[1..] == Payloads(records);
    forall k | 0 <= k < |all| ensures all[k] == Indexed(Payloads(all), start)[k] {
      if k > 0 {
        assert records[k - 1] == Indexed(Payloads(records), start + 1)[k - 1];
      }
    }
  }

  /** Which error a read ends in: one byte of a length is left over, or a length larger than what follows it. */
  lemma {:induction false} StopsExactly(data: ByteString, start: nat)
    ensures var rest := Unread(data);
      && (|rest| >= 2 ==> |rest| < 2 + (0x100 * rest[0] as nat + rest[1] as nat))
      && Records(data, start, None).error
         == if rest == [] then None else if |rest| < 2 then Some(TruncatedLength) else Some(FrameExceedsStream)
    decreases |data|
  {
    if |data| >= 2 {
      BigEndian(data, 0);
      if 2 + Field(data, 0, 2) <= |data| {
        StopsExactly(data[2 + Field(data, 0, 2)..], start + 1);
      }
    }
  }

  /** A file is read without error exactly when it is a written file. */
  lemma ReadableExactly(data: ByteString, start: nat)
    ensures Records(data, start, None).error == None
      <==> exists messages :: Framable(messages) && data == EncodeBinaryFile(messages)
  {
    WriteOfRead(data, start);
    if Records(data, start, None).error == None {
      var messages := Payloads(Records(data, start, None).items);
      assert EncodeBinaryFile(messages) + [] == EncodeBinaryFile(messages);
    }
    forall messages | Framable(messages) && data == EncodeBinaryFile(messages)
      ensures Records(data, start, None).error == None
    {
      ReadOfWrite(messages, start);
    }
  }

  // ----- decoding a file

  /** Decodes records in order up to the first malformed one, skipping those that are no book events. */
  function Events(records: seq<Record>): Yielded<Event> {
    if records == [] then Yielded([], None)
    else
      var before := Events(records[..|records| - 1]);
      if before.error.Some? then before
      else match ParseItchMessage(records[|records| - 1].payload, records[|records| - 1].msgIndex)
        case Err(error) => Yielded(before.items, Some(error))
        case Ok(None) => before
        case Ok(Some(event)) => Yielded(before.items + [event], None)
  }

  /** The events of a file; a decoding error comes before a framing error further on. */
  function StreamEvents(data: ByteString, startIndex: nat, maxMessages: Option<nat>): Yielded<Event> {
    var read := Records(data, startIndex, maxMessages);
    var decoded := Events(read.items);
    if decoded.error.Some? then decoded else Yielded(decoded.items, read.error)
  }
}
