/** Feeds of book messages: written to a file, read back and replayed. */
module ItchFeed {
  import opened Wrappers
  import opened Contracts
  import opened Bytes
  import opened ItchMessages
  import opened ItchParser
  import opened BinaryFile

  predicate AllEncodable(messages: seq<Message>) {
    forall m :: m in messages ==> Encodable(m)
  }

  function Encodings(messages: seq<Message>): seq<ByteString>
    requires AllEncodable(messages)
  {
    seq(|messages|, k requires 0 <= k < |messages| => Encode(messages[k]))
  }

  function EventsOf(messages: seq<Message>, start: nat): seq<Event>
    requires AllEncodable(messages)
  {
    seq(|messages|, k requires 0 <= k < |messages| => EventOf(messages[k], start + k))
  }

  lemma EncodedLength(m: Message)
    requires Encodable(m)
    ensures BookMessageLength(MessageType(m.body)) == Some(|Encode(m)|)
    ensures Fits(|Encode(m)|, 2)
  {
    hide Encode;
    match m.body {
      case AddBody(_, _, _, _, _) => EncodedAdd(m);
      case ReplaceBody(_, _, _) => EncodedReplace(m);
      case DeleteBody => EncodedDelete(m);
      case _ => EncodedReduction(m);
    }
  }

  lemma {:induction false} RecordsDecode(messages: seq<Message>, start: nat)
    requires AllEncodable(messages)
    ensures Events(Indexed(Encodings(messages), start)) == Yielded(EventsOf(messages, start), None)
  {
    hide Encode, ParseItchMessage, EventOf;
    if messages != [] {
      var n := |messages| - 1;
      RecordsDecode(messages[..n], start);
      assert Indexed(Encodings(messages), start)[..n] == Indexed(Encodings(messages[..n]), start);
      ParseEncoded(messages[n], start + n);
      assert EventsOf(messages, start) == EventsOf(messages[..n], start) + [EventOf(messages[n], start + n)];
    }
  }

  /** A feed written to a file and read back yields one event per message, in order and numbered from the start. */
  lemma FeedRoundTrip(messages: seq<Message>, start: nat)
    requires AllEncodable(messages)
    ensures Framable(Encodings(messages))
    ensures StreamEvents(EncodeBinaryFile(Encodings(messages)), start, None)
         == Yielded(EventsOf(messages, start), None)
  {
    hide Encode, EncodeBinaryFile, Records, Events;
    forall m | m in Encodings(messages)
      ensures Fits(|m|, 2)
    {
      var k :| 0 <= k < |messages| && m == Encode(messages[k]);
      EncodedLength(messages[k]);
    }
    ReadOfWrite(Encodings(messages), start);
    RecordsDecode(messages, start);
  }
}
