# Verification of the ITCH feed-handler golden model

This project models the Python golden model of the Nasdaq TotalView-ITCH feed handler, and the
checkers built around it, in Dafny, and proves what the pieces promise one by one and together.
`dafny verify dfyconfig.toml` checks all of it.

**Order book.** `OrderBook` is a class with the source's three dictionaries, an order table and two
maps of price levels, changed step by step as the source changes them, partial changes before a
failure included. `BookSteps` says as a function what each step does. `BookIndex` is the
independent reference: a table, a rejection rule and the levels recomputed from the table by summing
over its orders. The main theorem, `BookRefinement.ApplyRefines`, says that one event on the incremental
book gives exactly the reference's verdict and table, with levels equal to the recomputed ones.
From it follow reachability of the internal failures, quotes, conservation of shares, replace as
delete-then-add, commutation of independent events and projection to one stock.

**Wire codec.** Big-endian fields, the BinaryFILE records, the book messages, MoldUDP64 packets in
UDP, IPv4 and Ethernet, the frame planner and the recovery path, each with its inverse. The end
result is that encapsulating and recovering gives the source back with exactly the dropped chunk
missing, in order and numbered by source position, and which options let the plain comparison of
payload lists pass for every file. `EncapsulationLayout` says what a run puts on the wire frame by
frame and byte by byte, without the planner and the writer.

**Stimulus.** The random generator with its draws as an arbitrary choice sequence; its messages are
encoded, parsed and replayed through the book, and each is, byte by byte, what its draw calls for.

**Comparator and mirror.** The demo's resynchronising verifier as a greedy alignment, measured
against edit distance, with the streams on which it is optimal; and the hardware replay's mirror of
live orders, related to the book through the price window.

**Harness.** The three-stage correlation of the performance monitor (queues of mutable event
objects), occupancy from four-bit pointers, packed RTL words with their scoreboard, and the
byte-to-beat splitter.

Byte strings are sequences of numbers below 256. Exceptions are explicit results. Clocks, signals
and random draws are parameters.

## Where the code and its claims part

Each of these is a property one might expect and the code does not have, with the exact condition
under which it does.

- *A refused event leaves the book as it was.* The level-width check runs after the order table has
  been changed, so an overflowing add or replace leaves an order no level counts; every other refusal
  changes nothing (`ApplyRefines`), so a refused event leaves the book alone exactly if it is not
  refused for the level width (`UntouchedExactly`). Deleting such an order raises "would go negative"
  exactly if the level it failed to join holds fewer shares than it, "empty level has remaining shares"
  exactly if the level holds more and has one order, and otherwise goes through and takes away a counted
  order
  (`DeletingPhantomExactly`; `OverflowLeavesPhantomOrder` is an input).
- *Displayed orders and levels have shares.* The contract has no lower bound on shares. All orders are
  positive after every event exactly if no add or replace was for zero shares
  (`OrdersPositiveExactly`), and a level is positive exactly if some order resting there is
  (`LevelPositiveExactly`; `ZeroShareLevel` is an input, a quote of size zero that the verifier's
  normalisation cannot see, `NormalisedExactly`).
- *The generator is contract-valid.* No draw of at most so many turns raises an error exactly if the
  options fit that many turns (`OptionsFitExactly`), and every stream is then accepted by the book
  exactly if so many 500-share orders fit one level, that is if 500 times the length is below 2^32
  (`TurnBoundExact`).
- *Filtering the feed to one stock gives that stock's book* after every event: exactly if every event
  with the stock's locate names, when it names a live order, one of the stock's, and every event with
  another locate names none of the stock's unless it executes or cancels zero shares of an order that has
  some (`StockProjectionExact`). For all stocks at once: exactly if every event carries the locate of the
  order it names (`ProjectionExact`). The unfiltered book never checks this.
- *The verifier's count is the edit distance.* It never falls below it (`CountBoundsDistance`). It is the
  distance whatever is observed exactly if all expected entries are equal (`AlwaysDistanceExactly`;
  `GreedyOvershoots` is an input), and for a given stream whenever no observation the search gives up
  on occurs beyond as many entries as it has paired (`SettledIsDistance`), which covers pure gaps,
  updates that occur nowhere and repeats.
- *The hardware mirror equals the in-window orders*: throughout exactly if no replace moves an order out
  of the window (`MirrorExact`): such a replace is not sent, so the old order stays. It always covers
  every in-window order (`MirrorCovers`).
- *Four-bit pointers determine the occupancy*: after every sample exactly if between any two samples the
  two hidden counters go round equally often (`OccupancyExactly`; at a jump of sixteen of one of them
  nothing is seen, `SixteenIsInvisible`).
- *No anomaly means that both FIFO counters moved by at most one and reads never overtook writes*: that
  holds while no counter moves by sixteen or more at once (`AnomaliesExact`). For counters that go round
  equally often, no anomaly means exactly that every step is zero or one modulo sixteen and the true
  occupancy is never negative (`AnomaliesTogether`; `JointJumpIsInvisible` is an input), and for any
  counters that the true occupancy is at least sixteen times the rounds by which writes are ahead
  (`AnomaliesExactly`).
- *Encapsulating and recovering is byte exact*: for each file exactly if what is sent is the file's
  payloads once and in order (`ComesBackExactly`; two equal payloads can hide a drop behind a duplicate),
  and for every file the options accept exactly if nothing is dropped, duplicated or sent on both feeds
  (`RoundtripExactly`).
- *`max_events` bounds the events written*: exactly if it is at least one or the input has no event to
  select (`LimitHoldsExactly`); it is looked at after an event is written, so a limit of zero writes exactly
  one event as soon as there is one (`ZeroLimitWritesOne`).
- The 217-bit and 201-bit overflow checks of the packer can never fire (`PackExactly`).

## Model

| member | source | states |
|---|---|---|
| GoldenOrderBook.OrderBook.constructor | golden/order_book.py:31-35 | a new book is empty and remembers the locate it expects |
| GoldenOrderBook.OrderBook.Apply | golden/order_book.py:37-57 | the fields after any event, accepted or refused part-way, and the error are those of the step function; a wrong locate is refused before anything else |
| GoldenOrderBook.OrderBook.ReplaceOrder | golden/order_book.py:111-138 | unknown old or taken new reference refuses with the book unchanged; otherwise the old order goes and the new one comes on the inherited side |
| GoldenOrderBook.OrderBook.ReduceOrder | golden/order_book.py:140-175 | excess shares refuse; a full reduction removes the order and its count, a partial one keeps the count |
| GoldenOrderBook.OrderBook.AddOrder | golden/order_book.py:177-195 | the order is in the table even when its level then refuses the shares |
| GoldenOrderBook.OrderBook.RemoveOrder | golden/order_book.py:197-213 | the level is decreased before the table entry is deleted |
| GoldenOrderBook.OrderBook.IncreaseLevel | golden/order_book.py:215-220 | one entry of one side changes, or the width check refuses and none does |
| GoldenOrderBook.OrderBook.DecreaseLevel | golden/order_book.py:222-290 | the three internal failures, the removal of an emptied level and the narrower level, on one side only |
| GoldenOrderBook.OrderBook.StoreLevels | golden/order_book.py:292-299 | updating a side's dictionary leaves the other side and the table alone |
| GoldenOrderBook.BestPrice | golden/order_book.py:59-69 | the price chosen is one of the side's, and none of them is better |
| BookRefinement.ApplyRefines | golden/order_book.py:37-57 | from a consistent book any event ends in the reference's verdict; if accepted, in the reference's table with both level maps equal to the per-price sums and counts; on level overflow in a table that is consistent once the added order is taken out; on any other refusal in the same book |
| BookIndex.LevelAtRemove | golden/order_book.py:197-213 | the sum of shares and the count at a price are one order plus the same over the others, whichever order is taken |
| BookIndex.LevelAtInsert | golden/order_book.py:177-195 | inserting an order adds its shares and one to the count of its own price and side, and to nothing else |
| BookIndex.LevelAtShrink | golden/order_book.py:140-175 | reducing an order takes the same shares from its price level, which holds at least that many, and leaves the count |
| BookIndex.IndexUnique | golden/order_book.py:28-35 | equal tables have equal level maps: the maps hold no information of their own |
| BookIndex.UncountedIsEmpty | golden/order_book.py:260-290 | a price no order counts at holds no shares, so an emptied level cannot keep any |
| BookIndex.ConsistentStep | golden/order_book.py:177-248 | a table change confined to one level, with that entry corrected, keeps both maps exact |
| BookIndex.DecreaseRefines | golden/order_book.py:222-290 | on a consistent book a decrease justified by the table never fails and leaves the levels exact for the smaller table |
| BookRefinement.RemoveRefines | golden/order_book.py:197-213 | removing a live order never fails and leaves exactly the other orders, levels exact |
| BookRefinement.AddRefines | golden/order_book.py:177-195 | an add that has room at its level keeps the book exact; one that has not leaves the table extended, the levels as they were and the width error |
| BookRefinement.PartialReduceRefines | golden/order_book.py:160-175 | a partial reduction never fails and leaves the levels exact for the reduced order |
| BookRefinement.ReduceRefines | golden/order_book.py:140-175 | an execute or cancel the reference accepts leaves the reference's table with exact levels, in the full and the partial case |
| BookTheorems.UntouchedExactly | golden/order_book.py:186-195 | a refused event leaves the whole book as it was if and only if it is not refused for the level width |
| BookTheorems.RefusedExactly | golden/order_book.py:37-195 | each refusal of a consistent book has its own condition on locate, references, shares and the level total reaching 2^32, and no other error occurs |
| BookTheorems.DecreaseFailsExactly | golden/order_book.py:222-290 | on any book at all, which failure a decrease of a level meets, each if and only if its own condition holds |
| BookTheorems.IncreaseFailsExactly | golden/order_book.py:215-220 | on any book, an increase fails exactly for a side that is no book side or a total of 2^32 or more |
| BookTheorems.EmptyConsistent | golden/order_book.py:31-35 | the empty book's levels agree with its table |
| BookTheorems.RunConsistent | golden/order_book.py:222-290 | in no run from a consistent book does a missing level, a negative level or an emptied level with shares occur; whenever the run did not overflow, the levels are exact |
| BookTheorems.PrefixAccepted | golden/order_book.py:37-57 | an accepted run was accepted at every earlier point |
| BookTheorems.DeletingPhantomExactly | golden/order_book.py:177-290 | for every add or replace refused for the level width, what deleting the order it left behind meets: negative shares, leftover shares or no error, each exactly under its condition on the level it failed to join; when there is no error the table is restored and the levels are wrong |
| BookTheorems.OverflowLeavesPhantomOrder | golden/order_book.py:186-195 | an input on which deleting the uncounted order fails on a level that still holds shares |
| BookTheorems.QuoteIsBest | golden/order_book.py:59-69 | a side has no quote exactly when it has no order; else the quote is the best order's price with all shares resting there |
| BookTheorems.BboIsBest | golden/order_book.py:59-69 | both sides' quotes are the best live price with the sum of its shares, within 32 bits |
| BookTheorems.ReplaceIsDeleteThenAdd | golden/order_book.py:111-138 | past its reference checks a replace, same reference and same price included, does to the book and to the error exactly what deleting the old order and adding the new one on the inherited side does; before them the book is unchanged |
| BookTheorems.LevelsHoldSideShares | golden/order_book.py:215-248 | the levels of a side together hold the shares of the side's orders, no more and no less |
| BookTheorems.EventConserves | golden/order_book.py:81-138 | each accepted event changes a side's displayed shares by what it entered less what left |
| BookTheorems.SharesConserved | golden/order_book.py:37-57 | over an accepted run each side's displayed shares are all that entered minus all that left |
| BookTheorems.OrdersPositive | golden/contracts.py:49-53 | one direction of the next row: without zero-share adds and replaces every live order has shares |
| BookTheorems.OrdersPositiveExactly | golden/contracts.py:49-53 | over an accepted run all live orders have shares after every event if and only if no add or replace was for none |
| BookTheorems.LevelZeroExactly | golden/order_book.py:215-248 | the orders resting at a price hold no shares together if and only if each of them holds none |
| BookTheorems.LevelPositiveExactly | golden/order_book.py:215-248 | a displayed level has shares if and only if some order resting there has |
| BookTheorems.LevelsPositive | golden/contracts.py:156-167 | the consequence for levels: without zero-share adds and replaces every displayed level has shares; the exact condition is LevelPositiveExactly |
| BookTheorems.ZeroShareLevel | golden/contracts.py:49-53 | the contract admits an order for no shares, and its level is displayed and quoted with size zero |
| EventCommutation.EventsCommute | golden/order_book.py:81-195 | if two events naming different orders are accepted in one order, then in the other they are accepted exactly if the second is accepted first, both orders give the same whole book, and the only way to fail is the level width |
| EventCommutation.OrdersCommute | golden/order_book.py:81-195 | events naming disjoint references change the table the same way in either order |
| EventCommutation.SameRefsSameRefusal | golden/order_book.py:81-195 | an event is refused for the same reason on any two tables that agree on the orders it names, the level width apart |
| LocateProjection.StockProjectionExact | golden/runner.py:107-131 | for an accepted unfiltered run and one locate: the run filtered to it is accepted with the table restricted to it and exact levels after every prefix if and only if events of the locate name orders of the locate only, and other events name none of them except to execute or cancel zero shares of an order that has some |
| LocateProjection.ProjectionExact | golden/runner.py:107-131 | all stocks at once, for an accepted unfiltered run: every event carries the locate of the order it names if and only if, after every prefix and for every locate, the filtered run is accepted with the table restricted to that locate and exact levels |
| LocateProjection.WellLocatedProjects | golden/order_book.py:301-308 | a well-located accepted run, filtered to any locate, is accepted and holds exactly that stock's orders |
| LocateProjection.MisplacedRejects | golden/order_book.py:177-195 | the first misplaced event is refused as an unknown reference by the book of the locate it carries |
| Bytes.FromUint | golden/itch_parser.py:311-312 | reading a written big-endian field gives the value back |
| Bytes.UintFrom | golden/stimulus.py:47-50 | writing the value read from bytes gives the bytes back |
| Bytes.BigEndian | golden/itch_parser.py:311-312 | fields of two, four, six and eight bytes weigh the first byte most, byte by byte |
| ItchParser.ParseEncoded | golden/itch_parser.py:90-176 | every message the builders can make decodes to exactly the event it stands for, whatever its type, attribution or price |
| ItchParser.ParsedIsEncoded | golden/itch_parser.py:90-176 | whatever decodes to an event is the encoding of one message, which stands for that event |
| ItchParser.RejectedExactly | golden/itch_parser.py:90-176 | a payload is refused exactly when it is empty or has a book type without being any message's encoding |
| ItchParser.DecodedExactly | golden/itch_parser.py:90-176 | for every payload, in numbers: which type bytes are book messages, their lengths, the operation of each, the offset of every field, 0x42 for a buy and 0x53 for a sell, and which error anything else raises |
| ItchParser.ValidExactlyDecodable | golden/contracts.py:28-125 | an event passes the contract checks if and only if, once timestamped, some payload decodes to it |
| BinaryFile.ReadBinaryFile | golden/itch_parser.py:54-87 | the cursor loop yields the records of the whole input, the numbering, the limit and the truncation errors included |
| BinaryFile.ReadWritten | golden/itch_parser.py:54-87 | written messages come back first, in order and consecutively numbered, whatever follows them |
| BinaryFile.ReadOfWrite | golden/stimulus.py:53-62 | reading a written file yields its messages and no error |
| BinaryFile.LimitIgnoresTheRest | golden/itch_parser.py:54-87 | a limit of k yields the first k records even before malformed bytes |
| BinaryFile.WriteOfRead | golden/stimulus.py:53-62 | re-encoding what a read yields gives the input up to the unread tail, which is empty exactly if there was no error |
| BinaryFile.ReadableExactly | golden/itch_parser.py:54-87 | a file reads without error exactly if it is a written file |
| BinaryFile.StopsExactly | golden/itch_parser.py:54-87 | a read fails with a truncated length if one byte is left over and with an overlong record if a length exceeds what follows it, and otherwise not |
| ItchFeed.RecordsDecode | golden/itch_parser.py:270-284 | encoded messages decode to one event each, in order, numbered consecutively |
| ItchFeed.FeedRoundTrip | golden/itch_parser.py:287-302 | a feed written to a file parses back to one event per message |
| Stimulus.RandomValidMessages | golden/stimulus.py:388-508 | for any options and draws: the encodings of all messages and the mirror of live orders, or an error exactly if the last turn drawn has a field that does not fit |
| Stimulus.MessagesBytes | golden/stimulus.py:405-506 | payload by payload, in numbers: type byte, length, locate, tracking number, running timestamp, reference, shares, side byte, symbol, attribution, match number, and the price from base price and offset, from the live order, or one step from it |
| Stimulus.DrawnIsRead | golden/stimulus.py:405-506 | what the parser reads from such a payload has the drawn operation, reference, shares, side and price |
| Stimulus.ReduceLiveOrder | golden/stimulus.py:600-614 | a mirror order loses the shares, and goes when none are left |
| Stimulus.InvariantHolds | golden/stimulus.py:388-508 | after any draws live references are below the next one, orders hold 1 to 500 shares, buys are at or below the base price, or at one where the base price is zero, sells are above it, and there are no more orders than turns |
| Stimulus.AdvanceKeepsInvariant | golden/stimulus.py:425-506 | one turn, whichever operation it draws, keeps that invariant |
| Stimulus.TurnFits | golden/stimulus.py:388-508 | within the reach of the options every draw completes its turn |
| Stimulus.FitCompletes | golden/stimulus.py:388-508 | options that fit the number of turns let every drawn sequence complete |
| StimulusTheorems.OptionsFitExactly | golden/stimulus.py:388-508 | nothing that can be drawn in so many turns raises an error if and only if locate, references, timestamps and prices, climbing five a turn, fit that many turns and the base price is at least 20 |
| StimulusTheorems.StimulusAccepted | golden/stimulus.py:388-508 | for any draws of fewer than 2^32/500 turns the messages encode, parse to one event each and replay without rejection; after each turn the book's table is the generator's mirror, its levels are exact, and every buy is at or below the base price and every sell above it |
| StimulusTheorems.StimulusSpeaks | golden/stimulus.py:405-506 | message by message over the whole stream, payload and parsed event are what the draw calls for, given the orders that replaying the earlier events left in the book |
| StimulusTheorems.ReplayMirrors | golden/stimulus.py:535-543 | after every prefix the replayed book holds exactly the generator's live orders |
| StimulusTheorems.TurnBoundExact | golden/stimulus.py:388-508 | all streams of so many turns are accepted if and only if so many full-size orders fit one 32-bit level |
| StimulusTheorems.PileGrows | golden/stimulus.py:405-429 | the stream of full-size buys at the base price is accepted up to that bound and then overflows the level |
| Runner.RunBytes | golden/runner.py:81-136 | one event per selected book message and one state after each, up to the first decoding error, rejection or event limit, whichever comes first, and that outcome; the statistics count exactly the records looked at |
| Runner.RunRecords | golden/runner.py:107-136 | the same for records already read, the read error only when nothing ended the run before it |
| Runner.ReportUnique | golden/runner.py:107-136 | the input determines the whole report: events, states, statistics and error |
| Runner.LimitHoldsExactly | golden/runner.py:133-134 | at most max_events events are written if and only if the limit is at least one or the input has no event that passes the filter |
| Runner.ZeroLimitWritesOne | golden/runner.py:133-134 | a limit of zero writes exactly one event if there is one to write |
| Runner.ReplayEvents | golden/stimulus.py:535-543 | a state after every event of one unfiltered book, stopping at the first rejection |
| Runner.ListedInOrder | golden/runner.py:229-244 | the serialised rows are the levels, each once, strictly best first |
| Runner.ListingUnique | golden/runner.py:229-244 | there is only one such listing, so the dictionary's own order does not show |
| Runner.FirstRowIsQuote | golden/runner.py:229-244 | the first row of a side is its quote; no row means no quote |
| Runner.StreamsInStep | golden/runner.py:123-131 | message indices rise strictly and the state stream carries the event stream's indices position by position |
| ReportedStates.StatesShow | golden/order_book.py:71-79 | every state written has the exact bid levels and ask levels of the table after its event, quotes each side at the best live price with all shares there, lists each side starting with its quote, and carries its event's number |
| ReportedStates.StatsExactly | golden/runner.py:125-131 | the statistics hold the last state's number and quotes and the greatest numbers of live orders, bid levels and ask levels over all states |
| ReportedStates.ReportShows | golden/runner.py:107-136 | both of these for every report a run may give |
| MoldUdp.BuildMoldPayload | golden/network_encapsulator.py:440-452 | the built packet is the header followed by the framed messages |
| MoldUdp.IterMoldMessages | golden/network_encapsulator.py:549-586 | the reader yields what the packet says, with the messages before an error and the error itself |
| MoldUdp.IterBody | golden/network_encapsulator.py:569-586 | the cursor loop reads the announced number of messages, numbered from the packet's sequence number, and refuses missing or trailing bytes |
| MoldUdp.PacketRoundTrip | golden/network_encapsulator.py:440-452 | a built data packet yields its messages in order; heartbeats and end-of-session yield none |
| MoldUdp.PacketRebuilds | golden/network_encapsulator.py:549-586 | rebuilding any accepted data packet from its session, sequence number, count and recovered messages gives the same bytes |
| MoldUdp.BodyIsWritten | golden/network_encapsulator.py:569-586 | an accepted body is the announced number of framed messages and nothing else |
| MoldUdp.BodyStopsExactly | golden/network_encapsulator.py:569-586 | reading stops after the announced messages, with an error exactly if bytes follow, or before them with a cut length or a cut payload, everything before being framed messages |
| MoldUdp.MoldMessagesExactly | golden/network_encapsulator.py:549-569 | a packet below 20 bytes is refused, counts 0 and 0xFFFF announce nothing, and the sequence number stands at byte 10 |
| WireFrames.IterEthernetFrames | golden/network_encapsulator.py:488-520 | the cursor loop terminates and splits the stream as the recursive definition does, errors included |
| WireFrames.FirstFrameWellFramed | golden/network_encapsulator.py:488-520 | an accepted frame has at least 42 bytes, lies inside the stream and holds every header field the receiver reads |
| WireFrames.FramesTileStream | golden/network_encapsulator.py:488-520 | the frames of an accepted stream concatenate to it |
| WireFrames.FirstFrameExactly | golden/network_encapsulator.py:488-520 | byte by byte, the frame at the front of a stream or the first thing wrong with it |
| WireFrames.UdpPayloadExactly | golden/network_encapsulator.py:524-546 | byte by byte, the packet inside a frame or the first header that is not IPv4 with UDP |
| WireFrames.BuiltFrame | golden/network_encapsulator.py:408-437 | a built frame is well formed and its packet can be taken out again |
| WireFrames.BuiltFields | golden/network_encapsulator.py:408-437 | EtherType, version and IHL, protocol, Total Length (section 3.1 of RFC 791) and UDP length (RFC 768) stand where the receiver looks and count the packet |
| WireFrames.BuiltHeaders | golden/network_encapsulator.py:408-437 | all 42 header bytes in numbers: both MAC and both IP addresses, source port before destination port, time to live, the zero words and the three length fields |
| FramePlans.BuildFramePlans | golden/network_encapsulator.py:310-376 | the planning loop gives the records in groups of the packet size with running sequence numbers, then heartbeats and the end of session |
| FramePlans.DataPlansCover | golden/network_encapsulator.py:310-376 | the data plans account for every record, and the last one's successor number is the start plus the record count |
| FramePlans.PlansCover | golden/network_encapsulator.py:81-86 | with heartbeats and end-of-session included the plans still account for every record once and end at the same next number |
| FramePlans.WriteFrame | golden/network_encapsulator.py:456-485 | a frame is appended with its metadata unless one of its fields does not fit, and then nothing is |
| FramePlans.WriteCopies | golden/network_encapsulator.py:209-246 | a plan is written once per feed and once more where it is to be duplicated, or not at all if it does not fit |
| FramePlans.WritePlans | golden/network_encapsulator.py:209-246 | the loop writes all copies of all plans but the dropped ones and stops at the first that does not fit |
| FramePlans.EncapsulateRecords | golden/network_encapsulator.py:182-259 | options, session, read and frame-index errors are refused with an empty sink; an overflow leaves exactly the frames of the plans before the first one that is to be written and does not fit; otherwise the sink holds all written plans and the counters their totals |
| FramePlans.EncapsulateBytes | golden/network_encapsulator.py:138-259 | the same from file bytes, on success and on every refusal |
| FramePlans.StopUnique | golden/network_encapsulator.py:187-246 | there is only one plan to stop at, so the sink of an overflowing run is determined |
| EncapsulationLayout.SinkAlwaysLaid | golden/network_encapsulator.py:187-259 | the stream splits into one frame per metadata record, of the recorded length and number, and every frame has its headers, the session padded with spaces, the sequence number and count of its record and then its messages; on success and on overflow |
| EncapsulationLayout.FramesExactly | golden/network_encapsulator.py:187-246 | the frames of a run are exactly the chunks of so many records, undropped, once each as feed A, as B if asked and as the duplicate, then the heartbeat, then the end of session with count 0xFFFF; labels and order included |
| EncapsulationLayout.TotalsExactly | golden/network_encapsulator.py:248-259 | the counters are the records read, the frames in the stream, the data frames among them, the messages a receiver recovers, one if a frame was dropped, and the next sequence number |
| EncapsulationLayout.RefusedExactly | golden/network_encapsulator.py:590-648 | which error a run raises, if any: option ranges, a session over ten bytes, a bad file, a frame index without a chunk, or a frame whose sequence number or total length does not fit |
| Recovery.RecoverItchPayloads | golden/network_encapsulator.py:263-271 | the receiver's two nested loops yield the messages of all frames, numbered by frame, up to the first error |
| Recovery.RecoverEach | golden/network_encapsulator.py:263-271 | frames are taken apart one after another, the messages before an error kept |
| Recovery.RecoverSplits | golden/network_encapsulator.py:263-271 | splitting first and taking apart afterwards gives what one pass gives |
| Recovery.FlatCarries | golden/network_encapsulator.py:263-271 | frames written one after another are recovered one after another |
| Recovery.EncapsulateThenRecover | golden/network_encapsulator.py:138-271 | recovery succeeds and the payloads are the source chunk by chunk, each as often as it was written, the dropped chunk not at all |
| Recovery.DataNumbered | golden/network_encapsulator.py:379-391 | each recovered sequence number plus message number is the start plus the source position of that payload |
| Recovery.DataRestored | golden/network_encapsulator.py:182-259 | keeping the first copy of every number gives the chunks that were not dropped, once and in order |
| Recovery.SourceRestored | golden/network_encapsulator.py:182-271 | every message is numbered by its source position, keeping the first copy per number gives the numbered source without the dropped chunk, and the numbers that never arrive are exactly the dropped chunk's |
| Recovery.FirstCopiesNumbers | golden/network_encapsulator.py:263-271 | discarding repeats discards no number |
| Recovery.WithoutChunkNumbers | golden/network_encapsulator.py:187-191 | without a chunk exactly its range of numbers is missing |
| RoundtripCheck.AssertRoundtrip | golden/network_encapsulator.py:275-307 | unreadable input, unrecoverable frames, a different number of payloads and the first differing payload are reported in that order; it passes exactly if both sides are read without error and the payload lists are equal |
| RoundtripCheck.ComesBackExactly | golden/network_encapsulator.py:275-307 | for a file that is encapsulated without refusal the comparison passes if and only if the payloads sent, copies and drops included, are the source's, once and in order |
| RoundtripCheck.RoundtripExactly | golden/network_encapsulator.py:275-307 | under options that accept some file with messages, the comparison passes for every accepted file if and only if no frame is dropped, none duplicated and there is no second feed |
| GreedyAlignment.CompareAccounts | demo/oracle.py:112-199 | at every step the pairs are a strictly increasing common subsequence and mismatches are position plus observed minus twice the pairs |
| GreedyAlignment.FinalAccounts | demo/oracle.py:232-246 | in the end the count is expected plus observed minus twice the pairs |
| GreedyAlignment.EditDistanceLeast | demo/oracle.py:143-199 | no common subsequence does better than the insert/delete edit distance |
| GreedyAlignment.EditDistanceAttained | demo/oracle.py:143-199 | some common subsequence attains it |
| GreedyAlignment.CountBoundsDistance | demo/oracle.py:143-199 | the final count is never below the edit distance |
| GreedyAlignment.GreedyOvershoots | demo/oracle.py:143-158 | an input on which the count is above the distance: a stray update that reappears later costs good entries |
| GreedyAlignment.GreedyStaysAhead | demo/oracle.py:143-158 | the greedy match is never behind any embedding of the observed stream |
| GreedyAlignment.ResynchronisationComplete | demo/oracle.py:143-199 | no observation is unexpected or extra if and only if the observed stream is a subsequence of the expected one, repeated states included; then the count is the difference of the lengths |
| GreedyAlignment.CleanMeansEqual | demo/oracle.py:212-248 | the final count is zero exactly for equal streams |
| GreedyOptimality.SettledIsBest | demo/oracle.py:143-199 | if no observation the search gives up on occurs beyond as many entries as it has paired, no alignment pairs more |
| GreedyOptimality.SettledIsDistance | demo/oracle.py:143-199 | then the final count is the edit distance |
| GreedyOptimality.GapsAreDistance | demo/oracle.py:143-199 | in particular for an observed stream that only misses updates, where it is the number missing |
| GreedyOptimality.LateEntryFirst | demo/oracle.py:143-158 | seeing a later, different entry first makes the count exceed the distance, whatever the expected stream |
| GreedyOptimality.AlwaysDistanceExactly | demo/oracle.py:112-248 | the count is the edit distance for every observed stream if and only if all expected entries are equal |
| OracleVerification.NormalisedExactly | demo/oracle.py:18-32 | a golden BBO driven with zeros for an empty side normalises to its own stream entry exactly if no side is quoted with size zero, prices being in one unit |
| OracleVerification.OracleVerifier.constructor | demo/oracle.py:38-68 | a new verifier has observed nothing and failed nothing |
| OracleVerification.OracleVerifier.Observe | demo/oracle.py:112-210 | after any observation the state is what comparing each stock's own stream comes to; an unknown symbol changes nothing; the result says whether it matched in place |
| OracleVerification.OracleVerifier.Resynchronise | demo/oracle.py:136-199 | position, count, latch and first failure after a match, a gap or a stray update |
| OracleVerification.FindForward | demo/oracle.py:143-152 | the search finds the first equal entry after the position, if there is one |
| OracleVerification.OracleVerifier.LatchSummaryFailure | demo/oracle.py:250-265 | the count grows, the latch is set and an earlier first failure is kept |
| OracleVerification.OracleVerifier.Finalise | demo/oracle.py:212-248 | nothing is latched if and only if every stock emitted its expected stream and the message count and hash match; the count adds one for each of the last two; an earlier first failure stays, otherwise it is the message count, else the hash, else the missing updates if some stock has shown fewer than expected |
| OracleVerification.InterleavingIrrelevant | demo/oracle.py:112-199 | the counts do not depend on how the stocks interleave |
| OracleVerification.FinalTotalAccounts | demo/oracle.py:232-246 | the total is all expected plus all observed minus twice the paired |
| OracleVerification.PassMeansEqual | demo/oracle.py:212-248 | the total is zero exactly if each stock's streams are equal |
| OracleVerification.FailureIffMismatch | demo/oracle.py:154-199 | a first failure is on record exactly when something has been counted |
| OracleVerification.FirstFailureExactly | demo/oracle.py:136-199 | the first failure is that of the first observation that is not its stock's next expected entry, with its position and its cause: nothing left to expect, found further on and where, or found nowhere |
| OracleVerification.UnfailedIsPrefix | demo/oracle.py:136-146 | without a failure every stock has shown a prefix of its expected stream |
| HardwareMirror.ConvertPrice | demo/hardware.py:194-209 | the four price bytes are overwritten in place with whole cents and no other byte changes; a message too short is refused untouched |
| HardwareMirror.InCentsExactly | demo/hardware.py:194-209 | adds and priced executions have byte 32 on divided by a hundred, replaces byte 31 on, everything else is left alone |
| HardwareMirror.ConvertibleExactly | demo/hardware.py:194-209 | the length from which on a message of each type holds its price |
| HardwareMirror.ActiveOrders.Commit | demo/hardware.py:296-333 | the dictionary becomes what the planned action says |
| HardwareMirror.PlanFollowsEvent | demo/hardware.py:219-294 | for every message the parser accepts, the plan made from the converted bytes is the one its event calls for |
| HardwareMirror.PlannedExactly | demo/hardware.py:219-294 | what is planned for any decodable message of the three stocks, with each stock's window of 16384 cents in numbers |
| HardwareMirror.NothingPlanned | demo/hardware.py:219-240 | nothing is planned for another stock or another message type |
| HardwareMirror.EventCovered | demo/hardware.py:249-333 | one accepted event keeps every in-window live order mirrored with the same remaining shares |
| HardwareMirror.EventExact | demo/hardware.py:249-294 | from an exact mirror one event leaves it exact if and only if it does not move an order out of the window |
| HardwareMirror.MirrorCovers | demo/hardware.py:219-333 | over any accepted feed of one stock every live order whose floored price is in the 14-bit window is mirrored with its remaining shares |
| HardwareMirror.MirrorExact | demo/hardware.py:219-333 | the mirror is exactly the in-window orders after every message if and only if no replace ever moves an order out of the window |
| FeedPerf.FeedPerfEvent.constructor | tb/itch_harness/feed_perf.py:41-51 | a decoded event has no stage cycle yet |
| FeedPerf.FeedPerfEvent.LatencyCycles | tb/itch_harness/feed_perf.py:57-99 | an incomplete event is refused, cycles out of order are refused, otherwise the five differences are returned |
| FeedPerf.StockPipeline.constructor | tb/itch_harness/feed_perf.py:442-456 | a stock starts with empty queues |
| FeedPerf.StockPipeline.Decode | tb/itch_harness/feed_perf.py:574 | the decoded event joins the end of the first queue |
| FeedPerf.StockPipeline.Accept | tb/itch_harness/feed_perf.py:585-597 | the oldest waiting event gets the cycle and moves on, or the fire is a miss; stage cycles stay ordered and each fire stays paired with its event |
| FeedPerf.StockPipeline.Price | tb/itch_harness/feed_perf.py:608-620 | the same for the internal BBO |
| FeedPerf.StockPipeline.Publish | tb/itch_harness/feed_perf.py:638-646 | the same for the external BBO |
| FeedPerf.StepsKeepFlow | tb/itch_harness/feed_perf.py:576-646 | no stage loses, repeats or reorders an event of the stock |
| FeedPerf.StockPipeline.AllComplete | tb/itch_harness/feed_perf.py:207-208 | if all of a stock's events are complete its queues are empty and the k-th fire of each stage belongs to the k-th event |
| FeedHandlerMonitor.FeedHandlerPerfMonitor.constructor | tb/itch_harness/feed_perf.py:432-459 | a new monitor has captured nothing |
| FeedHandlerMonitor.FeedHandlerPerfMonitor.SampleDecodedEvent | tb/itch_harness/feed_perf.py:545-574 | a new event with the probed fields and this cycle joins the capture and its stock's first queue, or an unsupported locate is recorded |
| FeedHandlerMonitor.FeedHandlerPerfMonitor.SampleBookAccepts | tb/itch_harness/feed_perf.py:576-597 | exactly the stocks that fired step, each with its own error when nothing was waiting |
| FeedHandlerMonitor.FeedHandlerPerfMonitor.SampleInternalBbos | tb/itch_harness/feed_perf.py:599-620 | the same for the internal BBOs |
| FeedHandlerMonitor.FeedHandlerPerfMonitor.SampleExternalBbo | tb/itch_harness/feed_perf.py:622-646 | exactly the named stock steps; an invalid stock id or an empty queue is recorded |
| FeedHandlerMonitor.FeedHandlerPerfMonitor.Tick | tb/itch_harness/feed_perf.py:461-481 | one cycle samples decode, accepts, internal and external BBO in that order, lets the FIFO watch take its step and then counts the cycle; reset samples nothing |
| FeedHandlerMonitor.DecodedKeepsCorrelation | tb/itch_harness/feed_perf.py:545-574 | after a decode each stock's decoded events in order are still those completed, then those awaiting external BBO, internal BBO and book, and an error is on record exactly if something went wrong |
| FeedHandlerMonitor.AcceptedKeepsCorrelation | tb/itch_harness/feed_perf.py:576-597 | an accept keeps that correlation |
| FeedHandlerMonitor.PricedKeepsCorrelation | tb/itch_harness/feed_perf.py:599-620 | an internal BBO keeps it |
| FeedHandlerMonitor.PublishedKeepsCorrelation | tb/itch_harness/feed_perf.py:622-646 | an external BBO keeps it |
| FeedHandlerMonitor.FeedHandlerPerfMonitor.CompletedEventCount | tb/itch_harness/feed_perf.py:170-172 | the count is the number of events with an external cycle, and that is all of them exactly if all have one |
| FeedHandlerMonitor.FeedHandlerPerfMonitor.AssertClean | tb/itch_harness/feed_perf.py:174-221 | clean exactly under the listed conditions; then for each stock decoded, accepted, internal and external counts are equal, the k-th fire of each stage belongs to the k-th decoded event, and every event's cycles are in order, so no latency is negative |
| FeedHandlerMonitor.FeedHandlerPerfMonitor.CleanMatches | tb/itch_harness/feed_perf.py:174-221 | the same for one stock |
| FeedHandlerMonitor.FeedHandlerPerfMonitor.CompleteExactly | tb/itch_harness/feed_perf.py:207-208 | without errors every event is complete if and only if no stock's queues hold any |
| FeedHandlerMonitor.FeedHandlerPerfMonitor.StagesInOrder | tb/itch_harness/feed_perf.py:70-99 | in every reachable state, clean or not, every event's stage cycles so far are non-decreasing and none is ahead of the present, whether or not its locate is supported |
| FeedHandlerMonitor.FeedHandlerPerfMonitor.LatencyOf | tb/itch_harness/feed_perf.py:223-269 | in every reachable state, and so in reports made without the clean check, latencies of a captured event are never refused as negative, and are given exactly if all its stages are recorded |
| CorrelationTheorems.NoMissExactly | tb/itch_harness/feed_perf.py:576-646 | a stock never misses if and only if in no cycle a stage has fired more often than the stage before it; its queues then hold the differences |
| CorrelationTheorems.MonitorRun | tb/itch_harness/feed_perf.py:461-481 | over any trace no correlation error is recorded if and only if every locate and stock id is supported and no stage of any stock ever gets ahead of the stage before it; whatever the trace, everything on record follows from it: the events with their probed fields and cycles, the fire cycles of every stage and stock, and every error with its cycle, cause and stock, in order; every captured event's stages are in order, and the FIFO watch holds what the sampled pointers imply |
| CorrelationTheorems.CycleAddsErrors | tb/itch_harness/feed_perf.py:545-646 | one cycle records exactly its own errors: an unsupported locate, then accepts, then internal BBOs without an event waiting, stock by stock, then an invalid stock id or an external BBO without one |
| CorrelationTheorems.OnRecordNext | tb/itch_harness/feed_perf.py:545-646 | one cycle extends the lists of events, fires and errors by what its probes call for |
| CorrelationTheorems.DrainedExactly | tb/itch_harness/feed_perf.py:207-208 | in an orderly trace the queues have drained if and only if each stock published as often as it decoded |
| CorrelationTheorems.CheckedRun | tb/itch_harness/feed_perf.py:174-221 | a whole run is found clean if and only if the trace is orderly, every decoded event was published, the sampled pointers show no anomaly, overflow or leftover, the other streams were clean and the expected number was decoded |
| FifoOccupancy.FifoPointerWatch.SampleFifoPointers | tb/itch_harness/feed_perf.py:648-703 | every FIFO takes one step on the pointer differences, the anomalies are appended stock by stock; the first sample only sets the reference |
| FifoOccupancy.FifoPointerWatch.SampleStock | tb/itch_harness/feed_perf.py:671-700 | one FIFO's occupancy, maximum, overflow cycles and anomalies after one difference of each pointer |
| FifoOccupancy.OccupancyExactly | tb/itch_harness/feed_perf.py:671-688 | for any hidden counters the occupancy is true writes minus true reads after every sample if and only if between any two samples both counters go round equally often |
| FifoOccupancy.OccupancyExact | tb/itch_harness/feed_perf.py:671-688 | in particular the occupancy is true as long as no hidden counter moves by sixteen or more at once |
| FifoOccupancy.SixteenIsInvisible | tb/itch_harness/feed_perf.py:672-677 | an input: at a jump of sixteen the watch sees nothing |
| FifoOccupancy.RunningMaximumIsMaximum | tb/itch_harness/feed_perf.py:690-693 | the running maximum is the greatest occupancy of the run and is attained |
| FifoOccupancy.MaximumExact | tb/itch_harness/feed_perf.py:690-693 | whenever the counters go round equally often, the recorded maximum is that running maximum |
| FifoOccupancy.OverflowExact | tb/itch_harness/feed_perf.py:695-700 | whenever they do, overflow is flagged in exactly the cycles in which the true occupancy exceeds 15, once each and in order |
| FifoOccupancy.AnomaliesExactly | tb/itch_harness/feed_perf.py:679-688 | for any hidden counters no anomaly is reported if and only if every step of either is zero or one modulo sixteen and the true occupancy is never below sixteen times the rounds by which writes are ahead of reads |
| FifoOccupancy.AnomaliesListed | tb/itch_harness/feed_perf.py:679-688 | for any hidden counters the anomalies reported are exactly those they call for: write jumps, read jumps and negative occupancies, each with its cycle, stock and amount |
| FifoOccupancy.AnomaliesOrdered | tb/itch_harness/feed_perf.py:679-688 | they are listed once each, cycle by cycle, write before read before occupancy |
| FifoOccupancy.AnomaliesTogether | tb/itch_harness/feed_perf.py:679-688 | for counters that go round equally often: if and only if every step is zero or one modulo sixteen and the true occupancy is never negative |
| FifoOccupancy.AnomaliesExact | tb/itch_harness/feed_perf.py:679-688 | while no counter moves back or by sixteen or more at once: if and only if both move by at most one and reads never overtake writes |
| FifoOccupancy.JointJumpIsInvisible | tb/itch_harness/feed_perf.py:672-688 | an input: both counters jump by sixteen and no anomaly is reported |
| FifoOccupancy.WatchRun | tb/itch_harness/feed_perf.py:648-703 | sampling visible pointers once a cycle leaves the watch with what the three pairs of hidden counters imply, and with an anomaly exactly if one of the stocks calls for one |
| BitLayout.PlacedBit | tb/itch_harness/layout.py:116-129 | an insertion changes exactly the bits of its field, to those of the value |
| BitLayout.ExtractedBit | tb/itch_harness/layout.py:132-135 | an extraction has exactly the bits of its field |
| BitLayout.InsertThenExtract | tb/itch_harness/layout.py:116-135 | what is inserted is extracted |
| BitLayout.InsertPreservesOthers | tb/itch_harness/layout.py:116-135 | an insertion leaves every disjoint field as it was |
| BitLayout.UnpackPacked | tb/itch_harness/layout.py:166-172 | for any tiling layout unpacking a packed word returns every value |
| BitLayout.RepackUnpacked | tb/itch_harness/layout.py:216-246 | re-inserting the unpacked fields rebuilds any word of the layout's width, whatever was in it before |
| BitLayout.PackExactly | tb/itch_harness/layout.py:216-246 | packing fails exactly when a value is out of its field's range, the final width check never fires, and unpacking returns the values |
| BitLayout.UnpackedPacks | tb/itch_harness/layout.py:216-246 | any word of the layout's width packs again from its own fields, so unpacking is a bijection |
| Scoreboard.LayoutsTile | tb/itch_harness/layout.py:86-106 | the decoder's seven fields tile 217 bits and the book's six tile 201 |
| Scoreboard.EventsPack | tb/itch_harness/layout.py:138-163 | every valid event packs for both ports, within the width, and every field reads back as the event's |
| Scoreboard.PackedExactly | tb/itch_harness/layout.py:86-163 | where every field of an event stands in the two packed words, bit position by bit position, with 1 for a buy |
| Scoreboard.TypesFollowParser | tb/itch_harness/layout.py:204-213 | the type byte of any payload the golden parser decodes matches the operation it decodes to and no other |
| Scoreboard.AssertDataMatchesWord | tb/itch_harness/scoreboard.py:53-111 | a word passes exactly if its message type belongs to the operation and all fields the operation is compared on agree; otherwise the first disagreement in order is named |
| Scoreboard.AcceptedExactly | tb/itch_harness/scoreboard.py:53-111 | an event's own packing is accepted, and any other word exactly if it has a type of the operation and agrees with that packing on the compared fields |
| Scoreboard.ComparedExactly | tb/itch_harness/scoreboard.py:53-111 | which fields each operation is compared on, always in the order locate, reference, side, new reference, price, shares |
| Scoreboard.AcceptsBits | tb/itch_harness/scoreboard.py:53-111 | which words are accepted for an event, by type byte and bit positions, operation by operation |
| AxisBeats.AxisBytesToWords | tb/itch_harness/axis.py:424-456 | non-positive width and empty packet are refused; otherwise the loop gives the beats of successive chunks |
| AxisBeats.ItchPayloadToWords | tb/itch_harness/axis.py:217-247 | the same words and last flags without keep |
| AxisBeats.BeatsCarryPayload | tb/itch_harness/axis.py:424-456 | taking each beat's kept most significant bytes gives the packet back; keep is contiguous from the top and padding is zero; only the final beat is last, all others are full, and the kept counts sum to the length |
| AxisBeats.WordsExactly | tb/itch_harness/axis.py:217-247 | the words hold the payload lane by lane from the most significant, zeros past its end, with exactly the last one marked |
| AxisBeats.PopCountMask | tb/itch_harness/feed_perf.py:515-517 | a mask of n bits counts n, the byte count the monitor adds for a beat |

## Left out

- File, gzip, JSON, SHA-256, argparse and all command-line entry points: input is a byte sequence and output a returned list.
- Messages of exceptions: an error is a constructor naming its kind, not its text.
- `golden/contracts.py` checks on already-built `Bbo`, `Level` and `BookState` values other than the 32-bit level width: the model's states satisfy them by construction.
- Stock Directory decoding, symbol normalisation and resolving a symbol to a locate (`golden/itch_parser.py:179-267`): text handling; the locate filter is an input.
- `iter_itch_events` and the counting helpers of `golden/runner.py`: the same loop as `RunBytes` with less output.
- `directed_cases` and `default_messages` of `golden/stimulus.py`: fixed inputs.
- Stimulus.RandomValidMessages: the random source is an arbitrary choice sequence, so nothing is said about its distribution; negative options, which the builders refuse at the first message, are outside the model's types.
- FramePlans.EncapsulateBytes: the session is given as its encoded ASCII bytes; metadata records are kept as values, not as JSON lines.
- `generate_network_headers` and everything in `demo/hardware.py` that touches the overlay, DMA or GPIO, `HardwareReplay.run` included: hardware access.
- `OracleVerifier._validate_schema` and `snapshot`: checks and formatting of a JSON document.
- FeedHandlerMonitor.FeedHandlerPerfMonitor.AssertClean: whether the six stream error lists are empty is an input, because stalls, frame, ITCH and error sampling only append to lists; the reports with floating-point rates and percentiles are not modelled.
- FeedHandlerMonitor.FeedHandlerPerfMonitor.Tick: the probes of a cycle are an input record; cocotb triggers, clocks and reset drivers are not modelled.
- BBO packing in `tb/itch_harness/layout.py:181-201` and its scoreboard: four 32-bit fields under the generic layout theorems, nothing harder.
- `demo/generate_oracle.py`, `demo/app.py`, `tools/` and the test benches under `tb/tests`: streaming, user interface, formatting and drivers of hardware.
- The RTL: it is not part of this model, and nothing here says that the hardware equals the golden book.
- `releases/` and `demo/golden/`: copies of `golden/`.
