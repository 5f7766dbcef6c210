/** Byte strings split into big-endian stream beats. */
module AxisBeats {
  import opened Wrappers
  import opened Bytes
  import opened Bits

  datatype Beat = Beat(word: nat, keep: nat, last: bool)

  datatype Word = Word(word: nat, tlast: bool)

  datatype BeatError = WordBytesNotPositive | EmptyPacket

  function PopCount(w: nat): nat {
    if w == 0 then 0 else w % 2 + PopCount(w / 2)
  }

  function Zeros(n: nat): (bs: ByteString)
    ensures |bs| == n && forall k :: 0 <= k < n ==> bs[k] == 0
  {
    seq(n, k => 0)
  }

  /** The chunk in the most significant lanes, zeros below it, and a keep bit for each byte of the chunk. */
  function MakeBeat(chunk: ByteString, n: nat, last: bool): Beat
    requires |chunk| <= n
  {
    BitMask(|chunk|, 0);
    Beat(FromBytes(chunk + Zeros(n - |chunk|)), Shl(Shl(1, |chunk|) - 1, n - |chunk|), last)
  }

  function Beats(payload: ByteString, n: nat): seq<Beat>
    requires n > 0
    decreases |payload|
  {
    if |payload| <= n then [MakeBeat(payload, n, true)]
    else [MakeBeat(payload[..n], n, false)] + Beats(payload[n..], n)
  }

  /** The beat of the chunk at some offset; the last chunk may be short. */
  function BeatAt(payload: ByteString, n: nat, offset: nat): Beat {
    var chunk := Slice(payload, offset, offset + n);
    MakeBeat(chunk, n, offset + n >= |payload|)
  }

  /** The beats still to come from some offset on. */
  ghost function Rest(payload: ByteString, n: nat, offset: nat): seq<Beat>
    requires n > 0
  {
    if offset >= |payload| then [] else Beats(payload[offset..], n)
  }

  lemma RestNext(payload: ByteString, n: nat, offset: nat, words: seq<Beat>)
    requires n > 0 && offset < |payload|
    ensures words + Rest(payload, n, offset)
         == words + [BeatAt(payload, n, offset)] + Rest(payload, n, offset + n)
  {
    hide MakeBeat;
    var rest := payload[offset..];
    if |rest| <= n {
      assert Slice(payload, offset, offset + n) == rest;
    } else {
      assert Slice(payload, offset, offset + n) == rest[..n] && rest[n..] == payload[offset + n..];
    }
  }

  lemma RestOfAll(payload: ByteString, n: nat)
    requires n > 0 && payload != []
    ensures Rest(payload, n, 0) == Beats(payload, n)
  {
  }

  function WithoutKeep(beats: seq<Beat>): (words: seq<Word>)
    ensures |words| == |beats|
  {
    seq(|beats|, k requires 0 <= k < |beats| => Word(beats[k].word, beats[k].last))
  }

  lemma RestEnds(payload: ByteString, n: nat, offset: nat, words: seq<Beat>)
    requires n > 0 && offset >= |payload|
    ensures words + Rest(payload, n, offset) == words
  {
  }

  /** The word of the chunk at some offset. */
  function WordAt(payload: ByteString, n: nat, offset: nat): Word {
    var chunk := Slice(payload, offset, offset + n);
    Word(FromBytes(chunk + Zeros(n - |chunk|)), offset + n >= |payload|)
  }

  lemma WordNext(beats: seq<Beat>, payload: ByteString, n: nat, offset: nat)
    ensures WithoutKeep(beats + [BeatAt(payload, n, offset)]) == WithoutKeep(beats) + [WordAt(payload, n, offset)]
  {
    hide Shl, FromBytes, Zeros, Slice;
  }

  method AxisBytesToWords(payload: ByteString, wordBytes: int) returns (result: Result<seq<Beat>, BeatError>)
    ensures wordBytes <= 0 ==> result == Err(WordBytesNotPositive)
    ensures wordBytes > 0 && payload == [] ==> result == Err(EmptyPacket)
    ensures wordBytes > 0 && payload != [] ==> result == Ok(Beats(payload, wordBytes))
  {
    hide *;
    if wordBytes <= 0 {
      return Err(WordBytesNotPositive);
    }
    if payload == [] {
      return Err(EmptyPacket);
    }
    var n: nat := wordBytes;
    var words: seq<Beat> := [];
    var offset: nat := 0;
    RestOfAll(payload, n);
    while offset < |payload|
      decreases |payload| - offset
      invariant Beats(payload, n) == words + Rest(payload, n, offset)
    {
      RestNext(payload, n, offset, words);
      words := words + [BeatAt(payload, n, offset)];
      offset := offset + n;
    }
    RestEnds(payload, n, offset, words);
    result := Ok(words);
  }

  /** The same split for a bus without keep lanes. */
  method ItchPayloadToWords(payload: ByteString, wordBytes: int) returns (result: Result<seq<Word>, BeatError>)
    ensures wordBytes <= 0 ==> result == Err(WordBytesNotPositive)
    ensures wordBytes > 0 && payload == [] ==> result == Err(EmptyPacket)
    ensures wordBytes > 0 && payload != [] ==> result == Ok(WithoutKeep(Beats(payload, wordBytes)))
  {
    hide *;
    if wordBytes <= 0 {
      return Err(WordBytesNotPositive);
    }
    if payload == [] {
      return Err(EmptyPacket);
    }
    var n: nat := wordBytes;
    var words: seq<Word> := [];
    var offset: nat := 0;
    RestOfAll(payload, n);
    ghost var beats: seq<Beat> := [];
    while offset < |payload|
      decreases |payload| - offset
      invariant words == WithoutKeep(beats) && Beats(payload, n) == beats + Rest(payload, n, offset)
    {
      RestNext(payload, n, offset, beats);
      WordNext(beats, payload, n, offset);
      words := words + [WordAt(payload, n, offset)];
      beats := beats + [BeatAt(payload, n, offset)];
      offset := offset + n;
    }
    RestEnds(payload, n, offset, beats);
    result := Ok(words);
  }

  // ----- what the beats carry

  lemma {:induction false} PopCountShl(w: nat, n: nat)
    ensures PopCount(Shl(w, n)) == PopCount(w)
  {
    hide PopCount;
    if n > 0 {
      PopCountShl(w, n - 1);
      PopCountDouble(Shl(w, n - 1));
    }
  }

  lemma PopCountDouble(w: nat)
    ensures PopCount(2 * w) == PopCount(w)
  {
  }

  lemma {:induction false} PopCountMask(n: nat)
    ensures Shl(1, n) >= 1 && PopCount(Shl(1, n) - 1) == n
  {
    if n > 0 {
      PopCountMask(n - 1);
      assert (Shl(1, n) - 1) / 2 == Shl(1, n - 1) - 1;
    }
  }

  /** The bytes a receiver takes from a beat: as many of the most significant lanes as keep has bits. */
  function Taken(b: Beat, n: nat): ByteString {
    if Fits(b.word, n) then Slice(Uint(b.word, n), 0, PopCount(b.keep)) else []
  }

  function TakenAll(beats: seq<Beat>, n: nat): ByteString {
    if beats == [] then [] else Taken(beats[0], n) + TakenAll(beats[1..], n)
  }

  function Kept(beats: seq<Beat>): nat {
    if beats == [] then 0 else PopCount(beats[0].keep) + Kept(beats[1..])
  }

  /** Keep has its bits in the most significant lanes, without a hole. */
  ghost predicate Contiguous(keep: nat, n: nat) {
    PopCount(keep) <= n && forall i: nat :: Bit(keep, i) <==> n - PopCount(keep) <= i < n
  }

  /** The lanes a beat does not keep are zero. */
  predicate Padded(b: Beat, n: nat) {
    Fits(b.word, n) && forall k :: PopCount(b.keep) <= k < n ==> Uint(b.word, n)[k] == 0
  }

  lemma BeatCarries(chunk: ByteString, n: nat, last: bool)
    requires |chunk| <= n
    ensures var b := MakeBeat(chunk, n, last);
      PopCount(b.keep) == |chunk| && Taken(b, n) == chunk && Contiguous(b.keep, n) && Padded(b, n) && b.last == last
  {
    hide Shl, PopCount, Bit, Uint, FromBytes, Bytes.Fits;
    var padded := chunk + Zeros(n - |chunk|);
    UintFrom(padded);
    PopCountMask(|chunk|);
    PopCountShl(Shl(1, |chunk|) - 1, n - |chunk|);
    forall i: nat
      ensures Bit(MakeBeat(chunk, n, last).keep, i) <==> n - |chunk| <= i < n
    {
      BitShl(Shl(1, |chunk|) - 1, n - |chunk|, i);
      if i >= n - |chunk| {
        BitMask(|chunk|, i - (n - |chunk|));
      }
    }
  }

  /**
    A receiver gets back exactly the bytes: every beat but the last is full, the last one alone is
    marked and not empty, each keep is contiguous from the top and the kept lanes sum to the length.
    */
  lemma {:induction false} BeatsCarryPayload(payload: ByteString, n: nat)
    requires n > 0 && payload != []
    ensures var beats := Beats(payload, n);
      && TakenAll(beats, n) == payload && Kept(beats) == |payload|
      && (forall k :: 0 <= k < |beats| ==> Contiguous(beats[k].keep, n) && Padded(beats[k], n))
      && (forall k :: 0 <= k < |beats| ==> beats[k].last == (k == |beats| - 1))
      && (forall k :: 0 <= k < |beats| - 1 ==> PopCount(beats[k].keep) == n)
      && 0 < PopCount(beats[|beats| - 1].keep)
    decreases |payload|
  {
    hide MakeBeat, Taken, Contiguous, Padded, PopCount;
    if |payload| <= n {
      BeatCarries(payload, n, true);
      assert Beats(payload, n)[1..] == [];
    } else {
      BeatCarries(payload[..n], n, false);
      BeatsCarryPayload(payload[n..], n);
      assert Beats(payload, n)[1..] == Beats(payload[n..], n);
      assert payload == payload[..n] + payload[n..];
    }
  }

  /** The byte a word carries in one of its lanes, counted from the most significant; past the end they are zero. */
  function LaneByte(payload: ByteString, position: nat): Byte {
    if position < |payload| then payload[position] else 0
  }

  /** Where a word starts in the payload. */
  function WordStart(k: nat, n: nat): nat {
    k * n
  }

  lemma NextStart(k: nat, n: nat)
    ensures WordStart(0, n) == 0 && WordStart(k + 1, n) == WordStart(k, n) + n
  {
  }

  /** Words hold the payload lane by lane, and exactly the last one is marked. */
  ghost predicate HoldsLanes(words: seq<Word>, payload: ByteString, n: nat) {
    && (forall k :: 0 <= k < |words| ==> HasLanes(words[k], payload, n, WordStart(k, n)))
    && (forall k :: 0 <= k < |words| ==> words[k].tlast == (k == |words| - 1))
    && words != [] && WordStart(|words| - 1, n) < |payload| <= WordStart(|words|, n)
  }

  ghost predicate HasLanes(word: Word, payload: ByteString, n: nat, start: nat) {
    Fits(word.word, n) && forall lane :: 0 <= lane < n ==> Uint(word.word, n)[lane] == LaneByte(payload, start + lane)
  }

  lemma LanesOfWord(chunk: ByteString, n: nat, last: bool)
    requires |chunk| <= n
    ensures HasLanes(Word(MakeBeat(chunk, n, last).word, last), chunk, n, 0)
    ensures MakeBeat(chunk, n, last).last == last
  {
    hide Shl, Uint, FromBytes, Bytes.Fits;
    UintFrom(chunk + Zeros(n - |chunk|));
  }

  lemma LanesOfLater(word: Word, payload: ByteString, n: nat, start: nat)
    requires n <= |payload| && HasLanes(word, payload[n..], n, start)
    ensures HasLanes(word, payload, n, start + n)
  {
    hide Uint, Fits;
    forall lane | 0 <= lane < n ensures Uint(word.word, n)[lane] == LaneByte(payload, start + n + lane) {
      assert LaneByte(payload[n..], start + lane) == LaneByte(payload, start + n + lane);
    }
  }

  lemma LanesOfFirst(word: Word, payload: ByteString, n: nat)
    requires n <= |payload| && HasLanes(word, payload[..n], n, 0)
    ensures HasLanes(word, payload, n, 0)
  {
    hide Uint, Fits;
  }

  lemma LanesOfRest(word: Word, rest: seq<Word>, payload: ByteString, n: nat)
    requires n > 0 && |payload| > n && HoldsLanes(rest, payload[n..], n) && !word.tlast
    requires HasLanes(word, payload, n, 0)
    ensures HoldsLanes([word] + rest, payload, n)
  {
    hide HasLanes, WordStart;
    NextStart(|rest| - 1, n);
    NextStart(|rest|, n);
    var words := [word] + rest;
    forall k | 0 <= k < |words| ensures HasLanes(words[k], payload, n, WordStart(k, n)) {
      if k > 0 {
        NextStart(k - 1, n);
        LanesOfLater(rest[k - 1], payload, n, WordStart(k - 1, n));
      }
    }
  }

  /** The words of a packet, lane by lane. */
  lemma {:induction false} WordsExactly(payload: ByteString, n: nat)
    requires n > 0 && payload != []
    ensures HoldsLanes(WithoutKeep(Beats(payload, n)), payload, n)
    decreases |payload|
  {
    hide MakeBeat, HoldsLanes, HasLanes;
    if |payload| <= n {
      LanesOfWord(payload, n, true);
      var word := Word(MakeBeat(payload, n, true).word, true);
      assert WithoutKeep(Beats(payload, n)) == [word];
      OneWord(word, payload, n);
    } else {
      LanesOfWord(payload[..n], n, false);
      WordsExactly(payload[n..], n);
      var word := Word(MakeBeat(payload[..n], n, false).word, false);
      LanesOfFirst(word, payload, n);
      LanesOfRest(word, WithoutKeep(Beats(payload[n..], n)), payload, n);
      assert WithoutKeep(Beats(payload, n)) == [word] + WithoutKeep(Beats(payload[n..], n));
    }
  }

  lemma OneWord(word: Word, payload: ByteString, n: nat)
    requires 0 < |payload| <= n && HasLanes(word, payload, n, 0) && word.tlast
    ensures HoldsLanes([word], payload, n)
  {
    hide HasLanes, WordStart;
    NextStart(0, n);
  }
}
