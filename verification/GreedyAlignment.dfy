/**
  The resynchronising comparison of one stock's observed updates with its expected updates.

  A mismatch is answered by searching forward in the expected stream; the whole comparison is a
  greedy subsequence match with an edit count.
  */
module GreedyAlignment {
  import opened Wrappers

  /** The first position from some point on that holds a value. */
  ghost function Seek<T>(expected: seq<T>, from: nat, actual: T): (index: Option<nat>)
    ensures index.Some? ==> from <= index.value < |expected| && expected[index.value] == actual
    ensures forall k :: from <= k < |expected| && (index.Some? ==> k < index.value) ==> expected[k] != actual
    decreases |expected| - from
  {
    if from >= |expected| then None
    else if expected[from] == actual then Some(from)
    else Seek(expected, from + 1, actual)
  }

  /** Where a comparison stands, and which expected and observed positions it has paired. */
  datatype Comparison = Comparison(position: nat, mismatches: nat, pairs: seq<(nat, nat)>)

  ghost function Observe<T>(expected: seq<T>, c: Comparison, observedIndex: nat, actual: T): Comparison {
    if c.position < |expected| && expected[c.position] == actual then
      Comparison(c.position + 1, c.mismatches, c.pairs + [(c.position, observedIndex)])
    else match Seek(expected, c.position + 1, actual)
      case Some(index) =>
        Comparison(index + 1, c.mismatches + (index - c.position), c.pairs + [(index, observedIndex)])
      case None => c.(mismatches := c.mismatches + 1)
  }

  /** The comparison after a stream of observations. */
  ghost function Compare<T>(expected: seq<T>, observed: seq<T>): Comparison {
    if observed == [] then Comparison(0, 0, [])
    else
      var n := |observed| - 1;
      Observe(expected, Compare(expected, observed[..n]), n, observed[n])
  }

  /** Pairs of equal entries, strictly increasing on both sides. */
  ghost predicate Aligned<T>(expected: seq<T>, observed: seq<T>, pairs: seq<(nat, nat)>) {
    && (forall k :: 0 <= k < |pairs| ==>
      pairs[k].0 < |expected| && pairs[k].1 < |observed| && expected[pairs[k].0] == observed[pairs[k].1])
    && (forall j, k :: 0 <= j < k < |pairs| ==> pairs[j].0 < pairs[k].0 && pairs[j].1 < pairs[k].1)
  }

  /** What a comparison keeps at every step. */
  ghost predicate Accounted<T>(expected: seq<T>, observed: seq<T>, c: Comparison) {
    && c.position <= |expected|
    && Aligned(expected, observed, c.pairs)
    && (forall k :: 0 <= k < |c.pairs| ==> c.pairs[k].0 < c.position)
    && c.mismatches + 2 * |c.pairs| == c.position + |observed|
  }

  lemma AlignedLonger<T>(expected: seq<T>, observed: seq<T>, actual: T, pairs: seq<(nat, nat)>)
    requires Aligned(expected, observed, pairs)
    ensures Aligned(expected, observed + [actual], pairs)
  {
  }

  lemma AlignedSnoc<T>(expected: seq<T>, observed: seq<T>, actual: T, pairs: seq<(nat, nat)>, index: nat)
    requires Aligned(expected, observed, pairs) && index < |expected| && expected[index] == actual
    requires forall k :: 0 <= k < |pairs| ==> pairs[k].0 < index
    ensures Aligned(expected, observed + [actual], pairs + [(index, |observed|)])
  {
  }

  lemma ObserveAccounts<T>(expected: seq<T>, observed: seq<T>, c: Comparison, actual: T)
    requires Accounted(expected, observed, c)
    ensures Accounted(expected, observed + [actual], Observe(expected, c, |observed|, actual))
  {
    hide Aligned, Seek;
    if c.position < |expected| && expected[c.position] == actual {
      AlignedSnoc(expected, observed, actual, c.pairs, c.position);
    } else {
      var found := Seek(expected, c.position + 1, actual);
      if found.Some? {
        AlignedSnoc(expected, observed, actual, c.pairs, found.value);
      } else {
        AlignedLonger(expected, observed, actual, c.pairs);
      }
    }
  }

  /**
    At every step the pairs are a strictly increasing common subsequence lying before the
    current position, and the count is exactly what they leave unpaired on the two sides.
    */
  lemma {:induction false} CompareAccounts<T>(expected: seq<T>, observed: seq<T>)
    ensures Accounted(expected, observed, Compare(expected, observed))
  {
    hide Accounted, Observe;
    if observed == [] {
      NothingObserved(expected);
    } else {
      var n := |observed| - 1;
      CompareAccounts(expected, observed[..n]);
      ObserveAccounts(expected, observed[..n], Compare(expected, observed[..n]), observed[n]);
      assert observed[..n] + [observed[n]] == observed;
    }
  }

  lemma NothingObserved<T>(expected: seq<T>)
    ensures Accounted(expected, [], Comparison(0, 0, []))
  {
  }

  /** What is left over at the end counts as missing. */
  ghost function FinalMismatches<T>(expected: seq<T>, observed: seq<T>): nat {
    var c := Compare(expected, observed);
    c.mismatches + if c.position < |expected| then |expected| - c.position else 0
  }

  lemma FinalAccounts<T>(expected: seq<T>, observed: seq<T>)
    ensures FinalMismatches(expected, observed) + 2 * |Compare(expected, observed).pairs| == |expected| + |observed|
  {
  }

  // ----- the count bounds the edit distance

  /** The least number of insertions and deletions that turn one stream into the other. */
  ghost function EditDistance<T>(a: seq<T>, b: seq<T>): nat
    decreases |a| + |b|
  {
    if a == [] then |b|
    else if b == [] then |a|
    else
      var m, n := |a| - 1, |b| - 1;
      if a[m] == b[n] then EditDistance(a[..m], b[..n])
      else
        var deleting, inserting := EditDistance(a[..m], b), EditDistance(a, b[..n]);
        1 + if deleting < inserting then deleting else inserting
  }

  /** Pairs that avoid the ends are pairs of the shortened streams. */
  lemma AlignedShorter<T>(a: seq<T>, b: seq<T>, pairs: seq<(nat, nat)>, m: nat, n: nat)
    requires Aligned(a, b, pairs) && m <= |a| && n <= |b|
    requires pairs != [] ==> pairs[|pairs| - 1].0 < m && pairs[|pairs| - 1].1 < n
    ensures Aligned(a[..m], b[..n], pairs)
  {
  }

  /** Without its last pair an alignment avoids both ends. */
  lemma AlignedButLast<T>(a: seq<T>, b: seq<T>, pairs: seq<(nat, nat)>, shorter: seq<(nat, nat)>)
    requires Aligned(a, b, pairs) && a != [] && b != []
    requires shorter == if pairs == [] then [] else pairs[..|pairs| - 1]
    ensures Aligned(a[..|a| - 1], b[..|b| - 1], shorter)
  {
    if |pairs| > 1 {
      var last := |pairs| - 1;
      assert pairs[last - 1].0 < pairs[last].0 && pairs[last - 1].1 < pairs[last].1;
    }
    AlignedShorter(a, b, shorter, |a| - 1, |b| - 1);
  }

  /** If the ends differ, the last pair avoids one of them. */
  lemma LastPairElsewhere<T>(a: seq<T>, b: seq<T>, pairs: seq<(nat, nat)>)
    requires Aligned(a, b, pairs) && a != [] && b != [] && a[|a| - 1] != b[|b| - 1]
    ensures pairs != [] ==>
      var last := pairs[|pairs| - 1];
      last.0 < |a| && last.1 < |b| && (last.0 < |a| - 1 || last.1 < |b| - 1)
  {
  }

  lemma PairsNeedEntries<T>(a: seq<T>, b: seq<T>, pairs: seq<(nat, nat)>)
    requires Aligned(a, b, pairs)
    ensures pairs != [] ==> a != [] && b != []
  {
    if pairs != [] {
      assert pairs[0].0 < |a| && pairs[0].1 < |b|;
    }
  }

  /** No common subsequence beats the edit distance. */
  lemma {:induction false} EditDistanceLeast<T>(a: seq<T>, b: seq<T>, pairs: seq<(nat, nat)>)
    requires Aligned(a, b, pairs)
    ensures EditDistance(a, b) + 2 * |pairs| <= |a| + |b|
    decreases |a| + |b|
  {
    hide Aligned;
    if a == [] || b == [] {
      PairsNeedEntries(a, b, pairs);
    } else {
      var m, n := |a| - 1, |b| - 1;
      if a[m] == b[n] {
        var shorter := if pairs == [] then [] else pairs[..|pairs| - 1];
        AlignedButLast(a, b, pairs, shorter);
        EditDistanceLeast(a[..m], b[..n], shorter);
      } else if pairs == [] || pairs[|pairs| - 1].0 < m {
        LastPairElsewhere(a, b, pairs);
        AlignedShorter(a, b, pairs, m, |b|);
        assert b[..|b|] == b;
        EditDistanceLeast(a[..m], b, pairs);
      } else {
        LastPairElsewhere(a, b, pairs);
        AlignedShorter(a, b, pairs, |a|, n);
        assert a[..|a|] == a;
        EditDistanceLeast(a, b[..n], pairs);
      }
    }
  }

  /** Some common subsequence attains it. */
  lemma {:induction false} EditDistanceAttained<T>(a: seq<T>, b: seq<T>) returns (pairs: seq<(nat, nat)>)
    ensures Aligned(a, b, pairs) && EditDistance(a, b) + 2 * |pairs| == |a| + |b|
    decreases |a| + |b|
  {
    if a == [] || b == [] {
      pairs := [];
    } else {
      var m, n := |a| - 1, |b| - 1;
      if a[m] == b[n] {
        var shorter := EditDistanceAttained(a[..m], b[..n]);
        pairs := shorter + [(m, n)];
      } else if EditDistance(a[..m], b) < EditDistance(a, b[..n]) {
        pairs := EditDistanceAttained(a[..m], b);
      } else {
        pairs := EditDistanceAttained(a, b[..n]);
      }
    }
  }

  /** The final count never understates how far apart the two streams are. */
  lemma CountBoundsDistance<T>(expected: seq<T>, observed: seq<T>)
    ensures EditDistance(expected, observed) <= FinalMismatches(expected, observed)
  {
    CompareAccounts(expected, observed);
    FinalAccounts(expected, observed);
    EditDistanceLeast(expected, observed, Compare(expected, observed).pairs);
  }

  /** It can overstate it: a stray update that reappears later makes the search skip good entries. */
  lemma GreedyOvershoots()
    ensures EditDistance([1, 2, 3], [3, 1, 2]) == 2
    ensures FinalMismatches([1, 2, 3], [3, 1, 2]) == 4
  {
    assert [3, 1, 2][..2] == [3, 1] && [3, 1][..1] == [3] && [3][..0] == [];
    assert [1, 2, 3][..2] == [1, 2] && [1, 2][..1] == [1] && [1][..0] == [];
    assert Compare([1, 2, 3], [3]) == Comparison(3, 2, [(2, 0)]);
    assert Compare([1, 2, 3], [3, 1]) == Comparison(3, 3, [(2, 0)]);
    assert Compare([1, 2, 3], [3, 1, 2]) == Comparison(3, 4, [(2, 0)]);
    assert EditDistance([1], [3]) == 2;
    assert EditDistance([1], [3, 1]) == 1;
    assert EditDistance([1, 2], [3]) == 3;
    assert EditDistance([1, 2], [3, 1]) == 2;
    assert EditDistance([1, 2], [3, 1, 2]) == 1;
  }

  // ----- completeness on subsequences

  /** An embedding of the observed stream into the expected one. */
  ghost predicate Embeds<T>(expected: seq<T>, observed: seq<T>, f: seq<nat>) {
    && |f| == |observed|
    && (forall k :: 0 <= k < |f| ==> f[k] < |expected| && expected[f[k]] == observed[k])
    && (forall j, k :: 0 <= j < k < |f| ==> f[j] < f[k])
  }

  ghost predicate IsSubsequence<T(!new)>(expected: seq<T>, observed: seq<T>) {
    exists f :: Embeds(expected, observed, f)
  }

  /** A step that can still reach a later equal entry pairs its observation no later than there. */
  lemma ObserveReaches<T>(expected: seq<T>, c: Comparison, observedIndex: nat, actual: T, reachable: nat)
    requires c.position <= reachable < |expected| && expected[reachable] == actual
    ensures var c' := Observe(expected, c, observedIndex, actual);
      c'.position <= reachable + 1 && |c'.pairs| == |c.pairs| + 1
  {
  }

  /** The greedy match is never behind any embedding, so it pairs every observation. */
  lemma {:induction false} GreedyStaysAhead<T>(expected: seq<T>, observed: seq<T>, f: seq<nat>)
    requires Embeds(expected, observed, f)
    ensures var c := Compare(expected, observed);
      && |c.pairs| == |observed|
      && (observed != [] ==> c.position <= f[|f| - 1] + 1)
  {
    hide Observe;
    if observed != [] {
      var n := |observed| - 1;
      assert Embeds(expected, observed[..n], f[..n]);
      GreedyStaysAhead(expected, observed[..n], f[..n]);
      if n > 0 {
        assert f[n - 1] < f[n];
      }
      ObserveReaches(expected, Compare(expected, observed[..n]), n, observed[n], f[n]);
    }
  }

  /** A comparison that pairs every observation has found an embedding. */
  lemma {:induction false} PairedAll<T>(expected: seq<T>, observed: seq<T>, pairs: seq<(nat, nat)>)
    requires Aligned(expected, observed, pairs) && |pairs| == |observed|
    ensures Embeds(expected, observed, seq(|pairs|, k requires 0 <= k < |pairs| => pairs[k].0))
  {
    forall k | 0 <= k < |pairs|
      ensures pairs[k].1 == k
    {
      PairIndex(expected, observed, pairs, k);
    }
  }

  lemma {:induction false} PairIndex<T>(expected: seq<T>, observed: seq<T>, pairs: seq<(nat, nat)>, k: nat)
    requires Aligned(expected, observed, pairs) && k < |pairs|
    ensures k <= pairs[k].1 <= |observed| - |pairs| + k
  {
    AtLeast(expected, observed, pairs, k);
    AtMost(expected, observed, pairs, k);
  }

  lemma {:induction false} AtLeast<T>(expected: seq<T>, observed: seq<T>, pairs: seq<(nat, nat)>, k: nat)
    requires Aligned(expected, observed, pairs) && k < |pairs|
    ensures k <= pairs[k].1
  {
    if k > 0 {
      AtLeast(expected, observed, pairs, k - 1);
      assert pairs[k - 1].1 < pairs[k].1;
    }
  }

  lemma {:induction false} AtMost<T>(expected: seq<T>, observed: seq<T>, pairs: seq<(nat, nat)>, k: nat)
    requires Aligned(expected, observed, pairs) && k < |pairs|
    ensures pairs[k].1 <= |observed| - |pairs| + k
    decreases |pairs| - k
  {
    if k < |pairs| - 1 {
      AtMost(expected, observed, pairs, k + 1);
      assert pairs[k].1 < pairs[k + 1].1;
    }
  }

  /**
    No observation goes unpaired if and only if the observed stream is a subsequence of the
    expected one, repeated states included; then the final count is exactly what is missing.
    */
  lemma ResynchronisationComplete<T(!new)>(expected: seq<T>, observed: seq<T>)
    ensures |Compare(expected, observed).pairs| == |observed| <==> IsSubsequence(expected, observed)
    ensures IsSubsequence(expected, observed) ==>
      FinalMismatches(expected, observed) == |expected| - |observed|
  {
    CompareAccounts(expected, observed);
    FinalAccounts(expected, observed);
    if IsSubsequence(expected, observed) {
      var f :| Embeds(expected, observed, f);
      GreedyStaysAhead(expected, observed, f);
    }
    if |Compare(expected, observed).pairs| == |observed| {
      PairedAll(expected, observed, Compare(expected, observed).pairs);
    }
  }

  // ----- a clean comparison means equality

  lemma {:induction false} CleanMeansPrefix<T>(expected: seq<T>, observed: seq<T>)
    ensures var c := Compare(expected, observed);
      && (c.mismatches == 0 <==> observed <= expected)
      && (observed <= expected ==> c.position == |observed|)
  {
    if observed != [] {
      var n := |observed| - 1;
      CleanMeansPrefix(expected, observed[..n]);
      assert observed == observed[..n] + [observed[n]];
      CompareAccounts(expected, observed[..n]);
    }
  }

  /** The final count is zero exactly for equal streams. */
  lemma CleanMeansEqual<T>(expected: seq<T>, observed: seq<T>)
    ensures FinalMismatches(expected, observed) == 0 <==> expected == observed
  {
    CleanMeansPrefix(expected, observed);
    CompareAccounts(expected, observed);
  }
}
