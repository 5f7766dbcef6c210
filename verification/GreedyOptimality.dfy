/** When the verifier's count is the edit distance, and for which expected streams it always is. */
module GreedyOptimality {
  import opened GreedyAlignment

  // ----- when the greedy match is best

  /**
    No observation the search gives up on could have been paired further on in a tighter match: it
    does not occur in the expected stream beyond as many entries as have been paired.  Gaps, updates
    that occur nowhere and repeats of what was already seen all pass.
    */
  ghost predicate Settled<T>(expected: seq<T>, observed: seq<T>) {
    forall k :: 0 <= k < |observed| ==> SettledAt(expected, Compare(expected, observed[..k]), observed[k])
  }

  ghost predicate SettledAt<T>(expected: seq<T>, c: Comparison, actual: T) {
    Ahead(expected, c.position, actual) || !Ahead(expected, |c.pairs|, actual)
  }

  /** Whether a value occurs from some point on. */
  ghost predicate Ahead<T>(expected: seq<T>, from: nat, actual: T) {
    exists k :: from <= k < |expected| && expected[k] == actual
  }

  /** An observation is paired exactly if it occurs ahead. */
  lemma PairedExactly<T>(expected: seq<T>, c: Comparison, observedIndex: nat, actual: T)
    ensures |Observe(expected, c, observedIndex, actual).pairs|
         == |c.pairs| + if Ahead(expected, c.position, actual) then 1 else 0
  {
  }

  /** The first coordinates of an alignment, from its first pair on. */
  lemma {:induction false} PairsFrom<T>(expected: seq<T>, observed: seq<T>, pairs: seq<(nat, nat)>, k: nat)
    requires Aligned(expected, observed, pairs) && k < |pairs|
    ensures pairs[0].0 + k <= pairs[k].0 < |expected|
  {
    if k > 0 {
      PairsFrom(expected, observed, pairs, k - 1);
      assert pairs[k - 1].0 < pairs[k].0;
    }
  }

  lemma FewPairs<T>(expected: seq<T>, observed: seq<T>, pairs: seq<(nat, nat)>)
    requires Aligned(expected, observed, pairs)
    ensures pairs != [] ==> |pairs| <= |expected| - pairs[0].0
    ensures |pairs| <= |expected|
  {
    if pairs != [] {
      PairsFrom(expected, observed, pairs, |pairs| - 1);
    }
  }

  lemma SettledPrefix<T>(expected: seq<T>, observed: seq<T>)
    requires observed != []
    ensures var n := |observed| - 1;
      Settled(expected, observed) <==>
        Settled(expected, observed[..n]) && SettledAt(expected, Compare(expected, observed[..n]), observed[n])
  {
    hide SettledAt, Compare;
    var n := |observed| - 1;
    assert forall k :: 0 <= k < n ==> observed[..n][..k] == observed[..k];
  }

  /** An alignment either leaves the last observation alone or ends with it, at least as far on as it is long. */
  lemma LastPair<T>(expected: seq<T>, observed: seq<T>, pairs: seq<(nat, nat)>)
    requires Aligned(expected, observed, pairs) && observed != []
    ensures var n, last := |observed| - 1, |pairs| - 1;
      if pairs == [] || pairs[last].1 < n then Aligned(expected, observed[..n], pairs)
      else
        && Aligned(expected, observed[..n], pairs[..last])
        && last <= pairs[last].0 < |expected| && expected[pairs[last].0] == observed[n]
  {
    var n, last := |observed| - 1, |pairs| - 1;
    assert expected[..|expected|] == expected;
    if pairs == [] || pairs[last].1 < n {
      AlignedShorter(expected, observed, pairs, |expected|, n);
    } else {
      assert last > 0 ==> pairs[last - 1].0 < pairs[last].0 && pairs[last - 1].1 < pairs[last].1;
      AlignedShorter(expected, observed, pairs[..last], |expected|, n);
      PairsFrom(expected, observed, pairs, last);
    }
  }

  /** A settled greedy match is not beaten by any alignment. */
  lemma {:induction false} SettledIsBest<T>(expected: seq<T>, observed: seq<T>, pairs: seq<(nat, nat)>)
    requires Settled(expected, observed) && Aligned(expected, observed, pairs)
    ensures |pairs| <= |Compare(expected, observed).pairs|
    decreases |observed|
  {
    if observed == [] {
      PairsNeedEntries(expected, observed, pairs);
    } else {
      hide Settled, Observe, Ahead, Aligned;
      var n, last := |observed| - 1, |pairs| - 1;
      SettledPrefix(expected, observed);
      var c := Compare(expected, observed[..n]);
      PairedExactly(expected, c, n, observed[n]);
      LastPair(expected, observed, pairs);
      if pairs == [] || pairs[last].1 < n {
        SettledIsBest(expected, observed[..n], pairs);
      } else {
        SettledIsBest(expected, observed[..n], pairs[..last]);
        AheadAt(expected, |c.pairs|, pairs[last].0);
      }
    }
  }

  lemma AheadAt<T>(expected: seq<T>, from: nat, k: nat)
    requires k < |expected|
    ensures from <= k ==> Ahead(expected, from, expected[k])
  {
  }

  lemma SettledIsDistance<T>(expected: seq<T>, observed: seq<T>)
    requires Settled(expected, observed)
    ensures FinalMismatches(expected, observed) == EditDistance(expected, observed)
  {
    hide Compare, FinalMismatches, EditDistance, Aligned, Settled;
    FinalAccounts(expected, observed);
    CountBoundsDistance(expected, observed);
    var best := EditDistanceAttained(expected, observed);
    SettledIsBest(expected, observed, best);
  }

  /** In particular, for an observed stream that only misses updates. */
  lemma GapsAreDistance<T(!new)>(expected: seq<T>, observed: seq<T>)
    requires IsSubsequence(expected, observed)
    ensures FinalMismatches(expected, observed) == EditDistance(expected, observed) == |expected| - |observed|
  {
    var f :| Embeds(expected, observed, f);
    EmbeddedIsSettled(expected, observed, f);
    SettledIsDistance(expected, observed);
    ResynchronisationComplete(expected, observed);
  }

  lemma EmbeddedIsSettled<T>(expected: seq<T>, observed: seq<T>, f: seq<nat>)
    requires Embeds(expected, observed, f)
    ensures Settled(expected, observed)
  {
    hide Compare;
    forall k | 0 <= k < |observed| ensures SettledAt(expected, Compare(expected, observed[..k]), observed[k]) {
      assert Embeds(expected, observed[..k], f[..k]);
      GreedyStaysAhead(expected, observed[..k], f[..k]);
      if k > 0 {
        assert f[k - 1] < f[k];
      } else {
        assert Compare(expected, observed[..0]).position == 0 by {
          StartsAtFront(expected, observed[..0]);
        }
      }
      AheadAt(expected, Compare(expected, observed[..k]).position, f[k]);
    }
  }

  lemma StartsAtFront<T>(expected: seq<T>, observed: seq<T>)
    requires observed == []
    ensures Compare(expected, observed).position == 0
  {
  }

  // ----- the expected streams on which the count always is the distance

  ghost predicate AllEqual<T>(s: seq<T>) {
    forall k :: 0 <= k < |s| ==> s[k] == s[0]
  }

  /** On a constant stream the greedy match takes one entry after another. */
  lemma {:induction false} ConstantTaken<T>(expected: seq<T>, observed: seq<T>)
    requires AllEqual(expected)
    ensures Compare(expected, observed).position == |Compare(expected, observed).pairs|
  {
    if observed != [] {
      ConstantTaken(expected, observed[..|observed| - 1]);
    }
  }

  lemma ConstantIsSettled<T>(expected: seq<T>, observed: seq<T>)
    requires AllEqual(expected)
    ensures Settled(expected, observed)
  {
    hide Compare, Ahead, AllEqual;
    forall k | 0 <= k < |observed| ensures SettledAt(expected, Compare(expected, observed[..k]), observed[k]) {
      ConstantTaken(expected, observed[..k]);
    }
  }

  lemma {:induction false} FirstPairStays<T>(expected: seq<T>, observed: seq<T>, k: nat)
    requires k <= |observed|
    ensures Compare(expected, observed[..k]).pairs <= Compare(expected, observed).pairs
    decreases |observed|
  {
    if k == |observed| {
      assert observed[..k] == observed;
    } else {
      var n := |observed| - 1;
      FirstPairStays(expected, observed[..n], k);
      assert observed[..n][..k] == observed[..k];
    }
  }

  lemma Shifted<T>(expected: seq<T>, first: T) returns (pairs: seq<(nat, nat)>)
    ensures Aligned(expected, [first] + expected, pairs) && |pairs| == |expected|
  {
    pairs := seq(|expected|, k => (k, k + 1));
  }

  /** Seeing a later entry first makes the search skip all before it. */
  lemma LateEntryFirst<T>(expected: seq<T>, i: nat)
    requires 0 < i < |expected| && expected[i] != expected[0]
    requires forall k :: 0 <= k < i ==> expected[k] == expected[0]
    ensures var observed := [expected[i]] + expected;
      FinalMismatches(expected, observed) > EditDistance(expected, observed)
  {
    hide Compare, FinalMismatches, EditDistance, Aligned;
    var observed := [expected[i]] + expected;
    var c := Compare(expected, observed);
    FirstFound(expected, i);
    assert observed[..1] == [expected[i]];
    FirstPairStays(expected, observed, 1);
    CompareAccounts(expected, observed);
    FewPairs(expected, observed, c.pairs);
    FinalAccounts(expected, observed);
    var shifted := Shifted(expected, expected[i]);
    EditDistanceLeast(expected, observed, shifted);
  }

  lemma FirstFound<T>(expected: seq<T>, i: nat)
    requires 0 < i < |expected| && expected[i] != expected[0]
    requires forall k :: 0 <= k < i ==> expected[k] == expected[0]
    ensures Compare(expected, [expected[i]]).pairs == [(i, 0)]
  {
    assert [expected[i]][..0] == [];
  }

  /** The count is the edit distance whatever is observed if and only if all expected entries are equal. */
  lemma AlwaysDistanceExactly<T(!new)>(expected: seq<T>)
    ensures AllEqual(expected) <==>
      forall observed :: FinalMismatches(expected, observed) == EditDistance(expected, observed)
  {
    hide FinalMismatches, EditDistance;
    if AllEqual(expected) {
      forall observed ensures FinalMismatches(expected, observed) == EditDistance(expected, observed) {
        ConstantIsSettled(expected, observed);
        SettledIsDistance(expected, observed);
      }
    } else {
      var k :| 0 <= k < |expected| && expected[k] != expected[0];
      var i := FirstOther(expected, k);
      LateEntryFirst(expected, i);
    }
  }

  lemma {:induction false} FirstOther<T>(s: seq<T>, k: nat) returns (i: nat)
    requires k < |s| && s[k] != s[0]
    ensures 0 < i < |s| && s[i] != s[0] && forall j :: 0 <= j < i ==> s[j] == s[0]
    decreases k
  {
    if j :| 0 <= j < k && s[j] != s[0] {
      i := FirstOther(s, j);
    } else {
      i := k;
    }
  }
}
