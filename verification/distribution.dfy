/** Turning one window's counts into a discrete distribution (probability `p`
    and cumulative probability `cp` per entry, in list order), and sampling a
    character from it by inverse-CDF selection with a given draw. */
module Distribution {
  import opened CharDataList

  /** Sets `p` and `cp` of every entry: `p` is the entry's share of `total`,
      `cp` adds `p` to the cumulative value `prev` carried from the entry before. */
  function Accumulate(probs: Probs, total: nat, prev: real): (r: Probs)
    requires |probs| > 0 ==> total > 0
    ensures |r| == |probs|
    ensures forall i :: 0 <= i < |r| ==> r[i].chr == probs[i].chr && r[i].count == probs[i].count
    ensures forall i :: 0 <= i < |r| ==> r[i].p == probs[i].count as real / total as real
    ensures |r| > 0 ==> r[0].cp == prev + r[0].p
    ensures forall i :: 0 < i < |r| ==> r[i].cp == r[i - 1].cp + r[i].p
    decreases |probs|
  {
    if probs == [] then []
    else
      var p := probs[0].count as real / total as real;
      var rest := Accumulate(probs[1..], total, p + prev);
      var r := [CharData(probs[0].chr, probs[0].count, p, p + prev)] + rest;
      assert forall i :: 0 < i < |r| ==> r[i] == rest[i - 1];
      r
  }

  /** The distribution of one window: every entry keeps its character and count,
      gets `p = count / total` and `cp` = the running sum of `p` in list order.
      A list with entries must have a positive total (training only creates
      lists on an occurrence). */
  function CalculateProbabilities(probs: Probs): (r: Probs)
    requires |probs| > 0 ==> Total(probs) > 0
    ensures |r| == |probs|
    ensures forall i :: 0 <= i < |r| ==> r[i].chr == probs[i].chr && r[i].count == probs[i].count
    ensures forall i :: 0 <= i < |r| ==> r[i].p == probs[i].count as real / Total(probs) as real
    ensures |r| > 0 ==> r[0].cp == r[0].p
    ensures forall i :: 0 < i < |r| ==> r[i].cp == r[i - 1].cp + r[i].p
  {
    Accumulate(probs, Total(probs), 0.0)
  }

  /** Finalising a list keeps its characters and counts, so it stays well
      formed and every character keeps its count. */
  lemma FinalizedCounts(probs: Probs, c: char)
    requires WellFormed(probs)
    ensures WellFormed(CalculateProbabilities(probs))
    ensures CountOf(CalculateProbabilities(probs), c) == CountOf(probs, c)
    ensures Contains(CalculateProbabilities(probs), c) <==> CountOf(probs, c) > 0
  {
    CountAtMostTotal(probs, 0);
    var r := CalculateProbabilities(probs);
    IndexOfSameChars(probs, r, c);
    CountPositiveIffContained(r, c);
  }

  /** The cumulative value of entry `i` is the share of the counts of entries 0..i in the total. */
  lemma {:induction false} CdfIsNormalizedPrefixSum(probs: Probs, i: nat)
    requires |probs| > 0 ==> Total(probs) > 0
    requires i < |probs|
    ensures CalculateProbabilities(probs)[i].cp == Total(probs[..i + 1]) as real / Total(probs) as real
    decreases i
  {
    var r := CalculateProbabilities(probs);
    var t := Total(probs);
    if i == 0 {
      assert Total(probs[..1]) == probs[0].count by {
        assert probs[..1][..0] == [];
      }
    } else {
      var a := Total(probs[..i]);
      var b := probs[i].count;
      assert Total(probs[..i + 1]) == a + b by {
        assert probs[..i + 1][..i] == probs[..i];
      }
      assert r[i - 1].cp == a as real / t as real by {
        CdfIsNormalizedPrefixSum(probs, i - 1);
      }
      var ta := Total(probs[..i + 1]);
      assert r[i].cp == a as real / t as real + b as real / t as real;
      assert a as real / t as real + b as real / t as real == ta as real / t as real by {
        SharesAdd(a, b, ta, t);
      }
    }
  }

  lemma SharesAdd(a: nat, b: nat, s: nat, t: nat)
    requires t > 0 && s == a + b
    ensures a as real / t as real + b as real / t as real == s as real / t as real
  {
  }

  /** The last cumulative value of a non-empty distribution is exactly 1. */
  lemma LastCdfIsOne(probs: Probs)
    requires |probs| > 0 && Total(probs) > 0
    ensures CalculateProbabilities(probs)[|probs| - 1].cp == 1.0
  {
    var last := |probs| - 1;
    var t := Total(probs);
    var s := Total(probs[..last + 1]);
    assert s == t by {
      assert probs[..last + 1] == probs;
    }
    assert CalculateProbabilities(probs)[last].cp == s as real / t as real by {
      CdfIsNormalizedPrefixSum(probs, last);
    }
    WholeShare(s, t);
  }

  lemma ShareBounds(a: nat, t: nat)
    requires 0 < t && a <= t
    ensures 0.0 <= a as real / t as real <= 1.0
    ensures a as real / t as real > 0.0 <==> a > 0
  {
  }

  lemma WholeShare(s: nat, t: nat)
    requires t > 0 && s == t
    ensures s as real / t as real == 1.0
  {
  }

  /** Every probability lies in [0, 1], and is positive exactly when the count is. */
  lemma ProbabilityBounds(probs: Probs, i: nat)
    requires |probs| > 0 ==> Total(probs) > 0
    requires i < |probs|
    ensures 0.0 <= CalculateProbabilities(probs)[i].p <= 1.0
    ensures CalculateProbabilities(probs)[i].p > 0.0 <==> probs[i].count > 0
  {
    CountAtMostTotal(probs, i);
    ShareBounds(probs[i].count, Total(probs));
  }

  /** The cumulative values never decrease along the list. */
  lemma {:induction false} CdfMonotone(probs: Probs, i: nat, j: nat)
    requires |probs| > 0 ==> Total(probs) > 0
    requires i <= j < |probs|
    ensures CalculateProbabilities(probs)[i].cp <= CalculateProbabilities(probs)[j].cp
    decreases j
  {
    if i < j {
      CdfMonotone(probs, i, j - 1);
      ProbabilityBounds(probs, j);
    }
  }

  /** With every count positive the cumulative values increase strictly. */
  lemma CdfStrictlyIncreasing(probs: Probs, i: nat, j: nat)
    requires PositiveCounts(probs)
    requires i < j < |probs|
    ensures CalculateProbabilities(probs)[i].cp < CalculateProbabilities(probs)[j].cp
  {
    CountAtMostTotal(probs, 0);
    var r := CalculateProbabilities(probs);
    CdfMonotone(probs, i, j - 1);
    ProbabilityBounds(probs, j);
  }

  /** Sum of the probabilities of a list. */
  function SumP(probs: Probs): real
    decreases |probs|
  {
    if probs == [] then 0.0 else SumP(probs[..|probs| - 1]) + probs[|probs| - 1].p
  }

  /** The probabilities of a non-empty distribution add up to exactly 1. */
  lemma {:induction false} ProbabilitiesSumToOne(probs: Probs)
    requires |probs| > 0 && Total(probs) > 0
    ensures SumP(CalculateProbabilities(probs)) == 1.0
  {
    var r := CalculateProbabilities(probs);
    var last := |r| - 1;
    assert SumP(r) == r[last].cp by {
      assert r[..last + 1] == r;
      SumPIsCdf(r, last);
    }
    assert r[last].cp == 1.0 by {
      LastCdfIsOne(probs);
    }
  }

  lemma {:induction false} SumPIsCdf(r: Probs, i: nat)
    requires i < |r|
    requires r[0].cp == r[0].p
    requires forall j :: 0 < j < |r| ==> r[j].cp == r[j - 1].cp + r[j].p
    ensures SumP(r[..i + 1]) == r[i].cp
    decreases i
  {
    assert r[..i + 1][..i] == r[..i];
    if i == 0 {
      assert r[..0] == [];
    } else {
      SumPIsCdf(r, i - 1);
    }
  }

  /** Monte Carlo selection: the character of the first entry whose cumulative
      value exceeds the draw, or a space when no entry does. */
  function GetRandomChar(probs: Probs, random: real): (c: char)
    ensures (forall i :: 0 <= i < |probs| ==> probs[i].cp <= random) ==> c == ' '
    ensures (exists i :: 0 <= i < |probs| && random < probs[i].cp) ==>
      exists i :: 0 <= i < |probs| && random < probs[i].cp && c == probs[i].chr &&
        forall j :: 0 <= j < i ==> probs[j].cp <= random
    decreases |probs|
  {
    if probs == [] then ' '
    else if random < probs[0].cp then probs[0].chr
    else
      var c := GetRandomChar(probs[1..], random);
      assert forall i :: 0 < i < |probs| ==> probs[i] == probs[1..][i - 1];
      c
  }

  /** The cumulative value before entry `i`: the lower end of its interval. */
  function CdfBefore(r: Probs, i: nat): real
    requires i <= |r|
  {
    if i == 0 then 0.0 else r[i - 1].cp
  }

  ghost predicate CdfNonDecreasing(r: Probs) {
    forall a, b :: 0 <= a <= b < |r| ==> r[a].cp <= r[b].cp
  }

  /** Over a non-decreasing CDF, a draw below the last cumulative value selects
      the character of entry `i` exactly when it falls in [CdfBefore(i), cp_i). */
  lemma SelectionIsInterval(r: Probs, random: real, c: char)
    requires CdfNonDecreasing(r)
    requires |r| > 0 && 0.0 <= random < r[|r| - 1].cp
    ensures GetRandomChar(r, random) == c <==>
      exists i :: 0 <= i < |r| && r[i].chr == c && CdfBefore(r, i) <= random < r[i].cp
  {
    var k := SelectedIndex(r, random);
    assert CdfBefore(r, k) <= random;
    forall i | 0 <= i < |r| && CdfBefore(r, i) <= random < r[i].cp
      ensures i == k
    {
    }
  }

  /** Inverse-CDF sampling: for a draw in [0, 1), the sampled character is the
      character of entry `i` exactly when the draw falls in the half-open
      interval [cp_(i-1), cp_i), whose width is p_i. */
  lemma SampleIsInverseCdf(probs: Probs, random: real, c: char)
    requires |probs| > 0 && Total(probs) > 0
    requires 0.0 <= random < 1.0
    ensures GetRandomChar(CalculateProbabilities(probs), random) == c <==>
      exists i :: 0 <= i < |probs| && CalculateProbabilities(probs)[i].chr == c &&
        CdfBefore(CalculateProbabilities(probs), i) <= random < CalculateProbabilities(probs)[i].cp
  {
    var r := CalculateProbabilities(probs);
    assert CdfNonDecreasing(r) by {
      forall a, b | 0 <= a <= b < |r|
        ensures r[a].cp <= r[b].cp
      {
        CdfMonotone(probs, a, b);
      }
    }
    LastCdfIsOne(probs);
    SelectionIsInterval(r, random, c);
  }

  /** The index of the entry GetRandomChar selects when some entry qualifies. */
  lemma SelectedIndex(r: Probs, random: real) returns (k: nat)
    requires exists i :: 0 <= i < |r| && random < r[i].cp
    ensures k < |r| && random < r[k].cp && GetRandomChar(r, random) == r[k].chr
    ensures forall j :: 0 <= j < k ==> r[j].cp <= random
  {
    k :| k < |r| && random < r[k].cp && GetRandomChar(r, random) == r[k].chr &&
      forall j :: 0 <= j < k ==> r[j].cp <= random;
  }

  /** For a draw in [0, 1) the space fallback is never taken: the sampled
      character is that of an entry with a positive count. */
  lemma SampleNeverFallsBack(probs: Probs, random: real)
    requires |probs| > 0 && Total(probs) > 0
    requires 0.0 <= random < 1.0
    ensures exists i :: 0 <= i < |probs| && probs[i].count > 0 &&
                        GetRandomChar(CalculateProbabilities(probs), random) == probs[i].chr
  {
    var r := CalculateProbabilities(probs);
    LastCdfIsOne(probs);
    var k := SelectedIndex(r, random);
    assert r[k].p > 0.0 by {
      if k > 0 {
        assert r[k].cp == r[k - 1].cp + r[k].p;
      }
    }
    ProbabilityBounds(probs, k);
  }

  /** A single-entry distribution returns its character for every draw in [0, 1). */
  lemma SingleEntryAlwaysSampled(c: char, count: nat, random: real)
    requires count > 0
    requires 0.0 <= random < 1.0
    ensures GetRandomChar(CalculateProbabilities([CharData(c, count, 0.0, 0.0)]), random) == c
  {
    var probs := [CharData(c, count, 0.0, 0.0)];
    assert probs[..0] == [];
    LastCdfIsOne(probs);
  }

  /** The distribution of the list ['b' x1, 'a' x1]. */
  lemma AabDistribution()
    ensures CalculateProbabilities([NewEntry('b'), NewEntry('a')]) ==
      [CharData('b', 1, 0.5, 0.5), CharData('a', 1, 0.5, 1.0)]
  {
    var probs := [NewEntry('b'), NewEntry('a')];
    assert Total(probs) == 2 by {
      assert probs[..1] == [NewEntry('b')];
      assert [NewEntry('b')][..0] == [];
    }
  }
}
