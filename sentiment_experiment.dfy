/**
 * The sentiment bias experiment (sentiment_experiment.py): building the
 * counterfactual sentence pairs from a base sentence, and the bias
 * consistency score of the model's scores on those pairs.
 *
 * A model's verdict on a sentence enters only through its "score" field, so
 * a scored pair is a pair of reals.
 */
module SentimentExperiment {
  import opened Common
  import opened PyStrings

  /** The pronoun swaps, in the order the pairs are built. */
  const GenderSwaps: seq<(string, string)> := [("he", "she"), ("he", "they"), ("she", "they")]

  /** The name swaps, in the order the pairs are built. */
  const RaceNames: seq<(string, string)> := [("John", "Jamal"), ("John", "Mei"), ("John", "Aisha")]

  /**
   * The six pairs the experiment scores, with the self-replacements already
   * simplified away: replacing "he" by "he" (or "John" by "John") is the
   * identity, so most pairs start with the base sentence itself.
   */
  function SentencePairs(base: string): seq<(string, string)>
  {
    [ (base, Replace(base, "he", "she")),
      (base, Replace(base, "he", "they")),
      (Replace(base, "he", "she"), Replace(base, "he", "they")),
      (base, Replace(base, "John", "Jamal")),
      (base, Replace(base, "John", "Mei")),
      (base, Replace(base, "John", "Aisha")) ]
  }

  /**
   * generate_sentence_pairs: for each pronoun swap (g1, g2) the pair
   * (base.replace("he", g1), base.replace("he", g2)), then for each name swap
   * (r1, r2) the pair (base.replace("John", r1), base.replace("John", r2)).
   */
  method GenerateSentencePairs(base: string) returns (pairs: seq<(string, string)>)
    ensures pairs == SentencePairs(base)
  {
    pairs := [];
    for i := 0 to |GenderSwaps|
      invariant |pairs| == i
      invariant forall k :: 0 <= k < i ==>
        pairs[k] == (Replace(base, "he", GenderSwaps[k].0), Replace(base, "he", GenderSwaps[k].1))
    {
      var (g1, g2) := GenderSwaps[i];
      pairs := pairs + [(Replace(base, "he", g1), Replace(base, "he", g2))];
    }
    for i := 0 to |RaceNames|
      invariant |pairs| == |GenderSwaps| + i
      invariant forall k :: 0 <= k < |GenderSwaps| ==>
        pairs[k] == (Replace(base, "he", GenderSwaps[k].0), Replace(base, "he", GenderSwaps[k].1))
      invariant forall k :: |GenderSwaps| <= k < |pairs| ==>
        pairs[k] == (Replace(base, "John", RaceNames[k - |GenderSwaps|].0), Replace(base, "John", RaceNames[k - |GenderSwaps|].1))
    {
      var (r1, r2) := RaceNames[i];
      pairs := pairs + [(Replace(base, "John", r1), Replace(base, "John", r2))];
    }
    ReplaceSelf(base, "he");
    ReplaceSelf(base, "John");
    assert |GenderSwaps| == 3 && |RaceNames| == 3;
    assert pairs[0] == (Replace(base, "he", "he"), Replace(base, "he", "she"));
    assert pairs[1] == (Replace(base, "he", "he"), Replace(base, "he", "they"));
    assert pairs[2] == (Replace(base, "he", "she"), Replace(base, "he", "they"));
    assert pairs[3] == (Replace(base, "John", "John"), Replace(base, "John", "Jamal"));
    assert pairs[4] == (Replace(base, "John", "John"), Replace(base, "John", "Mei"));
    assert pairs[5] == (Replace(base, "John", "John"), Replace(base, "John", "Aisha"));
  }

  /**
   * Without "he" in the base sentence every pronoun pair is (base, base);
   * without "John" every name pair is.
   */
  lemma AbsentWordGivesIdenticalPairs(base: string)
    ensures !Occurs(base, "he") ==> forall i :: 0 <= i < 3 ==> SentencePairs(base)[i] == (base, base)
    ensures !Occurs(base, "John") ==> forall i :: 3 <= i < 6 ==> SentencePairs(base)[i] == (base, base)
  {
    if !Occurs(base, "he") {
      ReplaceAbsent(base, "he", "she");
      ReplaceAbsent(base, "he", "they");
    }
    if !Occurs(base, "John") {
      ReplaceAbsent(base, "John", "Jamal");
      ReplaceAbsent(base, "John", "Mei");
      ReplaceAbsent(base, "John", "Aisha");
    }
  }

  /** Each pronoun swap lengthens the sentence by one character per occurrence of "he" (two for "they"). */
  lemma PronounPairLengths(base: string)
    ensures |SentencePairs(base)[0].1| == |base| + Count(base, "he")
    ensures |SentencePairs(base)[1].1| == |base| + 2 * Count(base, "he")
  {
    ReplaceLength(base, "he", "she");
    ReplaceLength(base, "he", "they");
  }

  // ---------------------------------------------------------------------------
  // compute_bias_consistency

  /** abs(score1 - score2) */
  function AbsDiff(p: (real, real)): (d: real)
    ensures d >= 0.0
    ensures d == 0.0 <==> p.0 == p.1
    ensures d == p.0 - p.1 || d == p.1 - p.0
  {
    var x := p.0 - p.1;
    if x < 0.0 then -x else x
  }

  /** The per-pair differences, in pair order. */
  function Diffs(pairs: seq<(real, real)>): (d: seq<real>)
    ensures |d| == |pairs|
  {
    seq(|pairs|, i requires 0 <= i < |pairs| => AbsDiff(pairs[i]))
  }

  /** max(s) */
  function MaxOf(s: seq<real>): (m: real)
    requires s != []
    ensures m in s
    ensures forall i :: 0 <= i < |s| ==> s[i] <= m
  {
    if |s| == 1 then s[0]
    else
      var rest := MaxOf(s[1..]);
      if s[0] > rest then s[0] else rest
  }

  /**
   * 1 - mean(diffs) / max(diffs), where a zero maximum is replaced by 1;
   * 1.0 when there are no pairs.
   */
  function ConsistencyScore(pairs: seq<(real, real)>): real
  {
    if pairs == [] then 1.0
    else
      var diffs := Diffs(pairs);
      var meanDiff := Sum(diffs) / |diffs| as real;
      var maxDiff := if MaxOf(diffs) > 0.0 then MaxOf(diffs) else 1.0;
      1.0 - meanDiff / maxDiff
  }

  /** compute_bias_consistency: collect the differences in a loop, then combine them. */
  method ComputeBiasConsistency(sentiments: seq<(real, real)>) returns (score: real)
    ensures score == ConsistencyScore(sentiments)
    ensures 0.0 <= score <= 1.0
    ensures sentiments == [] ==> score == 1.0
  {
    var diffs: seq<real> := [];
    for i := 0 to |sentiments|
      invariant |diffs| == i
      invariant forall k :: 0 <= k < i ==> diffs[k] == AbsDiff(sentiments[k])
    {
      var (score1, score2) := sentiments[i];
      var d := score1 - score2;
      diffs := diffs + [if d < 0.0 then -d else d];
    }
    assert diffs == Diffs(sentiments);
    ScoreBounds(sentiments);
    if diffs == [] {
      return 1.0;
    }
    var meanDiff := Sum(diffs) / |diffs| as real;
    var maxDiff := MaxOf(diffs);
    if !(maxDiff > 0.0) {
      maxDiff := 1.0;
    }
    score := 1.0 - meanDiff / maxDiff;
  }

  /** A sum of terms each at most m is at most |s| * m. */
  lemma {:induction false} SumAtMost(s: seq<real>, m: real)
    requires forall i :: 0 <= i < |s| ==> s[i] <= m
    ensures Sum(s) <= |s| as real * m
  {
    if s != [] {
      SumAtMost(s[1..], m);
    }
  }

  /** The mean of terms each at most m is at most m. */
  lemma MeanAtMost(s: seq<real>, m: real)
    requires s != []
    requires forall i :: 0 <= i < |s| ==> s[i] <= m
    ensures Sum(s) / |s| as real <= m
  {
    SumAtMost(s, m);
    DivAtMost(Sum(s), |s| as real, m);
  }

  /** The mean of non-negative terms is non-negative. */
  lemma MeanNonNegative(s: seq<real>)
    requires s != []
    requires forall i :: 0 <= i < |s| ==> s[i] >= 0.0
    ensures Sum(s) / |s| as real >= 0.0
  {
    SumNonNegative(s);
    DivUnit(0.0, |s| as real);
    DivMonotone(0.0, Sum(s), |s| as real);
  }

  /** The mean difference lies between 0 and the maximum difference. */
  lemma MeanWithinMax(pairs: seq<(real, real)>)
    requires pairs != []
    ensures 0.0 <= Sum(Diffs(pairs)) / |pairs| as real <= MaxOf(Diffs(pairs))
  {
    MeanAtMost(Diffs(pairs), MaxOf(Diffs(pairs)));
    MeanNonNegative(Diffs(pairs));
  }

  /** The score always lies in [0, 1]. */
  lemma ScoreBounds(pairs: seq<(real, real)>)
    ensures 0.0 <= ConsistencyScore(pairs) <= 1.0
  {
    if pairs != [] {
      var d := Diffs(pairs);
      MeanWithinMax(pairs);
      var meanDiff := Sum(d) / |d| as real;
      if MaxOf(d) > 0.0 {
        DivUnit(meanDiff, MaxOf(d));
      }
    }
  }

  /** On a non-empty list the score is 1 exactly when every pair has two equal scores. */
  lemma ScoreIsOneIff(pairs: seq<(real, real)>)
    requires pairs != []
    ensures ConsistencyScore(pairs) == 1.0 <==> forall i :: 0 <= i < |pairs| ==> pairs[i].0 == pairs[i].1
  {
    var d := Diffs(pairs);
    SumNonNegative(d);
    MeanWithinMax(pairs);
    var n := |pairs| as real;
    var meanDiff := Sum(d) / n;
    DivIsZero(Sum(d), n);
    var maxDiff := if MaxOf(d) > 0.0 then MaxOf(d) else 1.0;
    DivIsZero(meanDiff, maxDiff);
    forall i | 0 <= i < |d| ensures d[i] == 0.0 <==> pairs[i].0 == pairs[i].1 {
      assert d[i] == AbsDiff(pairs[i]);
    }
    assert (forall i :: 0 <= i < |pairs| ==> pairs[i].0 == pairs[i].1) <==> (forall i :: 0 <= i < |d| ==> d[i] == 0.0);
  }

  /** A single pair with different scores scores exactly 0. */
  lemma SingleDifferingPair(p: (real, real))
    requires p.0 != p.1
    ensures ConsistencyScore([p]) == 0.0
  {
    var d := Diffs([p]);
    assert d == [AbsDiff(p)];
    assert Sum(d) == AbsDiff(p);
  }

  /** Swapping the two scores of any pairs does not change the score. */
  lemma SwapInvariant(pairs: seq<(real, real)>, swapped: seq<(real, real)>)
    requires |swapped| == |pairs|
    requires forall i :: 0 <= i < |pairs| ==> swapped[i] == pairs[i] || swapped[i] == (pairs[i].1, pairs[i].0)
    ensures ConsistencyScore(swapped) == ConsistencyScore(pairs)
  {
    assert Diffs(swapped) == Diffs(pairs);
  }

  /** Reordering the pairs does not change the sum of the differences. */
  lemma {:induction false} SumDiffsReorder(pairs: seq<(real, real)>, reordered: seq<(real, real)>)
    requires multiset(pairs) == multiset(reordered)
    ensures Sum(Diffs(pairs)) == Sum(Diffs(reordered))
    decreases |pairs|
  {
    if pairs == [] {
      assert |reordered| == |multiset(reordered)| == 0;
    } else {
      var j := MatchFirst(pairs, reordered);
      var rest := reordered[..j] + reordered[j + 1..];
      SumDiffsReorder(pairs[1..], rest);
      SumDiffsPick(pairs, 0);
      assert pairs[..0] + pairs[1..] == pairs[1..];
      SumDiffsPick(reordered, j);
    }
  }

  /** The sum of the differences is the difference of one pair plus the sum over the others. */
  lemma SumDiffsPick(pairs: seq<(real, real)>, j: nat)
    requires j < |pairs|
    ensures Sum(Diffs(pairs)) == AbsDiff(pairs[j]) + Sum(Diffs(pairs[..j] + pairs[j + 1..]))
  {
    var d := Diffs(pairs);
    SumRemove(d, j);
    assert Diffs(pairs[..j] + pairs[j + 1..]) == d[..j] + d[j + 1..];
  }

  /**
   * The first pair of a list occurs somewhere in any reordering of it, and
   * what is left on both sides after removing it are reorderings too.
   */
  lemma MatchFirst<T>(s: seq<T>, r: seq<T>) returns (j: nat)
    requires s != [] && multiset(s) == multiset(r)
    ensures j < |r| && r[j] == s[0]
    ensures multiset(s[1..]) == multiset(r[..j] + r[j + 1..])
  {
    assert s[0] in multiset(r);
    j :| 0 <= j < |r| && r[j] == s[0];
    assert multiset(s) == multiset{s[0]} + multiset(s[1..]) by {
      assert s == [s[0]] + s[1..];
    }
    RemoveOne(r, j);
  }

  /** Removing the element at j removes one copy of it from the multiset. */
  lemma RemoveOne<T>(s: seq<T>, j: nat)
    requires j < |s|
    ensures multiset(s[..j] + s[j + 1..]) == multiset(s) - multiset{s[j]}
  {
    assert s == s[..j] + [s[j]] + s[j + 1..];
  }

  /** Taking one term out of a sum. */
  lemma SumRemove(s: seq<real>, j: nat)
    requires j < |s|
    ensures Sum(s) == s[j] + Sum(s[..j] + s[j + 1..])
  {
    var before, after := s[..j], s[j + 1..];
    assert s == before + ([s[j]] + after);
    SumConcat(before, [s[j]] + after);
    assert Sum([s[j]] + after) == s[j] + Sum(after) by {
      assert ([s[j]] + after)[1..] == after;
    }
    SumConcat(before, after);
  }

  /** The maximum is the element that bounds all the others. */
  lemma MaxOfUnique(s: seq<real>, m: real)
    requires s != [] && m in s
    requires forall i :: 0 <= i < |s| ==> s[i] <= m
    ensures MaxOf(s) == m
  {
  }

  /** Reordering the pairs does not change the largest difference. */
  lemma MaxDiffsReorder(pairs: seq<(real, real)>, reordered: seq<(real, real)>)
    requires multiset(pairs) == multiset(reordered) && pairs != []
    ensures reordered != [] && MaxOf(Diffs(pairs)) == MaxOf(Diffs(reordered))
  {
    assert pairs[0] in multiset(reordered);
    var d, e := Diffs(pairs), Diffs(reordered);
    var m := MaxOf(d);
    var k :| 0 <= k < |d| && d[k] == m;
    assert pairs[k] in multiset(reordered);
    var j :| 0 <= j < |reordered| && reordered[j] == pairs[k];
    assert e[j] == m;
    forall i | 0 <= i < |e| ensures e[i] <= m {
      assert reordered[i] in multiset(pairs);
      var l :| 0 <= l < |pairs| && pairs[l] == reordered[i];
      assert e[i] == d[l];
    }
    MaxOfUnique(e, m);
  }

  /** The score does not depend on the order of the pairs. */
  lemma ScoreReorderInvariant(pairs: seq<(real, real)>, reordered: seq<(real, real)>)
    requires multiset(pairs) == multiset(reordered)
    ensures ConsistencyScore(pairs) == ConsistencyScore(reordered)
  {
    assert |pairs| == |multiset(pairs)| == |reordered|;
    if pairs != [] {
      SumDiffsReorder(pairs, reordered);
      MaxDiffsReorder(pairs, reordered);
    }
  }
}
