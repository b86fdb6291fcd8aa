/**
 * Group-fairness metrics of the dashboard (utils/helpers.py): selection rates,
 * disparate impact, representation ratio, reweighting, the fairness grade and
 * the per-row probability map of the biased-outcome generator.
 *
 * A column is a sequence aligned with the rows: `groups` holds the protected
 * attribute, `labels` the outcome. A Python dict from group to rate is an
 * ordered sequence of (group, value) pairs whose key order is `order`, the
 * order in which pandas hands out the groups; `Enumerates(order, groups)`
 * says it lists every distinct group once. Rates are exact reals.
 */
module Helpers {
  import opened Common

  /** The floor (1e-9) that stands in for a zero denominator. */
  const Epsilon: real := 0.000000001

  /** (ratio, group with the smallest value, group with the largest value) */
  datatype Metric = Metric(ratio: real, minGroup: string, maxGroup: string)

  /** The neutral result returned when there are no groups at all. */
  const Neutral: Metric := Metric(1.0, "", "")

  // ---------------------------------------------------------------------------
  // selection_rates

  /** Every outcome is 0 or 1. */
  predicate Binary(labels: seq<int>)
  {
    forall i :: 0 <= i < |labels| ==> labels[i] == 0 || labels[i] == 1
  }

  /** Sum of the labels of the rows whose group is g. */
  function GroupLabelSum(labels: seq<int>, groups: seq<string>, g: string): int
    requires |labels| == |groups|
  {
    if groups == [] then 0
    else (if groups[0] == g then labels[0] else 0) + GroupLabelSum(labels[1..], groups[1..], g)
  }

  /** Number of rows whose group is g and whose label is 1. */
  function GroupPositives(labels: seq<int>, groups: seq<string>, g: string): nat
    requires |labels| == |groups|
  {
    if groups == [] then 0
    else (if groups[0] == g && labels[0] == 1 then 1 else 0) + GroupPositives(labels[1..], groups[1..], g)
  }

  /** The mean label of group g; a group with no rows gets 0.0. */
  function GroupRate(labels: seq<int>, groups: seq<string>, g: string): real
    requires |labels| == |groups|
  {
    var n := Occurrences(groups, g);
    if n == 0 then 0.0 else GroupLabelSum(labels, groups, g) as real / n as real
  }

  /** The rate dict, keyed in `order`. */
  function Rates(labels: seq<int>, groups: seq<string>, order: seq<string>): seq<(string, real)>
    requires |labels| == |groups|
  {
    seq(|order|, i requires 0 <= i < |order| => (order[i], GroupRate(labels, groups, order[i])))
  }

  /** With 0/1 labels the label sum of a group is its number of 1-labels, at most its size. */
  lemma {:induction false} BinaryLabelSum(labels: seq<int>, groups: seq<string>, g: string)
    requires |labels| == |groups| && Binary(labels)
    ensures GroupLabelSum(labels, groups, g) == GroupPositives(labels, groups, g)
    ensures GroupPositives(labels, groups, g) <= Occurrences(groups, g)
  {
    if groups != [] {
      assert Binary(labels[1..]) by {
        forall i | 0 <= i < |labels[1..]| ensures labels[1..][i] == 0 || labels[1..][i] == 1 {
          assert labels[1..][i] == labels[i + 1];
        }
      }
      BinaryLabelSum(labels[1..], groups[1..], g);
    }
  }

  /** A selection rate is P(Y = 1 | group): the share of the group's rows labelled 1. */
  lemma SelectionRateIsShare(labels: seq<int>, groups: seq<string>, g: string)
    requires |labels| == |groups| && Binary(labels) && g in groups
    ensures GroupRate(labels, groups, g) == GroupPositives(labels, groups, g) as real / Occurrences(groups, g) as real
    ensures 0.0 <= GroupRate(labels, groups, g) <= 1.0
  {
    BinaryLabelSum(labels, groups, g);
    DivUnit(GroupPositives(labels, groups, g) as real, Occurrences(groups, g) as real);
  }

  /** With 0/1 labels every rate lies in [0, 1], whether or not the group has rows. */
  lemma RateBounds(labels: seq<int>, groups: seq<string>, g: string)
    requires |labels| == |groups| && Binary(labels)
    ensures 0.0 <= GroupRate(labels, groups, g) <= 1.0
  {
    if g in groups {
      SelectionRateIsShare(labels, groups, g);
    }
  }

  /**
   * The loop of selection_rates: one entry per group, in group order, each
   * the mean label of the group's rows.
   */
  method SelectionRates(labels: seq<int>, groups: seq<string>, order: seq<string>)
    returns (rates: seq<(string, real)>)
    requires |labels| == |groups|
    requires Enumerates(order, groups)
    ensures rates == Rates(labels, groups, order)
    ensures forall g :: g in groups <==> exists i :: 0 <= i < |rates| && rates[i].0 == g
    ensures forall i, j :: 0 <= i < j < |rates| ==> rates[i].0 != rates[j].0
    ensures forall i :: 0 <= i < |rates| ==>
      rates[i].1 == GroupLabelSum(labels, groups, rates[i].0) as real / Occurrences(groups, rates[i].0) as real
    ensures Binary(labels) ==> forall i :: 0 <= i < |rates| ==> 0.0 <= rates[i].1 <= 1.0
  {
    rates := [];
    for i := 0 to |order|
      invariant |rates| == i
      invariant forall k :: 0 <= k < i ==> rates[k] == (order[k], GroupRate(labels, groups, order[k]))
      invariant Binary(labels) ==> forall k :: 0 <= k < i ==> 0.0 <= rates[k].1 <= 1.0
    {
      var g := order[i];
      var size := Occurrences(groups, g);
      var rate := if size == 0 then 0.0 else GroupLabelSum(labels, groups, g) as real / size as real;
      if Binary(labels) {
        RateBounds(labels, groups, g);
      }
      rates := rates + [(g, rate)];
    }
    forall g | g in groups ensures exists i :: 0 <= i < |rates| && rates[i].0 == g {
      var i :| 0 <= i < |order| && order[i] == g;
      assert rates[i].0 == g;
    }
  }

  // ---------------------------------------------------------------------------
  // max(d, key=d.get) / min(d, key=d.get) and pandas idxmax / idxmin

  /** Index of the first entry with the largest value. */
  function ArgMax(rs: seq<(string, real)>): (k: nat)
    requires rs != []
    ensures k < |rs|
    ensures forall j :: 0 <= j < |rs| ==> rs[j].1 <= rs[k].1
    ensures forall j :: 0 <= j < k ==> rs[j].1 < rs[k].1
  {
    if |rs| == 1 then 0
    else
      var k := ArgMax(rs[..|rs| - 1]);
      if rs[|rs| - 1].1 > rs[k].1 then |rs| - 1 else k
  }

  /** Index of the first entry with the smallest value. */
  function ArgMin(rs: seq<(string, real)>): (k: nat)
    requires rs != []
    ensures k < |rs|
    ensures forall j :: 0 <= j < |rs| ==> rs[k].1 <= rs[j].1
    ensures forall j :: 0 <= j < k ==> rs[k].1 < rs[j].1
  {
    if |rs| == 1 then 0
    else
      var k := ArgMin(rs[..|rs| - 1]);
      if rs[|rs| - 1].1 < rs[k].1 then |rs| - 1 else k
  }

  // ---------------------------------------------------------------------------
  // disparate_impact

  /**
   * DI = rate of the lowest group / rate of the highest group, the latter
   * replaced by 1e-9 when it is not positive; (1.0, "", "") without groups.
   */
  function DisparateImpact(labels: seq<int>, groups: seq<string>, order: seq<string>): (m: Metric)
    requires |labels| == |groups|
    requires Enumerates(order, groups)
    ensures groups == [] ==> m == Neutral
    ensures groups != [] ==> m.minGroup in groups && m.maxGroup in groups
    ensures groups != [] ==>
      var lowest, highest := GroupRate(labels, groups, m.minGroup), GroupRate(labels, groups, m.maxGroup);
      m.ratio == lowest / (if highest > 0.0 then highest else Epsilon)
  {
    EnumeratesEmpty(order, groups);
    var rates := Rates(labels, groups, order);
    if rates == [] then Neutral
    else
      var hi := ArgMax(rates);
      var lo := ArgMin(rates);
      var maxRate := if rates[hi].1 > 0.0 then rates[hi].1 else Epsilon;
      assert rates[lo] == (order[lo], GroupRate(labels, groups, order[lo])) && order[lo] in groups;
      assert rates[hi] == (order[hi], GroupRate(labels, groups, order[hi])) && order[hi] in groups;
      Metric(rates[lo].1 / maxRate, rates[lo].0, rates[hi].0)
  }

  /**
   * The groups DI names have the lowest and the highest rate, and each is the
   * first group in key order with that rate (max and min keep the first
   * extreme they meet).
   */
  lemma DisparateImpactPicksExtremes(labels: seq<int>, groups: seq<string>, order: seq<string>)
    requires |labels| == |groups|
    requires Enumerates(order, groups) && groups != []
    ensures var m := DisparateImpact(labels, groups, order);
      && (forall g :: g in groups ==>
            GroupRate(labels, groups, m.minGroup) <= GroupRate(labels, groups, g) <= GroupRate(labels, groups, m.maxGroup))
      && (forall j, k :: 0 <= j < k < |order| && order[k] == m.minGroup ==>
            GroupRate(labels, groups, order[j]) > GroupRate(labels, groups, m.minGroup))
      && (forall j, k :: 0 <= j < k < |order| && order[k] == m.maxGroup ==>
            GroupRate(labels, groups, order[j]) < GroupRate(labels, groups, m.maxGroup))
  {
    EnumeratesEmpty(order, groups);
    var rates := Rates(labels, groups, order);
    var lo, hi := ArgMin(rates), ArgMax(rates);
    var m := DisparateImpact(labels, groups, order);
    assert m.minGroup == order[lo] && m.maxGroup == order[hi];
    forall g | g in groups
      ensures GroupRate(labels, groups, m.minGroup) <= GroupRate(labels, groups, g) <= GroupRate(labels, groups, m.maxGroup)
    {
      var i :| 0 <= i < |order| && order[i] == g;
      assert rates[i].1 == GroupRate(labels, groups, g);
    }
    forall j, k | 0 <= j < k < |order| && order[k] == m.minGroup
      ensures GroupRate(labels, groups, order[j]) > GroupRate(labels, groups, m.minGroup)
    {
      assert k == lo;
      assert rates[j].1 == GroupRate(labels, groups, order[j]);
    }
    forall j, k | 0 <= j < k < |order| && order[k] == m.maxGroup
      ensures GroupRate(labels, groups, order[j]) < GroupRate(labels, groups, m.maxGroup)
    {
      assert k == hi;
      assert rates[j].1 == GroupRate(labels, groups, order[j]);
    }
  }

  /** Python's `a < b` on strings: code point by code point, a proper prefix first. */
  predicate LexLess(a: string, b: string)
  {
    if b == [] then false
    else if a == [] then true
    else if a[0] != b[0] then a[0] < b[0]
    else LexLess(a[1..], b[1..])
  }

  /** Keys in ascending order, as `groupby` (sort=True) hands them out. */
  predicate SortedLabels(order: seq<string>)
  {
    forall i, j :: 0 <= i < j < |order| ==> LexLess(order[i], order[j])
  }

  /**
   * With groupby's sorted keys, a tie for the lowest or the highest rate goes
   * to the lexicographically smallest of the tied groups.
   */
  lemma DisparateImpactTieBreak(labels: seq<int>, groups: seq<string>, order: seq<string>, g: string)
    requires |labels| == |groups|
    requires Enumerates(order, groups) && groups != [] && SortedLabels(order)
    requires g in groups
    ensures var m := DisparateImpact(labels, groups, order);
      && (g != m.minGroup && GroupRate(labels, groups, g) == GroupRate(labels, groups, m.minGroup) ==> LexLess(m.minGroup, g))
      && (g != m.maxGroup && GroupRate(labels, groups, g) == GroupRate(labels, groups, m.maxGroup) ==> LexLess(m.maxGroup, g))
  {
    var k :| 0 <= k < |order| && order[k] == g;
    EnumeratesEmpty(order, groups);
    LowestTieBreak(labels, groups, order, k);
    HighestTieBreak(labels, groups, order, k);
  }

  lemma LowestTieBreak(labels: seq<int>, groups: seq<string>, order: seq<string>, k: nat)
    requires |labels| == |groups| && Enumerates(order, groups) && SortedLabels(order)
    requires k < |order| && groups != []
    ensures var m := DisparateImpact(labels, groups, order);
      order[k] != m.minGroup && GroupRate(labels, groups, order[k]) == GroupRate(labels, groups, m.minGroup) ==>
        LexLess(m.minGroup, order[k])
  {
    var rates := Rates(labels, groups, order);
    var lo := ArgMin(rates);
    assert DisparateImpact(labels, groups, order).minGroup == order[lo];
    assert rates[k].1 == GroupRate(labels, groups, order[k]);
  }

  lemma HighestTieBreak(labels: seq<int>, groups: seq<string>, order: seq<string>, k: nat)
    requires |labels| == |groups| && Enumerates(order, groups) && SortedLabels(order)
    requires k < |order| && groups != []
    ensures var m := DisparateImpact(labels, groups, order);
      order[k] != m.maxGroup && GroupRate(labels, groups, order[k]) == GroupRate(labels, groups, m.maxGroup) ==>
        LexLess(m.maxGroup, order[k])
  {
    var rates := Rates(labels, groups, order);
    var hi := ArgMax(rates);
    assert DisparateImpact(labels, groups, order).maxGroup == order[hi];
    assert rates[k].1 == GroupRate(labels, groups, order[k]);
  }

  /** With 0/1 labels, DI lies in [0, 1]. */
  lemma DisparateImpactBounds(labels: seq<int>, groups: seq<string>, order: seq<string>)
    requires |labels| == |groups| && Binary(labels)
    requires Enumerates(order, groups)
    ensures 0.0 <= DisparateImpact(labels, groups, order).ratio <= 1.0
  {
    var m := DisparateImpact(labels, groups, order);
    if groups != [] {
      var lo, hi := GroupRate(labels, groups, m.minGroup), GroupRate(labels, groups, m.maxGroup);
      RateBounds(labels, groups, m.minGroup);
      RateBounds(labels, groups, m.maxGroup);
      if hi > 0.0 {
        DivUnit(lo, hi);
      } else {
        DivIsZero(lo, Epsilon);
      }
    }
  }

  /** With 0/1 labels, DI is exactly 1 when, and only when, all groups share one positive rate. */
  lemma DisparateImpactIsOne(labels: seq<int>, groups: seq<string>, order: seq<string>)
    requires |labels| == |groups| && Binary(labels)
    requires Enumerates(order, groups) && groups != []
    ensures DisparateImpact(labels, groups, order).ratio == 1.0 <==>
      && (forall g, h :: g in groups && h in groups ==> GroupRate(labels, groups, g) == GroupRate(labels, groups, h))
      && (forall g :: g in groups ==> GroupRate(labels, groups, g) > 0.0)
  {
    var m := DisparateImpact(labels, groups, order);
    var lo, hi := GroupRate(labels, groups, m.minGroup), GroupRate(labels, groups, m.maxGroup);
    DisparateImpactPicksExtremes(labels, groups, order);
    RateBounds(labels, groups, m.minGroup);
    RateBounds(labels, groups, m.maxGroup);
    if hi > 0.0 {
      DivIsOne(lo, hi);
    } else {
      DivIsZero(lo, Epsilon);
    }
  }

  /** With 0/1 labels, DI is exactly 0 when, and only when, some group has rate 0 (in particular when all do). */
  lemma DisparateImpactIsZero(labels: seq<int>, groups: seq<string>, order: seq<string>)
    requires |labels| == |groups| && Binary(labels)
    requires Enumerates(order, groups) && groups != []
    ensures DisparateImpact(labels, groups, order).ratio == 0.0 <==>
      exists g :: g in groups && GroupRate(labels, groups, g) == 0.0
  {
    var m := DisparateImpact(labels, groups, order);
    var lo, hi := GroupRate(labels, groups, m.minGroup), GroupRate(labels, groups, m.maxGroup);
    DisparateImpactPicksExtremes(labels, groups, order);
    RateBounds(labels, groups, m.minGroup);
    if hi > 0.0 {
      DivIsZero(lo, hi);
    } else {
      DivIsZero(lo, Epsilon);
    }
    if exists g :: g in groups && GroupRate(labels, groups, g) == 0.0 {
      var g :| g in groups && GroupRate(labels, groups, g) == 0.0;
      assert GroupRate(labels, groups, m.minGroup) == 0.0;
    }
    if m.ratio == 0.0 {
      assert GroupRate(labels, groups, m.minGroup) == 0.0;
    }
  }

  /** Example: outcomes [1, 1, 0, 0] over groups A, A, B, B give DI 0 with B lowest and A highest. */
  lemma DisparateImpactExample()
    ensures DisparateImpact([1, 1, 0, 0], ["A", "A", "B", "B"], ["A", "B"]) == Metric(0.0, "B", "A")
  {
    var labels, groups := [1, 1, 0, 0], ["A", "A", "B", "B"];
    assert GroupRate(labels, groups, "A") == 1.0;
    assert GroupRate(labels, groups, "B") == 0.0;
  }

  // ---------------------------------------------------------------------------
  // representation_ratio

  /** The population share of group g: value_counts(normalize=True). */
  function Share(groups: seq<string>, g: string): real
  {
    if groups == [] then 0.0 else Occurrences(groups, g) as real / |groups| as real
  }

  /** The proportions dict, keyed in `order`. */
  function Proportions(groups: seq<string>, order: seq<string>): seq<(string, real)>
  {
    seq(|order|, i requires 0 <= i < |order| => (order[i], Share(groups, order[i])))
  }

  /** The values of the proportions dict, in key order. */
  function Shares(groups: seq<string>, order: seq<string>): (s: seq<real>)
    ensures |s| == |order|
  {
    var props := Proportions(groups, order);
    seq(|order|, i requires 0 <= i < |order| => props[i].1)
  }

  /** Smallest share over largest share (largest replaced by 1e-9 if not positive); (1.0, "", "") on an empty column. */
  function RepresentationRatio(groups: seq<string>, order: seq<string>): (m: Metric)
    requires Enumerates(order, groups)
    ensures groups == [] ==> m == Neutral
    ensures groups != [] ==> m.minGroup in groups && m.maxGroup in groups
    ensures groups != [] ==>
      var smallest, largest := Share(groups, m.minGroup), Share(groups, m.maxGroup);
      m.ratio == smallest / (if largest > 0.0 then largest else Epsilon)
  {
    EnumeratesEmpty(order, groups);
    var props := Proportions(groups, order);
    if props == [] then Neutral
    else
      var hi := ArgMax(props);
      var lo := ArgMin(props);
      var maxShare := if props[hi].1 > 0.0 then props[hi].1 else Epsilon;
      assert props[lo] == (order[lo], Share(groups, order[lo])) && order[lo] in groups;
      assert props[hi] == (order[hi], Share(groups, order[hi])) && order[hi] in groups;
      Metric(props[lo].1 / maxShare, props[lo].0, props[hi].0)
  }

  /**
   * idxmin and idxmax name the group with the smallest and the largest share,
   * each the first in key order with that share.
   */
  lemma RepresentationRatioPicksExtremes(groups: seq<string>, order: seq<string>)
    requires Enumerates(order, groups) && groups != []
    ensures var m := RepresentationRatio(groups, order);
      && (forall g :: g in groups ==> Share(groups, m.minGroup) <= Share(groups, g) <= Share(groups, m.maxGroup))
      && (forall j, k :: 0 <= j < k < |order| && order[k] == m.minGroup ==>
            Share(groups, order[j]) > Share(groups, m.minGroup))
      && (forall j, k :: 0 <= j < k < |order| && order[k] == m.maxGroup ==>
            Share(groups, order[j]) < Share(groups, m.maxGroup))
  {
    EnumeratesEmpty(order, groups);
    var props := Proportions(groups, order);
    var lo, hi := ArgMin(props), ArgMax(props);
    var m := RepresentationRatio(groups, order);
    assert m.minGroup == order[lo] && m.maxGroup == order[hi];
    forall g | g in groups
      ensures Share(groups, m.minGroup) <= Share(groups, g) <= Share(groups, m.maxGroup)
    {
      var i :| 0 <= i < |order| && order[i] == g;
      assert props[i].1 == Share(groups, g);
    }
    forall j, k | 0 <= j < k < |order| && order[k] == m.minGroup
      ensures Share(groups, order[j]) > Share(groups, m.minGroup)
    {
      assert k == lo;
      assert props[j].1 == Share(groups, order[j]);
    }
    forall j, k | 0 <= j < k < |order| && order[k] == m.maxGroup
      ensures Share(groups, order[j]) < Share(groups, m.maxGroup)
    {
      assert k == hi;
      assert props[j].1 == Share(groups, order[j]);
    }
  }

  /** Comparing shares of one column is comparing counts. */
  lemma ShareOrder(groups: seq<string>, g: string, h: string)
    requires groups != []
    ensures Share(groups, g) <= Share(groups, h) <==> Occurrences(groups, g) <= Occurrences(groups, h)
  {
    var n := |groups| as real;
    var a, b := Occurrences(groups, g) as real, Occurrences(groups, h) as real;
    DivMonotone(a, b, n);
  }

  /**
   * On a non-empty column the ratio is count(min group) / count(max group)
   * and lies in (0, 1].
   */
  lemma RepresentationRatioIsCountRatio(groups: seq<string>, order: seq<string>)
    requires Enumerates(order, groups) && groups != []
    ensures var m := RepresentationRatio(groups, order);
      && m.ratio == Occurrences(groups, m.minGroup) as real / Occurrences(groups, m.maxGroup) as real
      && 0.0 < m.ratio <= 1.0
  {
    var m := RepresentationRatio(groups, order);
    var n := |groups| as real;
    var a, b := Occurrences(groups, m.minGroup) as real, Occurrences(groups, m.maxGroup) as real;
    assert a <= b by {
      RepresentationRatioPicksExtremes(groups, order);
      ShareOrder(groups, m.minGroup, m.maxGroup);
    }
    assert 0.0 < a;
    assert Share(groups, m.minGroup) == a / n && Share(groups, m.maxGroup) == b / n;
    ShareRatio(a, b, n);
  }

  /** The ratio of two shares of one column is the ratio of the counts, in (0, 1]. */
  lemma ShareRatio(a: real, b: real, n: real)
    requires 0.0 < a <= b && n > 0.0
    ensures b / n > 0.0 && (a / n) / (b / n) == a / b && 0.0 < a / b <= 1.0
  {
    DivIsZero(b, n);
    DivCancel(a, b, n);
    DivUnit(a, b);
    DivIsZero(a, b);
  }

  /** The two groups named by the ratio have the fewest and the most rows. */
  lemma RepresentationRatioCountExtremes(groups: seq<string>, order: seq<string>)
    requires Enumerates(order, groups) && groups != []
    ensures var m := RepresentationRatio(groups, order);
      forall g :: g in groups ==>
        Occurrences(groups, m.minGroup) <= Occurrences(groups, g) <= Occurrences(groups, m.maxGroup)
  {
    var m := RepresentationRatio(groups, order);
    RepresentationRatioPicksExtremes(groups, order);
    forall g | g in groups
      ensures Occurrences(groups, m.minGroup) <= Occurrences(groups, g) <= Occurrences(groups, m.maxGroup)
    {
      ShareOrder(groups, m.minGroup, g);
      ShareOrder(groups, g, m.maxGroup);
    }
  }

  /** The shares of the groups add up to 1 on a non-empty column. */
  lemma ProportionsSumToOne(groups: seq<string>, order: seq<string>)
    requires Enumerates(order, groups) && groups != []
    ensures Sum(Shares(groups, order)) == 1.0
  {
    ShareSum(groups, order);
    OccurrenceTotalCovers(groups, order);
    DivIsOne(|groups| as real, |groups| as real);
  }

  lemma {:induction false} ShareSum(groups: seq<string>, order: seq<string>)
    requires groups != []
    ensures Sum(Shares(groups, order)) == OccurrenceTotal(groups, order) as real / |groups| as real
  {
    var s := Shares(groups, order);
    if order != [] {
      assert s[1..] == Shares(groups, order[1..]);
      ShareSum(groups, order[1..]);
      var n := |groups| as real;
      DivAdd(Occurrences(groups, order[0]) as real, OccurrenceTotal(groups, order[1..]) as real, n);
      assert Sum(s) == Occurrences(groups, order[0]) as real / n + OccurrenceTotal(groups, order[1..]) as real / n;
    }
  }

  // ---------------------------------------------------------------------------
  // synthesize_outcome: the probability of a 1 for each row

  const MinProbability: real := 0.01
  const MaxProbability: real := 0.99

  /** numpy's clip: the nearest point of [lo, hi]. */
  function Clip(x: real, lo: real, hi: real): (r: real)
    requires lo <= hi
    ensures lo <= r <= hi
    ensures lo <= x <= hi ==> r == x
    ensures x < lo ==> r == lo
    ensures hi < x ==> r == hi
  {
    var atLeastLo := if x > lo then x else lo;
    if atLeastLo < hi then atLeastLo else hi
  }

  /** d.get(g, 1.0): a group's entry in a per-group table, 1.0 when it has none (used for multipliers and weights). */
  function GetOrOne(table: map<string, real>, g: string): real
  {
    if g in table then table[g] else 1.0
  }

  /** The multiplier table in force: the caller's, or 1.0 for every group present when none is given. */
  function EffectiveMultipliers(groups: seq<string>, multipliers: Option<map<string, real>>): map<string, real>
  {
    match multipliers
    case None => map g | g in groups :: 1.0
    case Some(table) => table
  }

  /** The Bernoulli parameter of a row of group g. */
  function RowProbability(table: map<string, real>, baseRate: real, g: string): (p: real)
    ensures MinProbability <= p <= MaxProbability
  {
    Clip(baseRate * GetOrOne(table, g), MinProbability, MaxProbability)
  }

  /** One Bernoulli parameter per row: clip(base_rate * multiplier of the row's group, 0.01, 0.99). */
  function OutcomeProbabilities(groups: seq<string>, baseRate: real, multipliers: Option<map<string, real>>): (ps: seq<real>)
    ensures |ps| == |groups|
    ensures forall i :: 0 <= i < |ps| ==> MinProbability <= ps[i] <= MaxProbability
    ensures forall i, j :: 0 <= i < |ps| && 0 <= j < |ps| && groups[i] == groups[j] ==> ps[i] == ps[j]
  {
    seq(|groups|, i requires 0 <= i < |groups| =>
      RowProbability(EffectiveMultipliers(groups, multipliers), baseRate, groups[i]))
  }

  /** A row whose group has no multiplier (or when no table is given) gets the clipped base rate. */
  lemma UnlistedGroupUsesBaseRate(groups: seq<string>, baseRate: real, multipliers: Option<map<string, real>>, i: nat)
    requires i < |groups|
    requires multipliers.None? || groups[i] !in multipliers.value
    ensures OutcomeProbabilities(groups, baseRate, multipliers)[i] == Clip(baseRate, MinProbability, MaxProbability)
  {
  }

  /** Without a table every row gets the same probability. */
  lemma NoTableIsUniform(groups: seq<string>, baseRate: real)
    ensures forall i :: 0 <= i < |groups| ==>
      OutcomeProbabilities(groups, baseRate, None)[i] == Clip(baseRate, MinProbability, MaxProbability)
  {
  }

  /** Scaled probabilities already inside [0.01, 0.99] are used unchanged. */
  lemma ProbabilityInRangeIsExact(groups: seq<string>, baseRate: real, table: map<string, real>, i: nat)
    requires i < |groups|
    requires MinProbability <= baseRate * GetOrOne(table, groups[i]) <= MaxProbability
    ensures OutcomeProbabilities(groups, baseRate, Some(table))[i] == baseRate * GetOrOne(table, groups[i])
  {
  }

  /** With a non-negative base rate, a group with a larger multiplier is never less likely to get a 1. */
  lemma ProbabilityMonotoneInMultiplier(groups: seq<string>, baseRate: real, table: map<string, real>, i: nat, j: nat)
    requires i < |groups| && j < |groups| && baseRate >= 0.0
    requires GetOrOne(table, groups[i]) <= GetOrOne(table, groups[j])
    ensures OutcomeProbabilities(groups, baseRate, Some(table))[i] <= OutcomeProbabilities(groups, baseRate, Some(table))[j]
  {
    var ps := OutcomeProbabilities(groups, baseRate, Some(table));
    assert ps[i] == RowProbability(table, baseRate, groups[i]);
    assert ps[j] == RowProbability(table, baseRate, groups[j]);
    RowProbabilityMonotone(table, baseRate, groups[i], groups[j]);
  }

  lemma RowProbabilityMonotone(table: map<string, real>, baseRate: real, g: string, h: string)
    requires baseRate >= 0.0 && GetOrOne(table, g) <= GetOrOne(table, h)
    ensures RowProbability(table, baseRate, g) <= RowProbability(table, baseRate, h)
  {
    ScaledClipMonotone(baseRate, GetOrOne(table, g), GetOrOne(table, h));
  }

  lemma ScaledClipMonotone(c: real, a: real, b: real)
    requires c >= 0.0 && a <= b
    ensures Clip(c * a, MinProbability, MaxProbability) <= Clip(c * b, MinProbability, MaxProbability)
  {
    MulMonotone(c, a, b);
  }

  // ---------------------------------------------------------------------------
  // apply_reweighting

  function RawWeights(groups: seq<string>, weights: map<string, real>): seq<real>
  {
    seq(|groups|, i requires 0 <= i < |groups| => GetOrOne(weights, groups[i]))
  }

  function Mean(s: seq<real>): real
    requires s != []
  {
    Sum(s) / |s| as real
  }

  /**
   * Each row gets its group's weight (1.0 if unlisted), divided by the mean
   * raw weight when that mean is positive; otherwise the raw weights stand.
   * An empty column gives an empty result (pandas' mean of nothing is NaN,
   * which is not positive).
   */
  function ApplyReweighting(groups: seq<string>, weights: map<string, real>): (w: seq<real>)
    ensures |w| == |groups|
    ensures forall i, j :: 0 <= i < |w| && 0 <= j < |w| && groups[i] == groups[j] ==> w[i] == w[j]
    ensures groups != [] && Mean(RawWeights(groups, weights)) > 0.0 ==>
      forall i :: 0 <= i < |w| ==> w[i] == GetOrOne(weights, groups[i]) / Mean(RawWeights(groups, weights))
    ensures !(groups != [] && Mean(RawWeights(groups, weights)) > 0.0) ==> w == RawWeights(groups, weights)
  {
    var raw := RawWeights(groups, weights);
    DivideAll(raw, if raw != [] && Mean(raw) > 0.0 then Mean(raw) else 1.0)
  }

  /** When the raw mean is positive, the reweighted column has mean exactly 1. */
  lemma ReweightingMeanIsOne(groups: seq<string>, weights: map<string, real>)
    requires groups != [] && Mean(RawWeights(groups, weights)) > 0.0
    ensures Mean(ApplyReweighting(groups, weights)) == 1.0
  {
    var raw := RawWeights(groups, weights);
    var d := Mean(raw);
    var w := ApplyReweighting(groups, weights);
    SumDivideAll(raw, d);
    DivByMean(Sum(raw), |raw| as real);
  }

  // ---------------------------------------------------------------------------
  // score_fairness

  /** Grade and hint for a DI value; each threshold is an inclusive lower bound. */
  function ScoreFairness(di: real): (r: (string, string))
    ensures r.0 == "A" <==> di >= 0.95
    ensures r.0 == "B" <==> 0.8 <= di < 0.95
    ensures r.0 == "C" <==> 0.65 <= di < 0.8
    ensures r.0 == "D" <==> di < 0.65
  {
    if di >= 0.95 then ("A", "Excellent parity. DI \U{2265} 0.95.")
    else if di >= 0.8 then ("B", "Meets the 80% rule (DI \U{2265} 0.8).")
    else if di >= 0.65 then ("C", "Some improvement needed. Try stronger mitigation.")
    else ("D", "Biased outcome. Aim for DI \U{2265} 0.8 via stronger mitigation.")
  }

  /** Position of a grade, "D" lowest. */
  function GradeRank(grade: string): nat
  {
    if grade == "A" then 3 else if grade == "B" then 2 else if grade == "C" then 1 else 0
  }

  /** A higher DI never earns a lower grade, and grades A and B are exactly the 80% rule. */
  lemma ScoreFairnessMonotone(di: real, di': real)
    requires di <= di'
    ensures GradeRank(ScoreFairness(di).0) <= GradeRank(ScoreFairness(di').0)
    ensures GradeRank(ScoreFairness(di).0) >= 2 <==> di >= 0.8
  {
  }
}
