/**
 * Shared vocabulary for the fairness-metric model: an optional value, sums of
 * reals, and the predicate saying that a list of group labels enumerates the
 * distinct values of a column exactly once each (the role the key order of a
 * pandas groupby or value_counts plays in the source).
 */
module Common {

  datatype Option<T> = None | Some(value: T)

  /** Sum of a sequence of reals (numpy's sum, taken exactly). */
  function Sum(s: seq<real>): real
  {
    if s == [] then 0.0 else s[0] + Sum(s[1..])
  }

  lemma {:induction false} SumConcat(a: seq<real>, b: seq<real>)
    ensures Sum(a + b) == Sum(a) + Sum(b)
  {
    if a == [] {
      assert a + b == b;
    } else {
      assert (a + b)[1..] == a[1..] + b;
      SumConcat(a[1..], b);
    }
  }

  /** Sum of non-negative reals is non-negative, and zero exactly when every term is zero. */
  lemma {:induction false} SumNonNegative(s: seq<real>)
    requires forall i :: 0 <= i < |s| ==> s[i] >= 0.0
    ensures Sum(s) >= 0.0
    ensures Sum(s) == 0.0 <==> forall i :: 0 <= i < |s| ==> s[i] == 0.0
  {
    if s != [] {
      SumNonNegative(s[1..]);
      assert forall i :: 1 <= i < |s| ==> s[i] == s[1..][i - 1];
    }
  }

  /** Every term divided by d. */
  function DivideAll(s: seq<real>, d: real): (t: seq<real>)
    requires d != 0.0
    ensures |t| == |s|
  {
    seq(|s|, i requires 0 <= i < |s| => s[i] / d)
  }

  /** Dividing every term by d divides the sum by d. */
  lemma {:induction false} SumDivideAll(s: seq<real>, d: real)
    requires d != 0.0
    ensures Sum(DivideAll(s, d)) == Sum(s) / d
  {
    var t := DivideAll(s, d);
    if s != [] {
      assert t[1..] == DivideAll(s[1..], d);
      SumDivideAll(s[1..], d);
      assert Sum(t) == s[0] / d + Sum(s[1..]) / d;
    }
  }

  /** No label occurs twice. */
  predicate NoDup(s: seq<string>)
  {
    forall i, j :: 0 <= i < j < |s| ==> s[i] != s[j]
  }

  /** `order` lists every distinct value of `column` exactly once, and nothing else. */
  predicate Enumerates(order: seq<string>, column: seq<string>)
  {
    && NoDup(order)
    && (forall g :: g in order ==> g in column)
    && (forall g :: g in column ==> g in order)
  }

  /** A column has no groups exactly when it is empty. */
  lemma EnumeratesEmpty(order: seq<string>, column: seq<string>)
    requires Enumerates(order, column)
    ensures order == [] <==> column == []
  {
    if column != [] {
      assert column[0] in order;
    }
    if order != [] {
      assert order[0] in column;
    }
  }

  /** Number of entries of `column` equal to `g`. */
  function Occurrences(column: seq<string>, g: string): (n: nat)
    ensures n <= |column|
    ensures n > 0 <==> g in column
  {
    if column == [] then 0
    else (if column[0] == g then 1 else 0) + Occurrences(column[1..], g)
  }

  /** A label that appears in a duplicate-free list appears there exactly once. */
  lemma {:induction false} OccurrencesNoDup(order: seq<string>, g: string)
    requires NoDup(order)
    ensures Occurrences(order, g) == if g in order then 1 else 0
  {
    if order != [] {
      assert NoDup(order[1..]) by {
        forall i, j | 0 <= i < j < |order[1..]| ensures order[1..][i] != order[1..][j] {
          assert order[1..][i] == order[i + 1] && order[1..][j] == order[j + 1];
        }
      }
      OccurrencesNoDup(order[1..], g);
      if order[0] == g {
        assert g !in order[1..] by {
          forall k | 0 <= k < |order[1..]| ensures order[1..][k] != g {
            assert order[1..][k] == order[k + 1];
          }
        }
      }
    }
  }

  /** Sum, over the labels of `order`, of how often each occurs in `column`. */
  function OccurrenceTotal(column: seq<string>, order: seq<string>): nat
  {
    if order == [] then 0 else Occurrences(column, order[0]) + OccurrenceTotal(column, order[1..])
  }

  lemma {:induction false} OccurrenceTotalCons(h: string, t: seq<string>, order: seq<string>)
    ensures OccurrenceTotal([h] + t, order) == Occurrences(order, h) + OccurrenceTotal(t, order)
  {
    if order != [] {
      assert ([h] + t)[1..] == t;
      OccurrenceTotalCons(h, t, order[1..]);
    }
  }

  /**
   * When `order` is duplicate-free and covers every value of `column`, the
   * per-group counts add up to the length of the column.
   */
  lemma {:induction false} OccurrenceTotalCovers(column: seq<string>, order: seq<string>)
    requires NoDup(order)
    requires forall g :: g in column ==> g in order
    ensures OccurrenceTotal(column, order) == |column|
  {
    if column == [] {
      ZeroTotal(order);
    } else {
      assert column == [column[0]] + column[1..];
      OccurrenceTotalCons(column[0], column[1..], order);
      OccurrencesNoDup(order, column[0]);
      OccurrenceTotalCovers(column[1..], order);
    }
  }

  lemma {:induction false} ZeroTotal(order: seq<string>)
    ensures OccurrenceTotal([], order) == 0
  {
    if order != [] {
      ZeroTotal(order[1..]);
    }
  }

  // Facts about real division used by the ratio proofs.

  lemma DivUnit(a: real, b: real)
    requires 0.0 <= a <= b && b > 0.0
    ensures 0.0 <= a / b <= 1.0
  {
  }

  lemma DivMonotone(a: real, b: real, n: real)
    requires n > 0.0
    ensures a / n <= b / n <==> a <= b
  {
  }

  lemma DivIsOne(a: real, b: real)
    requires b > 0.0
    ensures a / b == 1.0 <==> a == b
  {
  }

  lemma DivIsZero(a: real, b: real)
    requires b > 0.0
    ensures a / b == 0.0 <==> a == 0.0
  {
  }

  lemma DivCancel(a: real, b: real, n: real)
    requires n > 0.0 && b > 0.0
    ensures (a / n) / (b / n) == a / b
  {
  }

  lemma DivAtMost(a: real, n: real, m: real)
    requires n > 0.0 && a <= n * m
    ensures a / n <= m
    ensures a >= 0.0 ==> a / n >= 0.0
  {
  }

  lemma MulMonotone(c: real, a: real, b: real)
    requires c >= 0.0 && a <= b
    ensures c * a <= c * b
  {
    assert c * b - c * a == c * (b - a);
  }

  lemma DivAdd(a: real, b: real, n: real)
    requires n > 0.0
    ensures a / n + b / n == (a + b) / n
  {
  }

  lemma DivByMean(s: real, n: real)
    requires n > 0.0 && s / n > 0.0
    ensures (s / (s / n)) / n == 1.0
  {
  }
}
