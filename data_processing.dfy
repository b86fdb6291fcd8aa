/**
 * Dataset helpers of scripts/data_processing.py: text normalisation
 * (preprocess_text) and group balancing by replication (balance_dataset).
 */
module DataProcessing {
  import opened Common

  // ---------------------------------------------------------------------------
  // preprocess_text: text.lower().strip()

  /**
   * The characters Python's str.strip() removes when called without
   * arguments (those for which str.isspace() holds): the ASCII controls
   * TAB..CR and FS..US, space, NEL, NO-BREAK SPACE and the Unicode
   * separators.
   */
  predicate IsSpace(c: char)
  {
    || '\t' <= c <= '\r'
    || '\U{1C}' <= c <= ' '
    || c == '\U{85}' || c == '\U{A0}' || c == '\U{1680}'
    || '\U{2000}' <= c <= '\U{200A}'
    || c == '\U{2028}' || c == '\U{2029}' || c == '\U{202F}' || c == '\U{205F}' || c == '\U{3000}'
  }

  predicate IsUpper(c: char)
  {
    'A' <= c <= 'Z'
  }

  /** Lower-casing of one character, over the ASCII letters. */
  function LowerChar(c: char): (d: char)
    ensures !IsUpper(d)
    ensures IsSpace(d) <==> IsSpace(c)
    ensures IsUpper(c) ==> d != c && d as int - c as int == 'a' as int - 'A' as int
    ensures !IsUpper(c) ==> d == c
  {
    if IsUpper(c) then (c as int - 'A' as int + 'a' as int) as char else c
  }

  /** str.lower(): every character lower-cased, the length kept. */
  function Lower(s: string): (t: string)
    ensures |t| == |s|
    ensures forall i :: 0 <= i < |t| ==> !IsUpper(t[i])
    ensures forall i :: 0 <= i < |t| ==> (IsSpace(t[i]) <==> IsSpace(s[i]))
    ensures forall i :: 0 <= i < |t| && !IsUpper(s[i]) ==> t[i] == s[i]
    ensures forall i :: 0 <= i < |t| && IsUpper(s[i]) ==> t[i] as int == s[i] as int + ('a' as int - 'A' as int)
  {
    seq(|s|, i requires 0 <= i < |s| => LowerChar(s[i]))
  }

  /** Every character of s[lo..hi] is whitespace. */
  predicate SpaceBetween(s: string, lo: nat, hi: nat)
    requires lo <= hi <= |s|
  {
    forall i :: lo <= i < hi ==> IsSpace(s[i])
  }

  predicate NoUpper(s: string)
  {
    forall i :: 0 <= i < |s| ==> !IsUpper(s[i])
  }

  /** Neither the first nor the last character is whitespace. */
  predicate Trimmed(s: string)
  {
    s != [] ==> !IsSpace(s[0]) && !IsSpace(s[|s| - 1])
  }

  /** str.lstrip(): the longest whitespace prefix removed. */
  function StripLeft(s: string): (t: string)
    ensures |t| <= |s| && t == s[|s| - |t|..]
    ensures SpaceBetween(s, 0, |s| - |t|)
    ensures t != [] ==> !IsSpace(t[0])
  {
    if s != [] && IsSpace(s[0]) then
      var t := StripLeft(s[1..]);
      assert forall i :: 1 <= i < |s| ==> s[i] == s[1..][i - 1];
      t
    else s
  }

  /** str.rstrip(): the longest whitespace suffix removed. */
  function StripRight(s: string): (t: string)
    ensures |t| <= |s| && t == s[..|t|]
    ensures SpaceBetween(s, |t|, |s|)
    ensures t != [] ==> !IsSpace(t[|t| - 1])
  {
    if s != [] && IsSpace(s[|s| - 1]) then
      var t := StripRight(s[..|s| - 1]);
      assert forall i :: 0 <= i < |s| - 1 ==> s[i] == s[..|s| - 1][i];
      t
    else s
  }

  /** `t` is s[lo..lo + |t|], and everything of `s` outside that slice is whitespace. */
  predicate StrippedAt(s: string, t: string, lo: nat)
  {
    && lo + |t| <= |s|
    && t == s[lo..lo + |t|]
    && SpaceBetween(s, 0, lo)
    && SpaceBetween(s, lo + |t|, |s|)
  }

  /** str.strip(): whitespace removed at both ends, nothing else. */
  function Strip(s: string): (t: string)
    ensures Trimmed(t)
    ensures exists lo: nat :: lo <= |s| && StrippedAt(s, t, lo)
  {
    StripBothEnds(s);
    StripRight(StripLeft(s))
  }

  lemma StripBothEnds(s: string)
    ensures StrippedAt(s, StripRight(StripLeft(s)), |s| - |StripLeft(s)|)
  {
    var l := StripLeft(s);
    StrippedCompose(s, l, StripRight(l), |s| - |l|);
  }

  /** Cutting whitespace off the front of s, then off the back of what is left. */
  lemma StrippedCompose(s: string, l: string, t: string, lo: nat)
    requires lo <= |s| && l == s[lo..] && |t| <= |l| && t == l[..|t|]
    requires SpaceBetween(s, 0, lo) && SpaceBetween(l, |t|, |l|)
    ensures StrippedAt(s, t, lo)
  {
    assert s[lo..][..|t|] == s[lo..lo + |t|];
    forall i | lo + |t| <= i < |s| ensures IsSpace(s[i]) {
      assert s[i] == l[i - lo];
    }
  }

  /** Stripping removes characters and changes none, so it introduces no upper-case letter. */
  lemma StripNoUpper(s: string)
    requires NoUpper(s)
    ensures NoUpper(Strip(s))
  {
    StripBothEnds(s);
    SliceNoUpper(s, Strip(s), |s| - |StripLeft(s)|);
  }

  lemma SliceNoUpper(s: string, t: string, lo: nat)
    requires lo + |t| <= |s| && t == s[lo..lo + |t|] && NoUpper(s)
    ensures NoUpper(t)
  {
    assert forall i :: 0 <= i < |t| ==> t[i] == s[lo + i];
  }

  /** preprocess_text: lower-case, then strip. */
  function PreprocessText(text: string): (r: string)
    ensures NoUpper(r)
    ensures Trimmed(r)
    ensures exists lo: nat :: lo <= |text| && StrippedAt(Lower(text), r, lo)
  {
    StripNoUpper(Lower(text));
    Strip(Lower(text))
  }

  /** Lower-casing a string without upper-case letters changes nothing. */
  lemma LowerNoUpper(s: string)
    requires NoUpper(s)
    ensures Lower(s) == s
  {
  }

  /** A string is its own strip exactly when it is already trimmed. */
  lemma StripFixed(s: string)
    ensures Strip(s) == s <==> Trimmed(s)
  {
    if Trimmed(s) {
      StripLeftTrimmed(s);
      StripRightTrimmed(s);
    }
  }

  lemma StripLeftTrimmed(s: string)
    requires s == [] || !IsSpace(s[0])
    ensures StripLeft(s) == s
  {
  }

  lemma StripRightTrimmed(s: string)
    requires s == [] || !IsSpace(s[|s| - 1])
    ensures StripRight(s) == s
  {
  }

  /** Normalising an already normalised text changes nothing. */
  lemma PreprocessIdempotent(text: string)
    ensures PreprocessText(PreprocessText(text)) == PreprocessText(text)
  {
    var p := PreprocessText(text);
    LowerNoUpper(p);
    StripFixed(p);
  }

  /** Only surrounding whitespace is lost: a text without any keeps its length. */
  lemma PreprocessKeepsInnerText(text: string)
    requires text == [] || (!IsSpace(text[0]) && !IsSpace(text[|text| - 1]))
    ensures PreprocessText(text) == Lower(text)
  {
    StripFixed(Lower(text));
  }

  // ---------------------------------------------------------------------------
  // balance_dataset

  /** One row of the data frame: its value in the group column and the remaining cells. */
  datatype Row = Row(group: string, cells: seq<string>)

  /** The group column, df[group_col]. */
  function GroupColumn(rows: seq<Row>): (column: seq<string>)
    ensures |column| == |rows|
    ensures forall i :: 0 <= i < |rows| ==> column[i] == rows[i].group
  {
    if rows == [] then [] else [rows[0].group] + GroupColumn(rows[1..])
  }

  /** df[df[group_col] == g]: the rows of group g, in their original order. */
  function Filter(rows: seq<Row>, g: string): seq<Row>
  {
    if rows == [] then []
    else (if rows[0].group == g then [rows[0]] else []) + Filter(rows[1..], g)
  }

  /** The group's frame has as many rows as the group column has entries g. */
  lemma {:induction false} FilterSize(rows: seq<Row>, g: string)
    ensures |Filter(rows, g)| == Occurrences(GroupColumn(rows), g)
  {
    if rows != [] {
      FilterSize(rows[1..], g);
    }
  }

  /** The group's frame holds rows of the input, all of group g. */
  lemma {:induction false} FilterMembers(rows: seq<Row>, g: string)
    ensures forall r :: r in Filter(rows, g) ==> r.group == g && r in rows
  {
    if rows != [] {
      FilterMembers(rows[1..], g);
    }
  }

  /** pd.concat([s] * k): k copies of s one after the other. */
  function Repeat(s: seq<Row>, k: nat): seq<Row>
  {
    if k == 0 then [] else s + Repeat(s, k - 1)
  }

  lemma {:induction false} RepeatLength(s: seq<Row>, k: nat)
    ensures |Repeat(s, k)| == k * |s|
  {
    if k > 0 {
      RepeatLength(s, k - 1);
      assert k * |s| == (k - 1) * |s| + |s|;
    }
  }

  /** Copies hold only rows of the original. */
  lemma {:induction false} RepeatMembers(s: seq<Row>, k: nat)
    ensures forall x :: x in Repeat(s, k) ==> x in s
  {
    if k > 0 {
      RepeatMembers(s, k - 1);
    }
  }

  /** counts.max(): the size of the largest group (0 when there are none). */
  function MaxCount(rows: seq<Row>, order: seq<string>): (m: nat)
    ensures forall i :: 0 <= i < |order| ==> |Filter(rows, order[i])| <= m
  {
    if order == [] then 0
    else
      var rest := MaxCount(rows, order[1..]);
      var n := |Filter(rows, order[0])|;
      assert forall i :: 1 <= i < |order| ==> order[i] == order[1..][i - 1];
      if n > rest then n else rest
  }

  /** The maximum is the size of one of the groups. */
  lemma {:induction false} MaxCountAttained(rows: seq<Row>, order: seq<string>)
    requires order != []
    ensures exists i :: 0 <= i < |order| && |Filter(rows, order[i])| == MaxCount(rows, order)
  {
    assert order[1..] == [] ==> MaxCount(rows, order[1..]) == 0;
    if |Filter(rows, order[0])| < MaxCount(rows, order) {
      MaxCountAttained(rows, order[1..]);
      var j :| 0 <= j < |order[1..]| && |Filter(rows, order[1..][j])| == MaxCount(rows, order[1..]);
      assert order[1..][j] == order[j + 1];
    }
  }

  /** Every group of `order` occurs in the rows, and no group is listed twice. */
  predicate Listed(rows: seq<Row>, order: seq<string>)
  {
    NoDup(order) && forall g :: g in order ==> g in GroupColumn(rows)
  }

  /** max_count // len(group_df): how many copies of a group of n rows are made. */
  function Copies(maxCount: nat, n: nat): nat
    requires n > 0
  {
    maxCount / n
  }

  /** The group's rows repeated max_count // len(group_df) times. */
  function Block(rows: seq<Row>, g: string, maxCount: nat): seq<Row>
    requires g in GroupColumn(rows)
  {
    FilterSize(rows, g);
    var groupRows := Filter(rows, g);
    Repeat(groupRows, Copies(maxCount, |groupRows|))
  }

  /** The blocks of the groups of `order`, concatenated in that order. */
  function Balanced(rows: seq<Row>, order: seq<string>, maxCount: nat): seq<Row>
    requires Listed(rows, order)
  {
    if order == [] then []
    else
      ListedPrefix(rows, order);
      Balanced(rows, order[..|order| - 1], maxCount) + Block(rows, order[|order| - 1], maxCount)
  }

  lemma ListedPrefix(rows: seq<Row>, order: seq<string>)
    requires Listed(rows, order) && order != []
    ensures Listed(rows, order[..|order| - 1])
    ensures order[|order| - 1] !in order[..|order| - 1]
  {
    var k := |order| - 1;
    ListedSlice(rows, order, k);
  }

  /** pd.concat(df_list): the frames of the list one after the other. */
  function Concat(frames: seq<seq<Row>>): seq<Row>
  {
    if frames == [] then [] else Concat(frames[..|frames| - 1]) + frames[|frames| - 1]
  }

  /**
   * balance_dataset: one block per group in group order, then one
   * concatenation; an empty data frame has no groups, and concatenating the
   * empty list of blocks raises, which is the None result.
   */
  method BalanceDataset(rows: seq<Row>, order: seq<string>) returns (out: Option<seq<Row>>)
    requires Enumerates(order, GroupColumn(rows))
    ensures rows == [] <==> out == None
    ensures out != None ==> out.value == Balanced(rows, order, MaxCount(rows, order))
  {
    EnumeratesEmpty(order, GroupColumn(rows));
    var maxCount := MaxCount(rows, order);
    var frames: seq<seq<Row>> := [];
    for i := 0 to |order|
      invariant |frames| == i
      invariant Concat(frames) == Balanced(rows, order[..i], maxCount)
    {
      BalancedStep(rows, order, i, maxCount);
      var groupRows := Filter(rows, order[i]);
      var repeats := Copies(maxCount, |groupRows|);
      frames := frames + [Repeat(groupRows, repeats)];
      assert frames[..i] == frames[..|frames| - 1];
    }
    assert order[..|order|] == order;
    if frames == [] {
      return None;
    }
    return Some(Concat(frames));
  }

  /** Every prefix of a listing is a listing. */
  lemma ListedSlice(rows: seq<Row>, order: seq<string>, i: nat)
    requires Listed(rows, order) && i <= |order|
    ensures Listed(rows, order[..i])
  {
    forall a, b | 0 <= a < b < i ensures order[..i][a] != order[..i][b] {
      assert order[..i][a] == order[a] && order[..i][b] == order[b];
    }
    forall g | g in order[..i] ensures g in GroupColumn(rows) {
      var a :| 0 <= a < i && order[..i][a] == g;
      assert order[a] == g;
    }
  }

  /** One more group of the listing adds that group's block at the end. */
  lemma BalancedStep(rows: seq<Row>, order: seq<string>, i: nat, maxCount: nat)
    requires Enumerates(order, GroupColumn(rows)) && i < |order|
    ensures Listed(rows, order[..i]) && Listed(rows, order[..i + 1])
    ensures order[i] in GroupColumn(rows) && |Filter(rows, order[i])| > 0
    ensures Balanced(rows, order[..i + 1], maxCount) == Balanced(rows, order[..i], maxCount) + Block(rows, order[i], maxCount)
  {
    ListedSlice(rows, order, i);
    ListedSlice(rows, order, i + 1);
    assert order[..i + 1][..i] == order[..i];
    FilterSize(rows, order[i]);
  }

  // Properties of the balanced data frame.

  lemma {:induction false} FilterConcat(a: seq<Row>, b: seq<Row>, g: string)
    ensures Filter(a + b, g) == Filter(a, g) + Filter(b, g)
  {
    if a == [] {
      assert a + b == b;
    } else {
      assert (a + b)[1..] == a[1..] + b;
      FilterConcat(a[1..], b, g);
    }
  }

  lemma {:induction false} FilterRepeat(s: seq<Row>, k: nat, g: string)
    ensures Filter(Repeat(s, k), g) == Repeat(Filter(s, g), k)
  {
    if k > 0 {
      FilterConcat(s, Repeat(s, k - 1), g);
      FilterRepeat(s, k - 1, g);
    }
  }

  /** Filtering the rows of group h by group g keeps them all when g == h and none otherwise. */
  lemma {:induction false} FilterFilter(rows: seq<Row>, h: string, g: string)
    ensures Filter(Filter(rows, h), g) == if g == h then Filter(rows, h) else []
  {
    if rows != [] {
      var head: seq<Row> := if rows[0].group == h then [rows[0]] else [];
      FilterConcat(head, Filter(rows[1..], h), g);
      FilterFilter(rows[1..], h, g);
      assert Filter(head, g) == (if head != [] && rows[0].group == g then head else []) by {
        if head != [] {
          assert head[1..] == [];
        }
      }
    }
  }

  lemma {:induction false} RepeatEmpty(k: nat)
    ensures Repeat([], k) == []
  {
    if k > 0 {
      RepeatEmpty(k - 1);
    }
  }

  /**
   * In the balanced frame, the rows of a listed group are that group's
   * input rows repeated max_count // n times; no other group appears.
   */
  lemma {:induction false} FilterBalanced(rows: seq<Row>, order: seq<string>, maxCount: nat, g: string)
    requires Listed(rows, order)
    ensures g in order ==> Filter(Balanced(rows, order, maxCount), g) == Block(rows, g, maxCount)
    ensures g !in order ==> Filter(Balanced(rows, order, maxCount), g) == []
    decreases |order|
  {
    if order != [] {
      ListedPrefix(rows, order);
      var k := |order| - 1;
      var last := order[k];
      var prefix := Balanced(rows, order[..k], maxCount);
      var block := Block(rows, last, maxCount);
      FilterBalanced(rows, order[..k], maxCount, g);
      FilterConcat(prefix, block, g);
      FilterBlock(rows, last, maxCount, g);
      InPrefixOrLast(order, g);
      assert Filter(Balanced(rows, order, maxCount), g) == Filter(prefix, g) + Filter(block, g);
    }
  }

  lemma InPrefixOrLast(order: seq<string>, g: string)
    requires order != []
    ensures g in order <==> g in order[..|order| - 1] || g == order[|order| - 1]
  {
    assert order == order[..|order| - 1] + [order[|order| - 1]];
  }

  /** A group's block holds rows of that group only. */
  lemma FilterBlock(rows: seq<Row>, h: string, maxCount: nat, g: string)
    requires h in GroupColumn(rows)
    ensures Filter(Block(rows, h, maxCount), g) == if g == h then Block(rows, h, maxCount) else []
  {
    FilterSize(rows, h);
    var groupRows := Filter(rows, h);
    FilterRepeat(groupRows, Copies(maxCount, |groupRows|), g);
    FilterFilter(rows, h, g);
    RepeatEmpty(Copies(maxCount, |groupRows|));
  }

  /** A group of n input rows appears (max_count // n) * n times. */
  lemma BalancedGroupCount(rows: seq<Row>, order: seq<string>, g: string)
    requires Enumerates(order, GroupColumn(rows))
    requires g in order
    ensures var n := |Filter(rows, g)|;
      n > 0 && |Filter(Balanced(rows, order, MaxCount(rows, order)), g)| == Copies(MaxCount(rows, order), n) * n
  {
    FilterSize(rows, g);
    FilterBalanced(rows, order, MaxCount(rows, order), g);
    RepeatLength(Filter(rows, g), Copies(MaxCount(rows, order), |Filter(rows, g)|));
  }

  /** With 0 < n <= m, the largest multiple of n not above m is at least n and within n of m. */
  lemma MultipleBounds(m: nat, n: nat)
    requires 0 < n <= m
    ensures n <= Copies(m, n) * n <= m
    ensures Copies(m, n) * n > m - n
  {
    assert m == (m / n) * n + m % n;
    assert m / n >= 1;
  }

  /**
   * Each group's output count is between its input size and max_count, and
   * less than one copy of the group short of max_count.
   */
  lemma BalancedGroupBounds(rows: seq<Row>, order: seq<string>, g: string)
    requires Enumerates(order, GroupColumn(rows))
    requires g in order
    ensures var n, m := |Filter(rows, g)|, MaxCount(rows, order);
      var count := |Filter(Balanced(rows, order, m), g)|;
      0 < n <= count <= m && count > m - n
  {
    var i :| 0 <= i < |order| && order[i] == g;
    FilterSize(rows, g);
    BalancedGroupCount(rows, order, g);
    MultipleBounds(MaxCount(rows, order), |Filter(rows, g)|);
  }

  /** A largest group is copied exactly once. */
  lemma LargestGroupOnce(rows: seq<Row>, order: seq<string>, g: string)
    requires Enumerates(order, GroupColumn(rows))
    requires g in order && |Filter(rows, g)| == MaxCount(rows, order)
    ensures Filter(Balanced(rows, order, MaxCount(rows, order)), g) == Filter(rows, g)
  {
    FilterSize(rows, g);
    FilterBalanced(rows, order, MaxCount(rows, order), g);
    var n := |Filter(rows, g)|;
    assert Copies(n, n) == 1;
    assert Repeat(Filter(rows, g), 1) == Filter(rows, g) + [];
  }

  /** Every row of the balanced frame is a row of the input. */
  lemma {:induction false} BalancedRowsFromInput(rows: seq<Row>, order: seq<string>, maxCount: nat)
    requires Listed(rows, order)
    ensures forall r :: r in Balanced(rows, order, maxCount) ==> r in rows
    decreases |order|
  {
    if order != [] {
      ListedPrefix(rows, order);
      BalancedRowsFromInput(rows, order[..|order| - 1], maxCount);
      var groupRows := Filter(rows, order[|order| - 1]);
      FilterMembers(rows, order[|order| - 1]);
      FilterSize(rows, order[|order| - 1]);
      RepeatMembers(groupRows, Copies(maxCount, |groupRows|));
    }
  }

  /** The balanced frame has exactly the groups of the input: each listed group, nothing else. */
  lemma BalancedKeepsGroups(rows: seq<Row>, order: seq<string>)
    requires Enumerates(order, GroupColumn(rows))
    ensures Enumerates(order, GroupColumn(Balanced(rows, order, MaxCount(rows, order))))
  {
    var out := Balanced(rows, order, MaxCount(rows, order));
    forall g | g in order ensures g in GroupColumn(out) {
      BalancedGroupBounds(rows, order, g);
      FilterSize(out, g);
    }
    forall g | g in GroupColumn(out) ensures g in order {
      FilterBalanced(rows, order, MaxCount(rows, order), g);
      FilterSize(out, g);
    }
  }
}
