/**
 * Python's `str.replace` over `string` (a sequence of characters), with its
 * left-to-right, non-overlapping, case-sensitive matching, and `str.count` as
 * the number of occurrences it rewrites.
 */
module PyStrings {

  /**
   * s.replace(pat, rep): every non-overlapping occurrence of pat, scanning
   * left to right, is replaced by rep. An empty pattern matches before every
   * character and at the end ("ab".replace("", "-") is "-a-b-").
   */
  function Replace(s: string, pat: string, rep: string): string
    decreases |s|
  {
    if pat == [] then InsertEverywhere(s, rep)
    else if |s| < |pat| then s
    else if s[..|pat|] == pat then rep + Replace(s[|pat|..], pat, rep)
    else [s[0]] + Replace(s[1..], pat, rep)
  }

  /** rep before every character of s and once more at the end. */
  function InsertEverywhere(s: string, rep: string): string
  {
    if s == [] then rep else rep + [s[0]] + InsertEverywhere(s[1..], rep)
  }

  /** s.count(pat): the number of occurrences Replace rewrites. */
  function Count(s: string, pat: string): nat
    decreases |s|
  {
    if pat == [] then |s| + 1
    else if |s| < |pat| then 0
    else if s[..|pat|] == pat then 1 + Count(s[|pat|..], pat)
    else Count(s[1..], pat)
  }

  /** pat occurs in s starting at index i. */
  predicate OccursAt(s: string, pat: string, i: nat)
  {
    i + |pat| <= |s| && s[i..i + |pat|] == pat
  }

  /** pat is a substring of s (Python's `pat in s`). */
  predicate Occurs(s: string, pat: string)
  {
    exists i: nat :: i <= |s| && OccursAt(s, pat, i)
  }

  /** Each replaced occurrence changes the length by |rep| - |pat|. */
  lemma {:induction false} ReplaceLength(s: string, pat: string, rep: string)
    ensures |Replace(s, pat, rep)| == |s| + Count(s, pat) * (|rep| - |pat|)
    decreases |s|
  {
    if pat == [] {
      InsertEverywhereLength(s, rep);
    } else if |s| < |pat| {
    } else if s[..|pat|] == pat {
      ReplaceLength(s[|pat|..], pat, rep);
      MulStep(Count(s[|pat|..], pat), |rep| - |pat|);
    } else {
      ReplaceLength(s[1..], pat, rep);
    }
  }

  lemma {:induction false} InsertEverywhereLength(s: string, rep: string)
    ensures |InsertEverywhere(s, rep)| == |s| + (|s| + 1) * |rep|
  {
    if s != [] {
      InsertEverywhereLength(s[1..], rep);
      MulStep(|s|, |rep|);
    }
  }

  lemma MulStep(c: int, d: int)
    ensures (1 + c) * d == d + c * d
  {
  }

  /** Occurrences in s after its first character are the occurrences in its tail, shifted by one. */
  lemma OccursShift(s: string, pat: string, i: nat)
    requires s != []
    ensures OccursAt(s, pat, i + 1) <==> OccursAt(s[1..], pat, i)
  {
    if i + 1 + |pat| <= |s| {
      assert s[1..][i..i + |pat|] == s[i + 1..i + 1 + |pat|];
    }
  }

  /** Without an occurrence at the front, pat occurs in s exactly when it occurs in the tail. */
  lemma OccursTail(s: string, pat: string)
    requires s != [] && !OccursAt(s, pat, 0)
    ensures Occurs(s, pat) <==> Occurs(s[1..], pat)
  {
    if Occurs(s, pat) {
      var i: nat :| OccursAt(s, pat, i);
      assert i != 0;
      OccursShift(s, pat, i - 1);
    }
    if Occurs(s[1..], pat) {
      var i: nat :| OccursAt(s[1..], pat, i);
      OccursShift(s, pat, i);
    }
  }

  /** The count is zero exactly when the pattern does not occur. */
  lemma {:induction false} CountZeroIffAbsent(s: string, pat: string)
    ensures Count(s, pat) == 0 <==> !Occurs(s, pat)
    decreases |s|
  {
    if pat == [] {
      assert OccursAt(s, pat, 0);
    } else if |s| < |pat| {
      assert forall i: nat :: !OccursAt(s, pat, i);
    } else if s[..|pat|] == pat {
      assert OccursAt(s, pat, 0);
    } else {
      CountZeroIffAbsent(s[1..], pat);
      OccursTail(s, pat);
    }
  }

  /** Replacing a pattern that does not occur leaves the string unchanged. */
  lemma {:induction false} ReplaceAbsent(s: string, pat: string, rep: string)
    requires !Occurs(s, pat)
    ensures Replace(s, pat, rep) == s
    decreases |s|
  {
    assert !OccursAt(s, pat, 0);
    if |s| >= |pat| {
      OccursTail(s, pat);
      ReplaceAbsent(s[1..], pat, rep);
      assert [s[0]] + s[1..] == s;
    }
  }

  /** Replacing a pattern with itself is the identity. */
  lemma {:induction false} ReplaceSelf(s: string, pat: string)
    ensures Replace(s, pat, pat) == s
    decreases |s|
  {
    if pat == [] {
      InsertNothing(s);
    } else if |s| < |pat| {
    } else if s[..|pat|] == pat {
      ReplaceSelf(s[|pat|..], pat);
      assert s[..|pat|] + s[|pat|..] == s;
    } else {
      ReplaceSelf(s[1..], pat);
      assert [s[0]] + s[1..] == s;
    }
  }

  lemma {:induction false} InsertNothing(s: string)
    ensures InsertEverywhere(s, "") == s
  {
    if s != [] {
      InsertNothing(s[1..]);
      assert [s[0]] + s[1..] == s;
    }
  }

  /**
   * Left-to-right matching: when the first occurrence of a non-empty pattern
   * in `pre + post` starts right after `pre`, `pre` is kept, that occurrence
   * is replaced, and scanning resumes after it (so an occurrence overlapping
   * it is not replaced); that occurrence is counted once.
   */
  lemma {:induction false} ReplaceAtFirstOccurrence(pre: string, post: string, pat: string, rep: string)
    requires pat != [] && OccursAt(post, pat, 0)
    requires forall j: nat :: j < |pre| ==> !OccursAt(pre + post, pat, j)
    ensures Replace(pre + post, pat, rep) == pre + rep + Replace(post[|pat|..], pat, rep)
    ensures Count(pre + post, pat) == 1 + Count(post[|pat|..], pat)
  {
    if pre == [] {
      assert pre + post == post && post[..|pat|] == pat;
    } else {
      var tail := pre[1..] + post;
      assert (pre + post)[1..] == tail;
      forall j: nat | j < |pre[1..]|
        ensures !OccursAt(tail, pat, j)
      {
        OccursShift(pre + post, pat, j);
      }
      ReplaceAtFirstOccurrence(pre[1..], post, pat, rep);
      assert !OccursAt(pre + post, pat, 0);
      ReplaceSkip(pre + post, pat, rep);
      Glue(pre, Replace(tail, pat, rep), rep, Replace(post[|pat|..], pat, rep));
    }
  }

  /** Putting the first character of `pre` back in front of the tail's split result. */
  lemma Glue(pre: string, tail: string, rep: string, after: string)
    requires pre != [] && tail == pre[1..] + rep + after
    ensures [pre[0]] + tail == pre + rep + after
  {
  }

  /** Without a match at the front, the first character is copied and not counted. */
  lemma ReplaceSkip(s: string, pat: string, rep: string)
    requires pat != [] && |s| >= |pat| && !OccursAt(s, pat, 0)
    ensures Replace(s, pat, rep) == [s[0]] + Replace(s[1..], pat, rep)
    ensures Count(s, pat) == Count(s[1..], pat)
  {
    assert s[..|pat|] != pat;
  }

  /** Matches do not overlap: in "aaa" only the first "aa" is replaced and counted. */
  lemma NonOverlapping()
    ensures Replace("aaa", "aa", "b") == "ba"
    ensures Count("aaa", "aa") == 1
  {
    assert "aaa"[..2] == "aa";
    assert "aaa"[2..] == "a";
  }

  /**
   * Matching is by substring, not by word, and is case-sensitive: the
   * capitalised pronoun is kept while the "he" inside "the" is rewritten.
   */
  lemma ReplaceInsideWords()
    ensures Replace("He the", "he", "she") == "He tshe"
  {
    assert "he"[..2] == "he" && "he"[2..] == "";
    assert Replace("he", "he", "she") == "she";
    assert "the"[..2] != "he" && "the"[1..] == "he";
    assert Replace("the", "he", "she") == "tshe";
    assert " the"[..2] != "he" && " the"[1..] == "the";
    assert Replace(" the", "he", "she") == " tshe";
    assert "e the"[..2] != "he" && "e the"[1..] == " the";
    assert Replace("e the", "he", "she") == "e tshe";
    assert "He the"[..2] != "he" && "He the"[1..] == "e the";
  }
}
