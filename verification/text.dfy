/**
 * Substring search and Rust's `str::replace`, the only string operations
 * the rendering code relies on.
 */
module Text {

  /** `s` begins with `pat`. */
  predicate StartsWith(s: string, pat: string) {
    |pat| <= |s| && s[..|pat|] == pat
  }

  /** `pat` occurs in `s` starting at index `i`. */
  predicate OccursAt(s: string, pat: string, i: nat) {
    i + |pat| <= |s| && s[i..i + |pat|] == pat
  }

  /** `pat` occurs somewhere in `s`; the empty pattern occurs everywhere. */
  predicate Contains(s: string, pat: string)
    decreases |s|
  {
    StartsWith(s, pat) || (|s| > 0 && Contains(s[1..], pat))
  }

  /**
   * `s.replace(pat, rep)`: scan left to right, replacing every
   * non-overlapping occurrence of `pat` by `rep`; the replacement text is
   * never rescanned. An empty pattern matches at every character boundary,
   * so `rep` is inserted before each character and once at the end.
   */
  function Replace(s: string, pat: string, rep: string): (r: string)
    decreases |s|
  {
    if |pat| == 0 then
      if |s| == 0 then rep else rep + [s[0]] + Replace(s[1..], pat, rep)
    else if StartsWith(s, pat) then
      rep + Replace(s[|pat|..], pat, rep)
    else if |s| == 0 then
      s
    else
      [s[0]] + Replace(s[1..], pat, rep)
  }

  /** Where the pattern never occurs, replacing changes nothing. */
  lemma {:induction false} ReplaceAbsent(s: string, pat: string, rep: string)
    requires !Contains(s, pat)
    ensures Replace(s, pat, rep) == s
    decreases |s|
  {
    if |s| > 0 {
      ReplaceAbsent(s[1..], pat, rep);
    }
  }

  /**
   * Replacing never grows a string when the replacement is no longer than
   * the pattern, never shrinks it when it is no shorter, and strictly does
   * either when a match exists.
   */
  lemma {:induction false} ReplaceLength(s: string, pat: string, rep: string)
    requires |pat| > 0
    ensures |rep| <= |pat| ==> |Replace(s, pat, rep)| <= |s|
    ensures |rep| >= |pat| ==> |Replace(s, pat, rep)| >= |s|
    ensures Contains(s, pat) && |rep| < |pat| ==> |Replace(s, pat, rep)| < |s|
    ensures Contains(s, pat) && |rep| > |pat| ==> |Replace(s, pat, rep)| > |s|
    decreases |s|
  {
    if StartsWith(s, pat) {
      ReplaceLength(s[|pat|..], pat, rep);
    } else if |s| > 0 {
      ReplaceLength(s[1..], pat, rep);
    }
  }

  /** Where the pattern occurs, replacing it by anything else changes the string. */
  lemma {:induction false} ReplaceChanges(s: string, pat: string, rep: string)
    requires |pat| > 0 && rep != pat && Contains(s, pat)
    ensures Replace(s, pat, rep) != s
    decreases |s|
  {
    if |rep| != |pat| {
      ReplaceLength(s, pat, rep);
    } else if StartsWith(s, pat) {
      var r := Replace(s, pat, rep);
      assert r[..|pat|] == rep;
      assert s[..|pat|] == pat;
    } else {
      ReplaceChanges(s[1..], pat, rep);
      assert Replace(s, pat, rep)[1..] == Replace(s[1..], pat, rep);
    }
  }

  /**
   * For a replacement that differs from the pattern, the string is left
   * unchanged exactly when the pattern does not occur in it.
   */
  lemma ReplaceIdentityIff(s: string, pat: string, rep: string)
    requires |pat| > 0 && rep != pat
    ensures Replace(s, pat, rep) == s <==> !Contains(s, pat)
  {
    if Contains(s, pat) {
      ReplaceChanges(s, pat, rep);
    } else {
      ReplaceAbsent(s, pat, rep);
    }
  }

  /** The recursive search agrees with "some index where `pat` sits". */
  lemma {:induction false} ContainsIffOccursAt(s: string, pat: string)
    ensures Contains(s, pat) <==> exists i: nat :: OccursAt(s, pat, i)
    decreases |s|
  {
    if StartsWith(s, pat) {
      assert OccursAt(s, pat, 0);
    } else if |s| > 0 {
      ContainsIffOccursAt(s[1..], pat);
      if Contains(s[1..], pat) {
        var i: nat :| OccursAt(s[1..], pat, i);
        assert s[1..][i..i + |pat|] == s[i + 1..i + 1 + |pat|];
        assert OccursAt(s, pat, i + 1);
      }
      if exists i: nat :: OccursAt(s, pat, i) {
        var i: nat :| OccursAt(s, pat, i);
        assert i != 0;
        assert s[1..][i - 1..i - 1 + |pat|] == s[i..i + |pat|];
        assert OccursAt(s[1..], pat, i - 1);
      }
    }
  }

  /** A match at the very front is replaced and the scan resumes after it. */
  lemma ReplaceFront(pat: string, s: string, rep: string)
    requires |pat| > 0
    ensures Replace(pat + s, pat, rep) == rep + Replace(s, pat, rep)
  {
  }

  /**
   * A match sitting between two strings is replaced on its own, provided the
   * pattern's first character does not recur in it (so no match can begin
   * in `before` and run into this one).
   */
  lemma ReplaceAround(before: string, pat: string, after: string, rep: string)
    requires |pat| > 0 && pat[0] !in pat[1..]
    ensures Replace(before + pat + after, pat, rep)
            == Replace(before, pat, rep) + (rep + Replace(after, pat, rep))
  {
    ReplaceFront(pat, after, rep);
    ReplaceConcat(before, pat + after, pat, rep);
    assert before + pat + after == before + (pat + after);
  }

  /**
   * A prefix holding no copy of the pattern's first character cannot start
   * a match, so it passes through unchanged.
   */
  lemma {:induction false} ReplaceSkipsPrefix(a: string, b: string, pat: string, rep: string)
    requires |pat| > 0 && pat[0] !in a
    ensures Replace(a + b, pat, rep) == a + Replace(b, pat, rep)
    decreases |a|
  {
    if |a| > 0 {
      var s := a + b;
      assert s[0] == a[0];
      if |pat| <= |s| {
        assert s[..|pat|][0] == a[0];
      }
      assert s[1..] == a[1..] + b;
      ReplaceSkipsPrefix(a[1..], b, pat, rep);
    } else {
      assert a + b == b;
    }
  }

  /** A match cannot begin in a short first part and end in the second. */
  lemma NoStraddle(a: string, b: string, pat: string)
    requires 0 < |a| < |pat|
    requires |b| > 0 ==> b[0] !in pat[1..]
    ensures !StartsWith(a + b, pat)
  {
    if |pat| <= |a + b| {
      assert (a + b)[..|pat|][|a|] == b[0];
      assert pat[1..][|a| - 1] == pat[|a|];
    }
  }

  /**
   * Replacing in a concatenation is replacing in each part when no match
   * can straddle the seam: the second part must not begin with a character
   * found past the pattern's first position.
   */
  lemma {:induction false} ReplaceConcat(a: string, b: string, pat: string, rep: string)
    requires |pat| > 0
    requires |b| > 0 ==> b[0] !in pat[1..]
    ensures Replace(a + b, pat, rep) == Replace(a, pat, rep) + Replace(b, pat, rep)
    decreases |a|
  {
    var s := a + b;
    if |a| == 0 {
      assert s == b;
    } else if |pat| <= |a| && StartsWith(a, pat) {
      assert a[..|pat|] == s[..|pat|];
      assert s[|pat|..] == a[|pat|..] + b;
      ReplaceConcat(a[|pat|..], b, pat, rep);
    } else {
      if |a| < |pat| {
        NoStraddle(a, b, pat);
      } else {
        assert s[..|pat|] == a[..|pat|];
      }
      assert s[1..] == a[1..] + b;
      ReplaceConcat(a[1..], b, pat, rep);
    }
  }
}
