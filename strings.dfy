/** Substring occurrence and Python's `str.replace`, with the facts about them
    that the defang transform relies on. */
module Strings {

  /** `pat` occurs in `t` starting at index `i`. */
  predicate OccursAt(t: string, pat: string, i: nat)
  {
    i + |pat| <= |t| && t[i..i + |pat|] == pat
  }

  /** `pat` is a substring of `t` (Python's `pat in t`). */
  predicate Contains(t: string, pat: string)
  {
    exists i: nat :: i <= |t| && OccursAt(t, pat, i)
  }

  /** Python's `s.replace(pat, rep)` for a non-empty `pat`: scan left to right,
      replace each occurrence and resume the scan just past it, so that
      occurrences never overlap. */
  function Replace(s: string, pat: string, rep: string): string
    requires |pat| > 0
    decreases |s|
  {
    if |s| < |pat| then s
    else if s[..|pat|] == pat then rep + Replace(s[|pat|..], pat, rep)
    else [s[0]] + Replace(s[1..], pat, rep)
  }

  /** An occurrence in `a + b` that starts at or after `a` is an occurrence in `b`. */
  lemma OccursAfterPrefix(a: string, b: string, pat: string, i: nat)
    requires i >= |a|
    ensures OccursAt(a + b, pat, i) <==> OccursAt(b, pat, i - |a|)
  {
    if i + |pat| <= |a + b| {
      assert (a + b)[i..i + |pat|] == b[i - |a|..i - |a| + |pat|];
    }
  }

  /** An occurrence in a suffix of `s` is an occurrence in `s`. */
  lemma OccursInSuffix(s: string, k: nat, pat: string, j: nat)
    requires k <= |s| && OccursAt(s[k..], pat, j)
    ensures OccursAt(s, pat, k + j)
  {
    assert s[k..][j..j + |pat|] == s[k + j..k + j + |pat|];
  }

  /** A pattern whose first character is missing from `t` does not occur in it. */
  lemma FirstCharAbsent(t: string, pat: string)
    requires |pat| > 0 && pat[0] !in t
    ensures !Contains(t, pat)
  {
  }

  /** Replacing a pattern that does not occur returns the string unchanged. */
  lemma {:induction false} ReplaceAbsent(s: string, pat: string, rep: string)
    requires |pat| > 0 && !Contains(s, pat)
    ensures Replace(s, pat, rep) == s
    decreases |s|
  {
    if |s| >= |pat| {
      assert !OccursAt(s, pat, 0);
      assert s[..|pat|] != pat;
      if Contains(s[1..], pat) {
        var j: nat :| OccursAt(s[1..], pat, j);
        OccursInSuffix(s, 1, pat, j);
      }
      ReplaceAbsent(s[1..], pat, rep);
      assert s == [s[0]] + s[1..];
    }
  }

  /** A pattern at the front is replaced and the scan resumes after it. */
  lemma ReplaceAtFront(b: string, pat: string, rep: string)
    requires |pat| > 0
    ensures Replace(pat + b, pat, rep) == rep + Replace(b, pat, rep)
  {
    assert (pat + b)[..|pat|] == pat;
    assert (pat + b)[|pat|..] == b;
  }

  /** A prefix without the pattern's first character is copied unchanged,
      and the scan goes on behind it. */
  lemma {:induction false} ReplaceSkipsPrefix(a: string, b: string, pat: string, rep: string)
    requires |pat| > 0 && pat[0] !in a
    ensures Replace(a + b, pat, rep) == a + Replace(b, pat, rep)
    decreases |a|
  {
    var ab := a + b;
    if a == [] {
      assert ab == b;
    } else if |ab| < |pat| {
      assert Replace(b, pat, rep) == b;
    } else {
      assert ab[..|pat|] != pat by {
        assert ab[..|pat|][0] == a[0];
        assert a[0] in a;
      }
      assert ab[1..] == a[1..] + b;
      assert Replace(ab, pat, rep) == [a[0]] + Replace(a[1..] + b, pat, rep);
      assert pat[0] !in a[1..] by {
        assert forall c :: c in a[1..] ==> c in a;
      }
      ReplaceSkipsPrefix(a[1..], b, pat, rep);
      assert a == [a[0]] + a[1..];
    }
  }

  /** A single occurrence whose first character appears nowhere else is the
      one thing replaced. */
  lemma ReplaceOnce(before: string, rest: string, pat: string, rep: string)
    requires |pat| > 0 && pat[0] !in before && pat[0] !in rest
    ensures Replace(before + pat + rest, pat, rep) == before + rep + rest
  {
    assert before + pat + rest == before + (pat + rest);
    ReplaceSkipsPrefix(before, pat + rest, pat, rep);
    ReplaceAtFront(rest, pat, rep);
    ReplaceSkipsPrefix(rest, [], pat, rep);
    assert rest + [] == rest;
    assert before + (rep + rest) == before + rep + rest;
  }

  /** A prefix of the output that avoids the replacement's first character was
      copied unchanged from the input. */
  lemma {:induction false} PrefixPulledBack(s: string, pat: string, rep: string, w: string)
    requires |pat| > 0 && |rep| > 0 && rep[0] !in w
    ensures w <= Replace(s, pat, rep) ==> w <= s
    decreases |s|
  {
    if |s| >= |pat| && |w| > 0 {
      var t := Replace(s, pat, rep);
      if s[..|pat|] == pat {
        assert t[0] == rep[0] && w[0] in w;
      } else {
        var tail := Replace(s[1..], pat, rep);
        assert t == [s[0]] + tail;
        PrefixPulledBack(s[1..], pat, rep, w[1..]);
        if w <= t {
          assert w[1..] <= tail;
          assert w == [s[0]] + w[1..];
        }
      }
    }
  }

  /** A replacement made only of characters foreign to `w` creates no new
      occurrence of `w`: every occurrence in the output was already in the input. */
  lemma {:induction false} ReplaceKeepsAbsent(s: string, pat: string, rep: string, w: string)
    requires |pat| > 0 && |rep| > 0 && |w| > 0
    requires forall c :: c in rep ==> c !in w
    ensures Contains(Replace(s, pat, rep), w) ==> Contains(s, w)
    decreases |s|
  {
    var t := Replace(s, pat, rep);
    if Contains(t, w) {
      var i: nat :| i <= |t| && OccursAt(t, w, i);
      if |s| < |pat| {
        assert OccursAt(s, w, i);
      } else if s[..|pat|] == pat {
        var rest := s[|pat|..];
        var tail := Replace(rest, pat, rep);
        assert t == rep + tail;
        forall k: nat | k < |rep| ensures !OccursAt(t, w, k) {
          assert t[k] == rep[k] && rep[k] in rep && w[0] in w;
        }
        OccursAfterPrefix(rep, tail, w, i);
        ReplaceKeepsAbsent(rest, pat, rep, w);
        var j: nat :| j <= |rest| && OccursAt(rest, w, j);
        OccursInSuffix(s, |pat|, w, j);
      } else {
        var tail := Replace(s[1..], pat, rep);
        assert t == [s[0]] + tail;
        if i == 0 {
          assert w <= t;
          assert w[1..] <= tail;
          assert rep[0] in rep;
          PrefixPulledBack(s[1..], pat, rep, w[1..]);
          assert w == [s[0]] + w[1..];
          assert OccursAt(s, w, 0);
        } else {
          OccursAfterPrefix([s[0]], tail, w, i);
          ReplaceKeepsAbsent(s[1..], pat, rep, w);
          var j: nat :| j <= |s[1..]| && OccursAt(s[1..], w, j);
          OccursInSuffix(s, 1, w, j);
        }
      }
    }
  }

  /** Wrapping in double quotes creates no occurrence of a pattern that has no
      double quote in it. */
  lemma QuoteKeepsAbsent(t: string, w: string)
    requires |w| > 0 && '"' !in w
    ensures Contains("\"" + t + "\"", w) ==> Contains(t, w)
  {
    var q := "\"" + t + "\"";
    if Contains(q, w) {
      var i: nat :| i <= |q| && OccursAt(q, w, i);
      assert i + |w| <= |q|;
      assert q[i..i + |w|][0] == q[i];
      assert q[i..i + |w|][|w| - 1] == q[i + |w| - 1];
      assert w[0] in w && w[|w| - 1] in w;
      assert 0 < i && i + |w| < |q|;
      assert q[i..i + |w|] == t[i - 1..i - 1 + |w|];
      assert OccursAt(t, w, i - 1);
    }
  }
}
