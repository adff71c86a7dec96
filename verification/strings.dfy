/** Substring search and `QString::replace(before, after)` modelled as pure
    functions on `string` (a sequence of characters, compared case-sensitively,
    which is Qt's default). */
module Strings {

  /** `pat` occurs in `s` starting at index `i`. */
  predicate OccursAt(s: string, pat: string, i: nat) {
    i + |pat| <= |s| && s[i..i + |pat|] == pat
  }

  /** `pat` is a substring of `s`. */
  ghost predicate Occurs(s: string, pat: string) {
    exists i: nat :: OccursAt(s, pat, i)
  }

  /** `rep` can be spliced into a text without creating an occurrence of `a`
      that was not there before: `a` does not occur inside `rep`, and neither
      the first nor the last character of `rep` appears in `a`, so no
      occurrence can straddle either end of `rep`. */
  ghost predicate Inert(rep: string, a: string) {
    rep != [] && rep[0] !in a && rep[|rep| - 1] !in a && !Occurs(rep, a)
  }

  /** `QString::replace(before, after)`: scans `s` left to right, replaces
      every non-overlapping occurrence of `pat` by `rep`, and does not rescan
      the inserted text. */
  function ReplaceAll(s: string, pat: string, rep: string): (r: string)
    requires pat != []
    decreases |s|
  {
    if |s| < |pat| then s
    else if s[..|pat|] == pat then rep + ReplaceAll(s[|pat|..], pat, rep)
    else [s[0]] + ReplaceAll(s[1..], pat, rep)
  }

  /** A text in which the pattern does not occur is returned unchanged. */
  lemma {:induction false} ReplaceAllAbsent(s: string, pat: string, rep: string)
    requires pat != [] && !Occurs(s, pat)
    ensures ReplaceAll(s, pat, rep) == s
    decreases |s|
  {
    if |s| >= |pat| {
      assert !OccursAt(s, pat, 0);
      if Occurs(s[1..], pat) {
        OccursInSuffix(s, 1, pat);
      }
      ReplaceAllAbsent(s[1..], pat, rep);
      assert s == [s[0]] + s[1..];
    }
  }

  /** A pattern holding a character the text lacks does not occur in it. */
  lemma NoOccurrenceWithoutChar(s: string, pat: string, c: char)
    requires c in pat && c !in s
    ensures !Occurs(s, pat)
  {
  }

  /** An occurrence in a suffix is an occurrence in the whole text. */
  lemma OccursInSuffix(s: string, k: nat, a: string)
    requires k <= |s| && Occurs(s[k..], a)
    ensures Occurs(s, a)
  {
    var i: nat :| OccursAt(s[k..], a, i);
    assert s[k..][i..i + |a|] == s[k + i..k + i + |a|];
    assert OccursAt(s, a, k + i);
  }

  /** Up to the first inserted replacement, the output of `ReplaceAll` is a
      verbatim copy of its input. */
  lemma {:induction false} PrefixUntouched(s: string, pat: string, rep: string, n: nat)
    requires pat != [] && rep != []
    requires n <= |ReplaceAll(s, pat, rep)|
    ensures var r := ReplaceAll(s, pat, rep);
            (n <= |s| && r[..n] == s[..n]) || rep[0] in r[..n]
  {
    var r := ReplaceAll(s, pat, rep);
    if n == 0 || |s| < |pat| {
    } else if s[..|pat|] == pat {
      assert r[..n][0] == rep[0];
    } else {
      var r' := ReplaceAll(s[1..], pat, rep);
      assert r == [s[0]] + r';
      PrefixUntouched(s[1..], pat, rep, n - 1);
      if n - 1 <= |s[1..]| && r'[..n - 1] == s[1..][..n - 1] {
        assert r[..n] == [s[0]] + r'[..n - 1];
        assert s[..n] == [s[0]] + s[1..][..n - 1];
      } else {
        assert r[..n] == [s[0]] + r'[..n - 1];
      }
    }
  }

  /** An occurrence in `x + y` lies in `x`, lies in `y`, or contains the last
      character of `x`. */
  lemma OccursInConcat(x: string, y: string, a: string)
    requires Occurs(x + y, a)
    ensures Occurs(x, a) || Occurs(y, a) || (x != [] && x[|x| - 1] in a)
  {
    var i: nat :| OccursAt(x + y, a, i);
    if i + |a| <= |x| {
      assert (x + y)[i..i + |a|] == x[i..i + |a|];
      assert OccursAt(x, a, i);
    } else if i >= |x| {
      assert (x + y)[i..i + |a|] == y[i - |x|..i - |x| + |a|];
      assert OccursAt(y, a, i - |x|);
    } else {
      assert a[|x| - 1 - i] == (x + y)[|x| - 1] == x[|x| - 1];
    }
  }

  /** The first step of `ReplaceAll` when `s` does not start with `pat`:
      copying `s[0]` cannot start an occurrence of `a` unless `s` itself
      starts with `a`. */
  lemma CopiedHeadStartsNoOccurrence(s: string, pat: string, rep: string, a: string)
    requires pat != [] && rep != [] && a != [] && rep[0] !in a
    requires |s| >= |pat| && s[..|pat|] != pat
    requires a == pat || !Occurs(s, a)
    ensures !OccursAt([s[0]] + ReplaceAll(s[1..], pat, rep), a, 0)
  {
    var r' := ReplaceAll(s[1..], pat, rep);
    if OccursAt([s[0]] + r', a, 0) {
      PrefixUntouched(s[1..], pat, rep, |a| - 1);
      assert a == [s[0]] + r'[..|a| - 1];
      assert s[..|a|] == [s[0]] + s[1..][..|a| - 1];
      assert OccursAt(s, a, 0);
    }
  }

  /** Splicing an inert `rep` in front of a text without `a` does not create
      an occurrence of `a`. */
  lemma NoOccurrenceAfterInert(rep: string, t: string, a: string)
    requires Inert(rep, a) && !Occurs(t, a)
    ensures !Occurs(rep + t, a)
  {
    if Occurs(rep + t, a) {
      OccursInConcat(rep, t, a);
    }
  }

  /** A character in front of a text without `a` creates an occurrence of `a`
      only at the very front. */
  lemma NoOccurrenceAfterHead(c: char, t: string, a: string)
    requires !Occurs(t, a) && !OccursAt([c] + t, a, 0)
    ensures !Occurs([c] + t, a)
  {
    if Occurs([c] + t, a) {
      var i: nat :| OccursAt([c] + t, a, i);
      assert ([c] + t)[i..i + |a|] == t[i - 1..i - 1 + |a|];
      assert OccursAt(t, a, i - 1);
    }
  }

  /** Replacing `pat` by an inert `rep` never creates an occurrence of `a`, and
      when `a` is `pat` itself it removes every occurrence: afterwards `pat`
      does not occur anywhere in the result. */
  lemma {:induction false} ReplaceAllLeavesNoOccurrence(s: string, pat: string, rep: string, a: string)
    requires pat != [] && Inert(rep, a)
    requires a == pat || !Occurs(s, a)
    ensures !Occurs(ReplaceAll(s, pat, rep), a)
    decreases |s|
  {
    assert a != [] by { if a == [] { assert OccursAt(rep, a, 0); } }
    if |s| < |pat| {
      if a == pat {
        assert forall i: nat :: !OccursAt(s, a, i);
      }
    } else if s[..|pat|] == pat {
      var rest := s[|pat|..];
      if a != pat && Occurs(rest, a) {
        OccursInSuffix(s, |pat|, a);
      }
      ReplaceAllLeavesNoOccurrence(rest, pat, rep, a);
      NoOccurrenceAfterInert(rep, ReplaceAll(rest, pat, rep), a);
    } else {
      if a != pat && Occurs(s[1..], a) {
        OccursInSuffix(s, 1, a);
      }
      ReplaceAllLeavesNoOccurrence(s[1..], pat, rep, a);
      CopiedHeadStartsNoOccurrence(s, pat, rep, a);
      NoOccurrenceAfterHead(s[0], ReplaceAll(s[1..], pat, rep), a);
    }
  }

  /** A replacement no longer than the pattern never makes the text longer. */
  lemma {:induction false} ReplaceAllNoLonger(s: string, pat: string, rep: string)
    requires pat != [] && |rep| <= |pat|
    ensures |ReplaceAll(s, pat, rep)| <= |s|
    decreases |s|
  {
    if |s| < |pat| {
    } else if s[..|pat|] == pat {
      ReplaceAllNoLonger(s[|pat|..], pat, rep);
    } else {
      ReplaceAllNoLonger(s[1..], pat, rep);
    }
  }

  /** With a replacement strictly shorter than the pattern, a text that
      contains the pattern gets strictly shorter. */
  lemma {:induction false} ReplaceAllShrinks(s: string, pat: string, rep: string)
    requires pat != [] && |rep| < |pat| && Occurs(s, pat)
    ensures |ReplaceAll(s, pat, rep)| < |s|
    decreases |s|
  {
    var i: nat :| OccursAt(s, pat, i);
    if s[..|pat|] == pat {
      ReplaceAllNoLonger(s[|pat|..], pat, rep);
    } else {
      assert i > 0;
      assert s[1..][i - 1..i - 1 + |pat|] == s[i..i + |pat|];
      assert OccursAt(s[1..], pat, i - 1);
      ReplaceAllShrinks(s[1..], pat, rep);
    }
  }

  /** A text that starts with the pattern: the occurrence at the front is
      replaced and the scan resumes right after it. */
  lemma ReplaceAllAtFront(pat: string, y: string, rep: string)
    requires pat != []
    ensures ReplaceAll(pat + y, pat, rep) == rep + ReplaceAll(y, pat, rep)
  {
    assert (pat + y)[..|pat|] == pat;
    assert (pat + y)[|pat|..] == y;
  }

  /** A first character at which the pattern does not start is copied. */
  lemma ReplaceAllCopiesHead(c: char, t: string, pat: string, rep: string)
    requires pat != [] && !OccursAt([c] + t, pat, 0)
    ensures ReplaceAll([c] + t, pat, rep) == [c] + ReplaceAll(t, pat, rep)
  {
    var s := [c] + t;
    assert s[1..] == t;
    if |s| < |pat| {
      assert ReplaceAll(t, pat, rep) == t;
    }
  }

  /** An occurrence in the tail of a text is one in the text, one place
      further on. */
  lemma OccursAtTail(s: string, pat: string, q: nat)
    requires s != []
    ensures OccursAt(s[1..], pat, q) <==> OccursAt(s, pat, q + 1)
  {
    if q + 1 + |pat| <= |s| {
      assert s[1..][q..q + |pat|] == s[q + 1..q + 1 + |pat|];
    }
  }

  /** A prefix in which no occurrence of the pattern starts is copied
      unchanged. */
  lemma {:induction false} ReplaceAllCopiesPrefix(u: string, w: string, pat: string, rep: string)
    requires pat != []
    requires forall q :: 0 <= q < |u| ==> !OccursAt(u + w, pat, q)
    ensures ReplaceAll(u + w, pat, rep) == u + ReplaceAll(w, pat, rep)
    decreases |u|
  {
    if u == [] {
      assert u + w == w;
    } else {
      var c, u' := u[0], u[1..];
      assert u == [c] + u';
      assert u + w == [c] + (u' + w);
      assert (u + w)[1..] == u' + w;
      assert !OccursAt(u + w, pat, 0);
      forall q | 0 <= q < |u'| ensures !OccursAt(u' + w, pat, q) {
        OccursAtTail(u + w, pat, q);
      }
      ReplaceAllCopiesHead(c, u' + w, pat, rep);
      ReplaceAllCopiesPrefix(u', w, pat, rep);
      assert [c] + (u' + ReplaceAll(w, pat, rep)) == u + ReplaceAll(w, pat, rep);
    }
  }

  /** Replacement at the first occurrence: everything in front of it is
      copied, the occurrence becomes `rep`, and the scan resumes right after
      it. */
  lemma ReplaceAllAtFirst(s: string, pat: string, rep: string, p: nat)
    requires pat != [] && OccursAt(s, pat, p)
    requires forall q :: 0 <= q < p ==> !OccursAt(s, pat, q)
    ensures ReplaceAll(s, pat, rep) == s[..p] + rep + ReplaceAll(s[p + |pat|..], pat, rep)
  {
    var u, y := s[..p], s[p + |pat|..];
    assert s[p..] == s[p..p + |pat|] + y;
    assert s == u + s[p..];
    assert s == u + (pat + y);
    ReplaceAllCopiesPrefix(u, pat + y, pat, rep);
    ReplaceAllAtFront(pat, y, rep);
    assert u + (rep + ReplaceAll(y, pat, rep)) == u + rep + ReplaceAll(y, pat, rep);
  }

  /** In front of a text, a prefix without the first character of the
      pattern holds no start of an occurrence. */
  lemma NoStartInPrefix(u: string, w: string, pat: string)
    requires pat != [] && pat[0] !in u
    ensures forall q :: 0 <= q < |u| ==> !OccursAt(u + w, pat, q)
  {
    forall q | 0 <= q < |u| ensures !OccursAt(u + w, pat, q) {
      if q + |pat| <= |u + w| {
        assert (u + w)[q..q + |pat|][0] == u[q];
      }
    }
  }

  /** A pattern that occurs at `|u|` in `u + pat + v`, with no occurrence
      starting earlier and none inside `v`, is the only thing replaced. */
  lemma ReplaceAllSingle(u: string, pat: string, v: string, rep: string)
    requires pat != [] && !Occurs(v, pat)
    requires forall q :: 0 <= q < |u| ==> !OccursAt(u + pat + v, pat, q)
    ensures ReplaceAll(u + pat + v, pat, rep) == u + rep + v
  {
    var s := u + pat + v;
    assert s[|u|..|u| + |pat|] == pat;
    ReplaceAllAtFirst(s, pat, rep, |u|);
    assert s[..|u|] == u;
    assert s[|u| + |pat|..] == v;
    ReplaceAllAbsent(v, pat, rep);
  }
}
