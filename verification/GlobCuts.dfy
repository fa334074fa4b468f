/** Where a pattern is cut, said of its characters alone: at the separators that stand neither behind an
    open brace nor behind an open bracket. */
module GlobCuts {
  import opened GlobSplit

  /** Before i, the last of the two characters is the opening one. A separator neither opens nor closes. */
  predicate Within(p: string, i: nat, open: char, close: char, sep: char)
    requires i <= |p|
  {
    open != sep && exists j | 0 <= j < i :: LastOpened(p, j, i, open, close, sep)
  }

  predicate LastOpened(p: string, j: nat, i: nat, open: char, close: char, sep: char)
    requires j < i <= |p|
  {
    p[j] == open && forall k | j < k < i :: p[k] == close ==> close == sep
  }

  predicate InBraces(p: string, i: nat, sep: char)
    requires i <= |p|
  {
    Within(p, i, '{', '}', sep)
  }

  predicate InBrackets(p: string, i: nat, sep: char)
    requires i <= |p|
  {
    Within(p, i, '[', ']', sep)
  }

  predicate CutAt(p: string, sep: char, i: nat) {
    i < |p| && p[i] == sep && !InBraces(p, i, sep) && !InBrackets(p, i, sep)
  }

  predicate NoCutBefore(p: string, sep: char, i: nat) {
    forall j: nat | j < i :: !CutAt(p, sep, j)
  }

  // ---------- the scan knows where it is ----------

  lemma {:induction false} ModeSnoc(s: string, c: char, sep: char, m: Mode)
    ensures ModeAfter(s + [c], sep, m) == NextMode(c, sep, ModeAfter(s, sep, m))
    decreases |s|
  {
    if s == "" {
      assert s + [c] == [c] && [c][1..] == "";
      assert ModeAfter([c], sep, m) == ModeAfter("", sep, NextMode(c, sep, m));
    } else {
      ModeSnoc(s[1..], c, sep, NextMode(s[0], sep, m));
      assert (s + [c])[1..] == s[1..] + [c];
    }
  }

  /** One more character opens, closes or does neither. */
  lemma WithinNext(p: string, i: nat, open: char, close: char, sep: char)
    requires i < |p| && open != close
    ensures Within(p, i + 1, open, close, sep) <==>
            if p[i] == sep then Within(p, i, open, close, sep)
            else p[i] == open || (Within(p, i, open, close, sep) && p[i] != close)
  {
    if p[i] == open {
      assert LastOpened(p, i, i + 1, open, close, sep);
    }
    if j: nat :| j < i && LastOpened(p, j, i, open, close, sep) {
      assert p[i] != close || close == sep ==> LastOpened(p, j, i + 1, open, close, sep);
    }
    var more := i + 1;
    if j: nat :| j < more && LastOpened(p, j, more, open, close, sep) {
      assert j < i ==> LastOpened(p, j, i, open, close, sep);
    }
  }

  lemma {:induction false} ModeIs(p: string, sep: char, i: nat)
    requires i <= |p|
    ensures ModeAfter(p[..i], sep, OUTSIDE) == Mode(InBraces(p, i, sep), InBrackets(p, i, sep))
    decreases i
  {
    if i > 0 {
      hide Within, ModeAfter;
      ModeIs(p, sep, i - 1);
      assert p[..i] == p[..i - 1] + [p[i - 1]];
      ModeSnoc(p[..i - 1], p[i - 1], sep, OUTSIDE);
      WithinNext(p, i - 1, '{', '}', sep);
      WithinNext(p, i - 1, '[', ']', sep);
    }
  }

  lemma {:induction false} WholeHolds(s: string, sep: char, m: Mode)
    requires forall i | 0 <= i < |s| && s[i] == sep :: !ModeAfter(s[..i], sep, m).Open()
    ensures Whole(s, sep, m)
    decreases |s|
  {
    if s != "" {
      var next := NextMode(s[0], sep, m);
      assert s[..0] == "";
      forall i | 0 <= i < |s[1..]| && s[1..][i] == sep ensures !ModeAfter(s[1..][..i], sep, next).Open() {
        assert s[..i + 1][1..] == s[1..][..i] && s[..i + 1][0] == s[0];
        assert ModeAfter(s[..i + 1], sep, m) == ModeAfter(s[1..][..i], sep, next);
      }
      WholeHolds(s[1..], sep, next);
    }
  }

  lemma WithinPrefix(p: string, n: nat, i: nat, open: char, close: char, sep: char)
    requires i <= n <= |p|
    ensures Within(p[..n], i, open, close, sep) == Within(p, i, open, close, sep)
  {
    if j: nat :| j < i && LastOpened(p, j, i, open, close, sep) {
      assert LastOpened(p[..n], j, i, open, close, sep);
    }
    if j: nat :| j < i && LastOpened(p[..n], j, i, open, close, sep) {
      forall k | j < k < i ensures p[k] == close ==> close == sep { assert p[..n][k] == p[k]; }
      assert LastOpened(p, j, i, open, close, sep);
    }
  }

  lemma UncutIsWhole(p: string, sep: char, n: nat)
    requires n <= |p| && NoCutBefore(p, sep, n)
    ensures Whole(p[..n], sep, OUTSIDE)
  {
    hide Within;
    var a := p[..n];
    forall i | 0 <= i < |a| && a[i] == sep ensures !ModeAfter(a[..i], sep, OUTSIDE).Open() {
      assert !CutAt(p, sep, i) && p[i] == sep;
      assert a[..i] == p[..i];
      ModeIs(p, sep, i);
    }
    WholeHolds(a, sep, OUTSIDE);
  }

  // ---------- the laws of splitting ----------

  /** A text that is cut nowhere is its own single segment; the empty text has none. */
  lemma UncutStays(p: string, sep: char)
    requires NoCutBefore(p, sep, |p|)
    ensures Split(p, sep) == if p == "" then [] else [p]
  {
    if p != "" {
      UncutIsWhole(p, sep, |p|);
      assert p[..|p|] == p && "" + p == p;
      WholeSplits(p, sep, "", OUTSIDE);
    }
  }

  lemma {:induction false} SplitPast(a: string, rest: string, cur: string, sep: char, m: Mode)
    requires Whole(a, sep, m) && ModeAfter(a, sep, m).Open() && rest != "" && rest[0] == sep
    ensures SplitFrom(a + rest, sep, cur, m) == [cur + a] + SplitFrom(rest[1..], sep, "", OUTSIDE)
    decreases |a|
  {
    if a == "" {
      assert a + rest == rest && cur + a == cur && m == OUTSIDE;
    } else {
      assert (a + rest)[1..] == a[1..] + rest && (a + rest)[0] == a[0];
      SplitPast(a[1..], rest, cur + [a[0]], sep, NextMode(a[0], sep, m));
      assert cur + [a[0]] + a[1..] == cur + a;
    }
  }

  /** The text before the first cut is the first segment, and the rest is split by itself. */
  lemma FirstCut(p: string, sep: char, i: nat)
    requires CutAt(p, sep, i) && NoCutBefore(p, sep, i)
    ensures Split(p, sep) == [p[..i]] + Split(p[i + 1..], sep)
  {
    UncutIsWhole(p, sep, i);
    ModeIs(p, sep, i);
    hide Within, ModeAfter, Whole;
    SplitPast(p[..i], p[i..], "", sep, OUTSIDE);
    assert p[..i] + p[i..] == p && "" + p[..i] == p[..i] && p[i..][1..] == p[i + 1..];
  }

  /** Behind a cut it does not matter what came before. */
  lemma WithinBehind(p: string, f: nat, i: nat, open: char, close: char, sep: char)
    requires f < |p| && p[f] == sep && !Within(p, f, open, close, sep) && i <= |p| - f - 1
    ensures Within(p, f + 1 + i, open, close, sep) <==> Within(p[f + 1..], i, open, close, sep)
  {
    var q := p[f + 1..];
    var all := f + 1 + i;
    if j: nat :| j < all && LastOpened(p, j, all, open, close, sep) {
      if j <= f {
        if open != sep {
          assert j < f && LastOpened(p, j, f, open, close, sep);
        }
      } else {
        assert forall k: nat | j - f - 1 < k < i :: q[k] == p[f + 1 + k];
        assert LastOpened(q, j - f - 1, i, open, close, sep);
      }
    }
    if j: nat :| j < i && LastOpened(q, j, i, open, close, sep) {
      forall k: nat | f + 1 + j < k < f + 1 + i ensures p[k] == close ==> close == sep {
        assert q[k - f - 1] == p[k];
      }
      assert LastOpened(p, f + 1 + j, f + 1 + i, open, close, sep);
    }
  }

  lemma CutBehind(p: string, sep: char, f: nat, i: nat)
    requires CutAt(p, sep, f)
    ensures CutAt(p, sep, f + 1 + i) <==> CutAt(p[f + 1..], sep, i)
  {
    if i < |p| - f - 1 {
      WithinBehind(p, f, i, '{', '}', sep);
      WithinBehind(p, f, i, '[', ']', sep);
    }
  }

  /** Where the n-th segment ends, counting one separator behind each of those before it. */
  function EndOf(segs: seq<string>, n: nat): nat
    requires n < |segs|
  {
    |segs[0]| + if n == 0 then 0 else 1 + EndOf(segs[1..], n - 1)
  }

  predicate EndsAt(segs: seq<string>, n: nat, i: nat) {
    n < |segs| && EndOf(segs, n) == i
  }

  lemma EndsBehind(first: string, rest: seq<string>, n: nat, i: nat)
    ensures EndsAt([first] + rest, n, i) <==>
            if n == 0 then i == |first| else i > |first| && EndsAt(rest, n - 1, i - |first| - 1)
  {
    assert ([first] + rest)[1..] == rest;
  }

  /** The first separator at which the text is cut, or its length. */
  lemma FirstCutOf(p: string, sep: char) returns (f: nat)
    ensures f <= |p| && NoCutBefore(p, sep, f) && (f < |p| ==> CutAt(p, sep, f))
  {
    hide CutAt;
    f := 0;
    while f < |p| && !CutAt(p, sep, f)
      invariant f <= |p| && NoCutBefore(p, sep, f)
    {
      f := f + 1;
    }
  }

  /** The segments end at the cuts and nowhere else, except for the last one, which may end with the text. */
  lemma {:induction false} CutsExactly(p: string, sep: char, i: nat)
    requires i < |p|
    ensures CutAt(p, sep, i) <==> exists n: nat :: EndsAt(Split(p, sep), n, i)
    decreases |p|
  {
    hide CutAt, EndOf;
    var f := FirstCutOf(p, sep);
    if f == |p| {
      UncutStays(p, sep);
      OneEnd(p, i);
    } else {
      FirstCut(p, sep, f);
      CutsFrom(p, sep, f, i);
    }
  }

  lemma OneEnd(p: string, i: nat)
    requires i < |p|
    ensures forall n: nat :: !EndsAt([p], n, i)
  {
  }

  lemma {:induction false} CutsFrom(p: string, sep: char, f: nat, i: nat)
    requires i < |p| && CutAt(p, sep, f) && NoCutBefore(p, sep, f)
    requires Split(p, sep) == [p[..f]] + Split(p[f + 1..], sep)
    ensures CutAt(p, sep, i) <==> exists n: nat :: EndsAt(Split(p, sep), n, i)
    decreases |p|, 0
  {
    var segs := Split(p[f + 1..], sep);
    EndsBehind(p[..f], segs, 0, f);
    if i > f {
      CutBehind(p, sep, f, i - f - 1);
      hide CutAt, EndOf;
      CutsExactly(p[f + 1..], sep, i - f - 1);
      var rest := i - f - 1;
      if n: nat :| EndsAt(segs, n, rest) {
        EndsBehind(p[..f], segs, n + 1, i);
      }
      if n: nat :| EndsAt(Split(p, sep), n, i) {
        EndsBehind(p[..f], segs, n, i);
      }
    } else {
      forall n: nat ensures i < f ==> !EndsAt(Split(p, sep), n, i) {
        EndsBehind(p[..f], segs, n, i);
      }
      assert i == f ==> EndsAt(Split(p, sep), 0, i);
    }
  }

  /** Nothing is open at the end of the text, and it is cut nowhere. */
  predicate Closed(a: string, sep: char) {
    NoCutBefore(a, sep, |a|) && !InBraces(a, |a|, sep) && !InBrackets(a, |a|, sep)
  }

  /** A closed text before a separator is the first segment. */
  lemma ClosedThenSep(a: string, b: string, sep: char)
    requires Closed(a, sep)
    ensures Split(a + [sep] + b, sep) == [a] + Split(b, sep)
  {
    var p := a + [sep] + b;
    assert p[..|a|] == a && p[|a| + 1..] == b;
    forall i: nat | i <= |a|
      ensures InBraces(p, i, sep) == InBraces(a, i, sep) && InBrackets(p, i, sep) == InBrackets(a, i, sep)
    {
      WithinPrefix(p, |a|, i, '{', '}', sep);
      WithinPrefix(p, |a|, i, '[', ']', sep);
    }
    hide Within;
    forall j: nat | j < |a| ensures !CutAt(p, sep, j) { assert !CutAt(a, sep, j); }
    FirstCut(p, sep, |a|);
  }

  /** A class is closed by its bracket, whatever separators are in it, and a brace by its own. */
  lemma ClosedText(body: string, open: char, close: char, b: string)
    requires (open == '[' && close == ']') || (open == '{' && close == '}')
    requires forall i | 0 <= i < |body| :: body[i] != close && (body[i] == '[' || body[i] == '{' ==> body[i] == open)
    ensures Split([open] + body + [close] + "/" + b, '/') == [[open] + body + [close]] + Split(b, '/')
  {
    var a := [open] + body + [close];
    var n := |a|;
    forall i: nat | i < n ensures !CutAt(a, '/', i) {
      assert a[i] == '/' ==> 1 <= i && LastOpened(a, 0, i, open, close, '/');
    }
    assert a[n - 1] == close;
    ClosedThenSep(a, b, '/');
    assert [open] + body + [close] + "/" + b == a + ['/'] + b;
  }
}
