/** Paths as the glob matcher sees them: slashes and backslashes both separate names. */
module Paths {

  predicate IsSep(c: char) {
    c == '/' || c == '\\'
  }

  predicate SepFree(s: string) {
    forall i | 0 <= i < |s| :: !IsSep(s[i])
  }

  function FirstSepFrom(s: string, i: nat): (k: nat)
    requires i <= |s|
    ensures i <= k <= |s| && (k < |s| ==> IsSep(s[k])) && forall j | i <= j < k :: !IsSep(s[j])
    decreases |s| - i
  {
    if i == |s| || IsSep(s[i]) then i else FirstSepFrom(s, i + 1)
  }

  /** The index of the first separator, or the length when there is none. */
  function FirstSep(s: string): (k: nat)
    ensures k <= |s| && SepFree(s[..k]) && (k < |s| ==> IsSep(s[k]))
  {
    FirstSepFrom(s, 0)
  }

  /** The names of a path, in order. */
  function Names(s: string): (ns: seq<string>)
    ensures |ns| >= 1
    ensures forall i | 0 <= i < |ns| :: SepFree(ns[i])
    decreases |s|
  {
    var k := FirstSep(s);
    if k == |s| then assert s[..k] == s; [s] else [s[..k]] + Names(s[k + 1..])
  }

  predicate DoubledAt(s: string, i: int) {
    0 <= i < |s| - 1 && IsSep(s[i]) && IsSep(s[i + 1])
  }

  predicate NoDoubledSep(s: string) {
    forall i | 0 <= i < |s| :: !DoubledAt(s, i)
  }

  /** A normalised relative path: not empty, no leading, trailing or doubled separator. */
  predicate Normal(s: string) {
    s != "" && !IsSep(s[0]) && !IsSep(s[|s| - 1]) && NoDoubledSep(s)
  }

  /** What follows the last separator. */
  function LastName(s: string): (b: string)
    ensures SepFree(b) && |b| <= |s| && s[|s| - |b|..] == b
    ensures |b| < |s| ==> IsSep(s[|s| - |b| - 1])
  {
    if s == "" || IsSep(s[|s| - 1]) then "" else
      var init, c := s[..|s| - 1], s[|s| - 1];
      var r := LastName(init);
      assert s == init + [c] && s[|init| - |r|..] == init[|init| - |r|..] + [c];
      r + [c]
  }

  lemma FirstSepUnique(s: string, k: nat)
    requires k <= |s| && SepFree(s[..k]) && (k < |s| ==> IsSep(s[k]))
    ensures FirstSep(s) == k
  {
    assert forall j | 0 <= j < k :: s[..k][j] == s[j];
  }

  lemma FirstSepBefore(s: string, i: nat)
    requires i < |s| && IsSep(s[i])
    ensures FirstSep(s) <= i
  {
  }

  lemma NoDoubledSlice(s: string, a: nat, b: nat)
    requires NoDoubledSep(s) && a <= b <= |s|
    ensures NoDoubledSep(s[a..b])
  {
    forall i | 0 <= i < b - a
      ensures !DoubledAt(s[a..b], i)
    {
      assert !DoubledAt(s, a + i);
    }
  }

  /** Dropping the first name of a normalised path leaves a normalised path. */
  lemma NormalTail(t: string)
    requires Normal(t) && FirstSep(t) < |t|
    ensures 0 < FirstSep(t) && Normal(t[FirstSep(t) + 1..])
  {
    var k := FirstSep(t);
    assert !DoubledAt(t, k);
    NoDoubledSlice(t, k + 1, |t|);
    assert t[k + 1..] == t[k + 1..|t|];
  }

  /** A suffix that is separator free and starts the path or follows a separator is the last name. */
  lemma {:induction false} LastNameUnique(s: string, b: string)
    requires SepFree(b) && |b| <= |s| && s[|s| - |b|..] == b
    requires |b| < |s| ==> IsSep(s[|s| - |b| - 1])
    ensures LastName(s) == b
  {
    if b != "" {
      var r := s[..|s| - 1];
      assert b[|b| - 1] == s[|s| - 1];
      assert r[|r| - (|b| - 1)..] == b[..|b| - 1];
      LastNameUnique(r, b[..|b| - 1]);
    }
  }

  lemma LastNameUnfolds(s: string)
    requires s != ""
    ensures LastName(s) == if IsSep(s[|s| - 1]) then "" else LastName(s[..|s| - 1]) + [s[|s| - 1]]
  {
  }

  lemma {:induction false} LastNameAfter(s: string, k: nat)
    requires k < |s| && IsSep(s[k])
    ensures LastName(s) == LastName(s[k + 1..])
  {
    if k + 1 < |s| {
      var r, u := s[..|s| - 1], s[k + 1..];
      assert u[..|u| - 1] == r[k + 1..] && u[|u| - 1] == s[|s| - 1];
      LastNameAfter(r, k);
      LastNameUnfolds(s);
      LastNameUnfolds(u);
    }
  }

  lemma {:induction false} LastNameIsLast(s: string)
    ensures LastName(s) == Names(s)[|Names(s)| - 1]
    decreases |s|
  {
    hide LastName, FirstSepFrom;
    var k := FirstSep(s);
    if k == |s| {
      assert s[..k] == s == s[|s| - |s|..];
      LastNameUnique(s, s);
    } else {
      LastNameAfter(s, k);
      LastNameIsLast(s[k + 1..]);
      assert Names(s) == [s[..k]] + Names(s[k + 1..]);
    }
  }

  /** Names joined by one separator. */
  function JoinBy(ns: seq<string>, sep: char): (s: string)
  {
    if ns == [] then "" else if |ns| == 1 then ns[0] else ns[0] + [sep] + JoinBy(ns[1..], sep)
  }

  /** The path uses no separator but the given one. */
  predicate OnlySep(s: string, sep: char) {
    forall i | 0 <= i < |s| :: IsSep(s[i]) ==> s[i] == sep
  }

  lemma {:induction false} JoinNames(s: string, sep: char)
    requires OnlySep(s, sep)
    ensures JoinBy(Names(s), sep) == s
    decreases |s|
  {
    var k := FirstSep(s);
    if k < |s| {
      var r := s[k + 1..];
      forall i | 0 <= i < |r| ensures IsSep(r[i]) ==> r[i] == sep { assert r[i] == s[k + 1 + i]; }
      JoinNames(r, sep);
      assert Names(s)[1..] == Names(r);
      assert s == s[..k] + [sep] + r;
    }
  }

  lemma {:induction false} NamesOfJoin(ns: seq<string>, sep: char)
    requires IsSep(sep) && |ns| >= 1 && forall i | 0 <= i < |ns| :: SepFree(ns[i])
    ensures Names(JoinBy(ns, sep)) == ns
  {
    var s := JoinBy(ns, sep);
    if |ns| == 1 {
      assert s[..|s|] == s;
      FirstSepUnique(s, |s|);
    } else {
      var k := |ns[0]|;
      assert s[..k] == ns[0];
      FirstSepUnique(s, k);
      assert s[k + 1..] == JoinBy(ns[1..], sep);
      NamesOfJoin(ns[1..], sep);
    }
  }

  lemma {:induction false} NormalNames(t: string)
    requires Normal(t)
    ensures forall i | 0 <= i < |Names(t)| :: Names(t)[i] != ""
    decreases |t|
  {
    var k := FirstSep(t);
    if k < |t| {
      NormalTail(t);
      NormalNames(t[k + 1..]);
    }
  }
}
