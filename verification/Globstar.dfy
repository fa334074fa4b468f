/** The group emitted for `**`, and the strings it accepts. */
module Globstar {
  import opened Paths
  import opened Regex

  /** (?:S|N+S|SN+)* over separators S and other characters N. */
  const GLOBSTAR: Node := Star(GROUP)
  const GROUP: Node := Alt([One(Sep), NAME_THEN_SEP, SEP_THEN_NAME])
  const NAME_THEN_SEP: Node := Cat([One(NoSep), NAME_RUN, One(Sep)])
  const SEP_THEN_NAME: Node := Cat([One(Sep), One(NoSep), NAME_RUN])

  predicate IsNameThenSep(x: string) {
    |x| >= 2 && SepFree(x[..|x| - 1]) && IsSep(x[|x| - 1])
  }

  predicate IsSepThenName(x: string) {
    |x| >= 2 && IsSep(x[0]) && SepFree(x[1..])
  }

  lemma RunThenSep(s: string)
    ensures MatchSeq([NAME_RUN, One(Sep)], s) <==> |s| >= 1 && SepFree(s[..|s| - 1]) && IsSep(s[|s| - 1])
  {
    assert [NAME_RUN, One(Sep)] == [NAME_RUN] + [One(Sep)];
    MatchTail([NAME_RUN], Sep, s);
    if s != "" {
      MatchOne(NAME_RUN, s[..|s| - 1]);
      NameRun(s[..|s| - 1]);
    }
  }

  lemma NameThenSep(x: string)
    ensures MatchNode(NAME_THEN_SEP, x) <==> IsNameThenSep(x)
  {
    assert NAME_THEN_SEP.ns == [One(NoSep)] + [NAME_RUN, One(Sep)];
    MatchHead(NoSep, [NAME_RUN, One(Sep)], x);
    if |x| >= 2 {
      RunThenSep(x[1..]);
      var y := x[..|x| - 1];
      assert y == [x[0]] + y[1..] && y[1..] == x[1..][..|x| - 2];
    } else if |x| == 1 {
      RunThenSep(x[1..]);
    }
  }

  lemma SepThenName(x: string)
    ensures MatchNode(SEP_THEN_NAME, x) <==> IsSepThenName(x)
  {
    assert SEP_THEN_NAME.ns == [One(Sep)] + [One(NoSep), NAME_RUN];
    MatchHead(Sep, [One(NoSep), NAME_RUN], x);
    if x != "" {
      assert [One(NoSep), NAME_RUN] == [One(NoSep)] + [NAME_RUN];
      MatchHead(NoSep, [NAME_RUN], x[1..]);
      if |x| >= 2 {
        MatchOne(NAME_RUN, x[1..][1..]);
        NameRun(x[1..][1..]);
        assert x[1..] == [x[1]] + x[1..][1..];
      }
    }
  }

  /** One turn of the group. */
  lemma GroupTurn(x: string)
    ensures MatchNode(GROUP, x) <==> (|x| == 1 && IsSep(x[0])) || IsNameThenSep(x) || IsSepThenName(x)
  {
    NameThenSep(x);
    SepThenName(x);
    var alts := GROUP.alts;
    assert MatchNode(GROUP, x) <==> MatchNode(alts[0], x) || MatchNode(alts[1], x) || MatchNode(alts[2], x);
  }

  lemma {:induction false} AcceptsOthers(w: string)
    requires !Normal(w)
    ensures MatchNode(GLOBSTAR, w)
    decreases |w|
  {
    if w != "" {
      var k: nat;
      if IsSep(w[0]) {
        k := 1 + FirstSep(w[1..]);
        assert w[..k][1..] == w[1..][..k - 1];
      } else {
        k := 1 + FirstSep(w);
        assert k <= |w| by { assert w[..|w|] == w; }
        assert w[..k][..k - 1] == w[..k - 1];
        NormalCons(w, k);
      }
      GroupTurn(w[..k]);
      AcceptsOthers(w[k..]);
      TurnIntro(GLOBSTAR, w, k);
    }
  }

  /** A name, a separator and a normalised path make a normalised path. */
  lemma NormalCons(w: string, k: nat)
    requires 0 < k <= |w| && !IsSep(w[0]) && SepFree(w[..k - 1])
    ensures Normal(w[k..]) ==> Normal(w)
  {
    if Normal(w[k..]) {
      forall i | 0 <= i < |w| - 1
        ensures !DoubledAt(w, i)
      {
        if i + 1 < k {
          assert w[i] == w[..k - 1][i];
        } else if i + 1 == k {
          assert w[i + 1] == w[k..][0];
        } else {
          assert !DoubledAt(w[k..], i - k);
        }
      }
      assert w[|w| - 1] == w[k..][|w| - k - 1];
    }
  }

  lemma {:induction false} RejectsNormal(w: string)
    requires Normal(w)
    ensures !MatchNode(GLOBSTAR, w)
    decreases |w|
  {
    if MatchNode(GLOBSTAR, w) {
      var k := TurnElim(GLOBSTAR, w);
      GroupTurn(w[..k]);
      assert IsNameThenSep(w[..k]);
      assert w[..k][..k - 1] == w[..k - 1];
      FirstSepUnique(w, k - 1);
      NormalTail(w);
      RejectsNormal(w[k..]);
    }
  }

  /** The group accepts exactly the strings that are not normalised relative paths. */
  lemma GlobstarLanguage(w: string)
    ensures MatchNode(GLOBSTAR, w) <==> !Normal(w)
  {
    if Normal(w) { RejectsNormal(w); } else { AcceptsOthers(w); }
  }

  /** A prefix of a normalised path is eaten by the group iff it is empty or ends at a separator. */
  lemma GlobstarPrefix(t: string, j: nat)
    requires Normal(t) && j <= |t|
    ensures MatchNode(GLOBSTAR, t[..j]) <==> j == 0 || IsSep(t[j - 1])
  {
    GlobstarLanguage(t[..j]);
    NoDoubledSlice(t, 0, j);
    assert t[..j] == t[0..j];
    if j > 0 {
      assert t[..j][0] == t[0] && t[..j][j - 1] == t[j - 1];
    }
  }

  /** On normalised paths the group skips zero or more whole names. */
  lemma GlobstarSkips(ns: seq<Node>, t: string)
    requires Normal(t)
    ensures MatchSeq([GLOBSTAR] + ns, t) <==>
            MatchSeq(ns, t) || (FirstSep(t) < |t| && MatchSeq([GLOBSTAR] + ns, t[FirstSep(t) + 1..]))
  {
    if MatchSeq([GLOBSTAR] + ns, t) {
      SkipsSome(ns, t);
    }
    if MatchSeq(ns, t) {
      assert t[0..] == t;
      ReachesBoundary(ns, t, 0, 0);
    }
    if FirstSep(t) < |t| && MatchSeq([GLOBSTAR] + ns, t[FirstSep(t) + 1..]) {
      SkipsOneMore(ns, t);
    }
  }

  /** From the name that starts at k the group reaches any later name boundary j. */
  lemma ReachesBoundary(ns: seq<Node>, t: string, k: nat, j: nat)
    requires k <= j <= |t| && Normal(t[k..]) && (j == k || IsSep(t[j - 1])) && MatchSeq(ns, t[j..])
    ensures MatchSeq([GLOBSTAR] + ns, t[k..])
  {
    var r := t[k..];
    GlobstarPrefix(r, j - k);
    assert r[j - k..] == t[j..];
    SkipBy(ns, r, j - k);
  }

  /** The converse: where the group stops there is a name boundary. */
  lemma StopsAtBoundary(ns: seq<Node>, t: string, k: nat) returns (j: nat)
    requires k <= |t| && Normal(t[k..]) && MatchSeq([GLOBSTAR] + ns, t[k..])
    ensures k <= j <= |t| && (j == k || IsSep(t[j - 1])) && MatchSeq(ns, t[j..])
  {
    var r := t[k..];
    var i := SkipLength(ns, r);
    GlobstarPrefix(r, i);
    j := k + i;
    assert r[i..] == t[j..];
  }

  lemma SkipsSome(ns: seq<Node>, t: string)
    requires Normal(t) && MatchSeq([GLOBSTAR] + ns, t)
    ensures MatchSeq(ns, t) || (FirstSep(t) < |t| && MatchSeq([GLOBSTAR] + ns, t[FirstSep(t) + 1..]))
  {
    assert t[0..] == t;
    var j := StopsAtBoundary(ns, t, 0);
    if j > 0 {
      FirstSepBefore(t, j - 1);
      NormalTail(t);
      ReachesBoundary(ns, t, FirstSep(t) + 1, j);
    }
  }

  lemma SkipsOneMore(ns: seq<Node>, t: string)
    requires Normal(t) && FirstSep(t) < |t| && MatchSeq([GLOBSTAR] + ns, t[FirstSep(t) + 1..])
    ensures MatchSeq([GLOBSTAR] + ns, t)
  {
    NormalTail(t);
    assert t[0..] == t;
    var j := StopsAtBoundary(ns, t, FirstSep(t) + 1);
    ReachesBoundary(ns, t, 0, j);
  }

  lemma SkipBy(ns: seq<Node>, t: string, j: nat)
    requires j <= |t| && MatchNode(GLOBSTAR, t[..j]) && MatchSeq(ns, t[j..])
    ensures MatchSeq([GLOBSTAR] + ns, t)
  {
    MatchOne(GLOBSTAR, t[..j]);
    ConcatIntro([GLOBSTAR], ns, t, j);
  }

  lemma SkipLength(ns: seq<Node>, t: string) returns (j: nat)
    requires MatchSeq([GLOBSTAR] + ns, t)
    ensures j <= |t| && MatchNode(GLOBSTAR, t[..j]) && MatchSeq(ns, t[j..])
  {
    j := ConcatElim([GLOBSTAR], ns, t);
    MatchOne(GLOBSTAR, t[..j]);
  }
}
