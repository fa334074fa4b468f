/** What a glob means, segment by segment, and the proof that the compiled expression agrees. */
module GlobReference {
  import opened Paths
  import opened Regex
  import opened Globstar
  import opened GlobSplit
  import opened GlobCompile

  /** The reference: `**` consumes zero or more whole names, any other segment exactly one. */
  predicate GlobMatch(accepts: (string, string) -> bool, segs: seq<string>, names: seq<string>)
    decreases |segs|, |names|
  {
    if segs == [] then names == []
    else if segs[0] == STARSTAR then
      GlobMatch(accepts, segs[1..], names) || (names != [] && GlobMatch(accepts, segs, names[1..]))
    else
      names != [] && accepts(segs[0], names[0]) && GlobMatch(accepts, segs[1..], names[1..])
  }

  function SegmentAccepts(): (string, string) -> bool {
    (seg, name) => MatchSeq(CompileSeg(seg), name)
  }

  /** The node can only accept strings without separators. */
  predicate Flat(n: Node) {
    match n
    case One(a) =>
      (match a
       case Lit(c) => !IsSep(c)
       case NoSep => true
       case Class(toks) => !InClass(toks, '/') && !InClass(toks, '\\')
       case _ => false)
    case Cat(ns) => FlatSeq(ns)
    case Alt(alts) => FlatSeq(alts)
    case Star(body) => Flat(body)
  }

  predicate FlatSeq(ns: seq<Node>) {
    forall i | 0 <= i < |ns| :: Flat(ns[i])
  }

  predicate FlatSegs(segs: seq<string>) {
    forall i | 0 <= i < |segs| :: segs[i] == STARSTAR || FlatSeq(CompileSeg(segs[i]))
  }

  lemma SepFreeConcat(s: string, k: nat)
    requires k <= |s| && SepFree(s[..k]) && SepFree(s[k..])
    ensures SepFree(s)
  {
    assert forall i | 0 <= i < |s| :: s[i] == if i < k then s[..k][i] else s[k..][i - k];
  }

  lemma {:induction false} FlatSound(n: Node, s: string)
    requires Flat(n) && MatchNode(n, s)
    ensures SepFree(s)
    decreases |s|, n, 1
  {
    match n
    case One(_) =>
    case Cat(ns) => FlatSeqSound(ns, s);
    case Alt(alts) =>
      var i :| 0 <= i < |alts| && MatchNode(alts[i], s);
      FlatSound(alts[i], s);
    case Star(_) =>
      if s != "" {
        var k := TurnElim(n, s);
        FlatSound(n.body, s[..k]);
        FlatSound(n, s[k..]);
        SepFreeConcat(s, k);
      }
  }

  lemma {:induction false} FlatSeqSound(ns: seq<Node>, s: string)
    requires FlatSeq(ns) && MatchSeq(ns, s)
    ensures SepFree(s)
    decreases |s|, ns, 0
  {
    if ns != [] {
      var k := ConsElim(ns, s);
      FlatSound(ns[0], s[..k]);
      FlatSeqSound(ns[1..], s[k..]);
      SepFreeConcat(s, k);
    }
  }

  /** The list ends with a globstar that stands alone or follows another globstar. */
  predicate EndsLoose(segs: seq<string>) {
    segs != [] && segs[|segs| - 1] == STARSTAR && (|segs| == 1 || segs[|segs| - 2] == STARSTAR)
  }

  /** A globstar after a globstar changes nothing. */
  lemma {:induction false} GlobstarTwice(accepts: (string, string) -> bool, segs: seq<string>, names: seq<string>)
    requires |segs| >= 2 && segs[0] == STARSTAR && segs[1] == STARSTAR
    ensures GlobMatch(accepts, segs, names) <==> GlobMatch(accepts, segs[1..], names)
    decreases |names|
  {
    if names != [] {
      GlobstarTwice(accepts, segs, names[1..]);
    }
  }

  lemma {:induction false} GlobstarAlone(accepts: (string, string) -> bool, names: seq<string>)
    ensures GlobMatch(accepts, [STARSTAR], names)
  {
    assert [STARSTAR][1..] == [];
    if names != [] {
      GlobstarAlone(accepts, names[1..]);
    }
  }

  /** Without names only globstars can match. */
  lemma {:induction false} NeedsName(accepts: (string, string) -> bool, segs: seq<string>)
    ensures GlobMatch(accepts, segs, []) <==> AllGlobstar(segs)
  {
    if segs != [] {
      NeedsName(accepts, segs[1..]);
      assert AllGlobstar(segs) <==> segs[0] == STARSTAR && AllGlobstar(segs[1..]);
    }
  }

  /** A final run of two or more globstars after some other segment. */
  predicate EndsDoubled(segs: seq<string>) {
    !AllGlobstar(segs) && EndsLoose(segs)
  }

  predicate OneLine(s: string) {
    forall i | 0 <= i < |s| :: !LineTerminator(s[i])
  }

  lemma {:induction false} AnythingOnOneLine(s: string)
    ensures MatchNode(ANYTHING, s) <==> OneLine(s)
    decreases |s|
  {
    if s != "" {
      AnythingOnOneLine(s[1..]);
      if MatchNode(ANYTHING, s) {
        var k := TurnElim(ANYTHING, s);
        assert s == [s[0]] + s[1..];
      }
      if OneLine(s) {
        TurnIntro(ANYTHING, s, 1);
      }
    }
  }
}
