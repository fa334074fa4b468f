/** What compiled segments accept on normalised paths, whatever the segments themselves may match. */
module GlobGroups {
  import opened Paths
  import opened Regex
  import opened Globstar
  import opened GlobSplit
  import opened GlobCompile
  import opened GlobReference

  /** A name of the path ends at k. */
  predicate Boundary(t: string, k: nat) {
    0 < k <= |t| && (k == |t| || IsSep(t[k]))
  }

  /** The names behind the one that ends at k. */
  function Rest(t: string, k: nat): string
    requires k <= |t|
  {
    if k == |t| then "" else t[k + 1..]
  }

  lemma RestIsNormal(t: string, k: nat)
    requires Normal(t) && Boundary(t, k)
    ensures k < |t| ==> Normal(Rest(t, k))
    ensures Rest(t, k) == "" <==> k == |t|
  {
    if k < |t| {
      assert !DoubledAt(t, k);
      assert t[k + 1..|t|] == t[k + 1..];
      NoDoubledSlice(t, k + 1, |t|);
    }
  }

  lemma FirstBoundary(t: string)
    requires Normal(t)
    ensures Boundary(t, FirstSep(t))
  {
  }

  /** The exact reference: `**` takes zero or more whole names, any other segment takes one or more whole
      names together with the separators between them. */
  ghost predicate Grouped(accepts: (string, string) -> bool, segs: seq<string>, t: string)
    decreases |segs|, |t|
  {
    if segs == [] then t == ""
    else if segs[0] == STARSTAR then
      Grouped(accepts, segs[1..], t) || (t != "" && Grouped(accepts, segs, Rest(t, FirstSep(t))))
    else
      exists k: nat | Boundary(t, k) :: accepts(segs[0], t[..k]) && Grouped(accepts, segs[1..], Rest(t, k))
  }

  /** Without names only globstars can match. */
  lemma {:induction false} GroupedNothing(accepts: (string, string) -> bool, segs: seq<string>)
    ensures Grouped(accepts, segs, "") <==> AllGlobstar(segs)
  {
    if segs != [] {
      GroupedNothing(accepts, segs[1..]);
      assert AllGlobstar(segs) <==> segs[0] == STARSTAR && AllGlobstar(segs[1..]);
    }
  }

  lemma {:induction false} GroupedAlone(accepts: (string, string) -> bool, t: string)
    ensures Grouped(accepts, [STARSTAR], t)
    decreases |t|
  {
    assert [STARSTAR][1..] == [];
    if t != "" {
      GroupedAlone(accepts, Rest(t, FirstSep(t)));
    }
  }

  /** A globstar after a globstar changes nothing. */
  lemma {:induction false} GroupedTwice(accepts: (string, string) -> bool, segs: seq<string>, t: string)
    requires |segs| >= 2 && segs[0] == STARSTAR && segs[1] == STARSTAR
    ensures Grouped(accepts, segs, t) <==> Grouped(accepts, segs[1..], t)
    decreases |t|
  {
    if t != "" {
      GroupedTwice(accepts, segs, Rest(t, FirstSep(t)));
    }
  }

  // ---------- one segment and what follows it ----------

  lemma CutAtSep(seg: seq<Node>, rest: seq<Node>, t: string) returns (k: nat)
    requires Normal(t) && MatchSeq(seg + ([One(Sep)] + rest), t)
    ensures Boundary(t, k) && k < |t| && MatchSeq(seg, t[..k]) && MatchSeq(rest, t[k + 1..])
  {
    hide MatchSeq, NoDoubledSep;
    k := ConcatElim(seg, [One(Sep)] + rest, t);
    MatchHead(Sep, rest, t[k..]);
    assert t[k..][1..] == t[k + 1..];
  }

  lemma JoinAtSep(seg: seq<Node>, rest: seq<Node>, t: string, k: nat)
    requires k < |t| && IsSep(t[k]) && MatchSeq(seg, t[..k]) && MatchSeq(rest, t[k + 1..])
    ensures MatchSeq(seg + ([One(Sep)] + rest), t)
  {
    hide MatchSeq;
    assert t[k..][1..] == t[k + 1..];
    MatchHead(Sep, rest, t[k..]);
    ConcatIntro(seg, [One(Sep)] + rest, t, k);
  }

  /** A segment, a separator and the rest: the segment takes whole names. */
  lemma SegThenSep(seg: seq<Node>, rest: seq<Node>, t: string)
    requires Normal(t)
    ensures MatchSeq(seg + ([One(Sep)] + rest), t) <==>
            exists k: nat | Boundary(t, k) && k < |t| :: MatchSeq(seg, t[..k]) && MatchSeq(rest, t[k + 1..])
  {
    hide MatchSeq, Normal;
    if MatchSeq(seg + ([One(Sep)] + rest), t) {
      var k := CutAtSep(seg, rest, t);
    }
    if k: nat :| Boundary(t, k) && k < |t| && MatchSeq(seg, t[..k]) && MatchSeq(rest, t[k + 1..]) {
      JoinAtSep(seg, rest, t, k);
    }
  }

  lemma GlobstarAfter(t: string, k: nat)
    requires Normal(t) && k <= |t|
    ensures MatchNode(GLOBSTAR, t[k..]) <==> Boundary(t, k)
  {
    GlobstarLanguage(t[k..]);
    if k < |t| {
      assert t[k..|t|] == t[k..];
      NoDoubledSlice(t, k, |t|);
    }
  }

  /** A segment and a final globstar: the segment takes whole names, the globstar what is left. */
  lemma SegThenGlobstar(seg: seq<Node>, t: string)
    requires Normal(t)
    ensures MatchSeq(seg + [GLOBSTAR], t) <==> exists k: nat | Boundary(t, k) :: MatchSeq(seg, t[..k])
  {
    hide MatchSeq, MatchNode, Normal;
    if MatchSeq(seg + [GLOBSTAR], t) {
      var k := ConcatElim(seg, [GLOBSTAR], t);
      MatchOne(GLOBSTAR, t[k..]);
      GlobstarAfter(t, k);
    }
    if k: nat :| Boundary(t, k) && MatchSeq(seg, t[..k]) {
      MatchOne(GLOBSTAR, t[k..]);
      GlobstarAfter(t, k);
      ConcatIntro(seg, [GLOBSTAR], t, k);
    }
  }

  // ---------- all segments ----------

  /** The compiled segments accept a normalised path iff the exact reference does, unless they end loosely. */
  lemma {:induction false} GroupedSegments(segs: seq<string>, t: string)
    requires Normal(t)
    ensures MatchSeq(CompileSegs(segs, false), t) <==> Grouped(SegmentAccepts(), segs, t) && !EndsLoose(segs)
    decreases |segs|, |t|, 1
  {
    if segs == [] {
    } else if segs[0] != STARSTAR {
      SegmentFirst(segs, t);
    } else if |segs| == 1 {
      LoneGlobstar(segs, t);
    } else if segs[1] == STARSTAR {
      hide MatchSeq, Normal;
      GroupedTwice(SegmentAccepts(), segs, t);
      GlobstarAgain(segs);
      GroupedSegments(segs[1..], t);
    } else {
      GlobstarFirst(segs, t);
    }
  }

  lemma LoneGlobstar(segs: seq<string>, t: string)
    requires Normal(t) && |segs| == 1 && segs[0] == STARSTAR
    ensures !MatchSeq(CompileSegs(segs, false), t) && EndsLoose(segs)
  {
    hide MatchSeq, MatchNode;
    MatchOne(GLOBSTAR, t);
    GlobstarLanguage(t);
    assert segs[1..] == [];
    assert CompileSegs(segs, false) == [GLOBSTAR] + [];
    assert [GLOBSTAR] + [] == [GLOBSTAR];
  }

  lemma GlobstarAgain(segs: seq<string>)
    requires |segs| >= 2 && segs[0] == STARSTAR && segs[1] == STARSTAR
    ensures CompileSegs(segs, false) == CompileSegs(segs[1..], false)
    ensures EndsLoose(segs) == EndsLoose(segs[1..])
  {
    hide CompileSeg;
    var rest := segs[1..];
    var later := CompileSegs(rest[1..], true);
    assert CompileSegs(rest, true) == [] + later && [] + later == later;
    assert CompileSegs(segs, false) == StarsToRegExp(2) + CompileSegs(rest, true);
    assert CompileSegs(rest, false) == StarsToRegExp(2) + later;
  }

  lemma {:induction false} SegmentFirst(segs: seq<string>, t: string)
    requires Normal(t) && segs != [] && segs[0] != STARSTAR
    ensures MatchSeq(CompileSegs(segs, false), t) <==> Grouped(SegmentAccepts(), segs, t) && !EndsLoose(segs)
    decreases |segs|, |t|, 0
  {
    if |segs| == 1 {
      assert segs == [segs[0]];
      SegmentAlone(segs[0], t);
    } else if |segs| == 2 && segs[1] == STARSTAR {
      assert segs == [segs[0], STARSTAR];
      SegmentThenGlobstar(segs[0], t);
    } else {
      var rest := segs[1..];
      forall k: nat | Boundary(t, k) && k < |t|
        ensures MatchSeq(CompileSegs(rest, false), t[k + 1..]) <==>
                Grouped(SegmentAccepts(), rest, Rest(t, k)) && !EndsLoose(rest)
      {
        RestIsNormal(t, k);
        GroupedSegments(rest, t[k + 1..]);
      }
      SegmentThenMore(segs, t);
    }
  }

  lemma SegmentAlone(s: string, t: string)
    requires Normal(t) && s != STARSTAR
    ensures MatchSeq(CompileSegs([s], false), t) <==> Grouped(SegmentAccepts(), [s], t)
  {
    hide MatchSeq, CompileSeg, Normal;
    assert [s][1..] == [] && CompileSeg(s) + [] + [] == CompileSeg(s);
    assert CompileSegs([s], false) == CompileSeg(s);
    assert t[..|t|] == t && Boundary(t, |t|) by { WholeIsBoundary(t); }
    forall k: nat | Boundary(t, k) ensures Rest(t, k) == "" <==> k == |t| { RestIsNormal(t, k); }
  }

  lemma WholeIsBoundary(t: string)
    requires Normal(t)
    ensures Boundary(t, |t|)
  {
  }

  lemma SegmentThenGlobstar(s: string, t: string)
    requires Normal(t) && s != STARSTAR
    ensures MatchSeq(CompileSegs([s, STARSTAR], false), t) <==> Grouped(SegmentAccepts(), [s, STARSTAR], t)
  {
    hide MatchSeq, CompileSeg, Normal;
    var segs := [s, STARSTAR];
    assert segs[1..] == [STARSTAR] && [STARSTAR][1..] == [];
    assert CompileSegs([STARSTAR], false) == [GLOBSTAR];
    assert CompileSegs(segs, false) == CompileSeg(s) + [] + [GLOBSTAR];
    assert CompileSeg(s) + [] + [GLOBSTAR] == CompileSeg(s) + [GLOBSTAR];
    SegThenGlobstar(CompileSeg(s), t);
    forall k: nat | Boundary(t, k) ensures Grouped(SegmentAccepts(), [STARSTAR], Rest(t, k)) {
      GroupedAlone(SegmentAccepts(), Rest(t, k));
    }
  }

  lemma LooseRest(segs: seq<string>)
    requires |segs| >= 2 && !(|segs| == 2 && segs[1] == STARSTAR)
    ensures EndsLoose(segs[1..]) == EndsLoose(segs)
    ensures AllGlobstar(segs[1..]) ==> EndsLoose(segs)
  {
    if AllGlobstar(segs[1..]) {
      assert segs[1..][|segs| - 2] == segs[|segs| - 1];
      assert |segs| > 2 ==> segs[1..][|segs| - 3] == segs[|segs| - 2];
    }
  }

  lemma CompiledMore(segs: seq<string>)
    requires |segs| >= 2 && segs[0] != STARSTAR && !(|segs| == 2 && segs[1] == STARSTAR)
    ensures CompileSegs(segs, false) == CompileSeg(segs[0]) + ([One(Sep)] + CompileSegs(segs[1..], false))
  {
    hide CompileSeg;
    Assoc(CompileSeg(segs[0]), [One(Sep)], CompileSegs(segs[1..], false));
  }

  lemma SegmentThenMore(segs: seq<string>, t: string)
    requires Normal(t) && |segs| >= 2 && segs[0] != STARSTAR && !(|segs| == 2 && segs[1] == STARSTAR)
    requires forall k: nat | Boundary(t, k) && k < |t| ::
               MatchSeq(CompileSegs(segs[1..], false), t[k + 1..]) <==>
               Grouped(SegmentAccepts(), segs[1..], Rest(t, k)) && !EndsLoose(segs[1..])
    ensures MatchSeq(CompileSegs(segs, false), t) <==> Grouped(SegmentAccepts(), segs, t) && !EndsLoose(segs)
  {
    hide MatchSeq, CompileSeg, CompileSegs, Normal;
    var seg, rest := CompileSeg(segs[0]), segs[1..];
    CompiledMore(segs);
    SegThenSep(seg, CompileSegs(rest, false), t);
    LooseRest(segs);
    GroupedNothing(SegmentAccepts(), rest);
    hide EndsLoose, AllGlobstar;
    if !EndsLoose(segs) {
      var later := CompileSegs(rest, false);
      hide CompileSegs;
      if k: nat :| Boundary(t, k) && k < |t| && MatchSeq(seg, t[..k]) && MatchSeq(later, t[k + 1..]) {
        TakeFirst(segs, t, k);
      }
      if Grouped(SegmentAccepts(), segs, t) {
        var k := FirstTaken(segs, t);
        assert k < |t|;
        assert MatchSeq(seg, t[..k]) && MatchSeq(later, t[k + 1..]);
      }
    }
  }

  lemma TakeFirst(segs: seq<string>, t: string, k: nat)
    requires segs != [] && segs[0] != STARSTAR && Boundary(t, k)
    requires MatchSeq(CompileSeg(segs[0]), t[..k]) && Grouped(SegmentAccepts(), segs[1..], Rest(t, k))
    ensures Grouped(SegmentAccepts(), segs, t)
  {
    hide MatchSeq, CompileSeg;
    assert SegmentAccepts()(segs[0], t[..k]);
  }

  lemma FirstTaken(segs: seq<string>, t: string) returns (k: nat)
    requires segs != [] && segs[0] != STARSTAR && Grouped(SegmentAccepts(), segs, t)
    ensures Boundary(t, k)
    ensures MatchSeq(CompileSeg(segs[0]), t[..k]) && Grouped(SegmentAccepts(), segs[1..], Rest(t, k))
  {
    hide MatchSeq, CompileSeg;
    k :| Boundary(t, k) && SegmentAccepts()(segs[0], t[..k]) && Grouped(SegmentAccepts(), segs[1..], Rest(t, k));
  }

  lemma {:induction false} GlobstarFirst(segs: seq<string>, t: string)
    requires Normal(t) && |segs| >= 2 && segs[0] == STARSTAR && segs[1] != STARSTAR
    ensures MatchSeq(CompileSegs(segs, false), t) <==> Grouped(SegmentAccepts(), segs, t) && !EndsLoose(segs)
    decreases |segs|, |t|, 0
  {
    var rest, k := segs[1..], FirstSep(t);
    assert CompileSegs(segs, false) == [GLOBSTAR] + CompileSegs(rest, false);
    GlobstarSkips(CompileSegs(rest, false), t);
    GroupedSegments(rest, t);
    assert EndsLoose(rest) == EndsLoose(segs);
    hide MatchSeq, CompileSegs;
    FirstBoundary(t);
    RestIsNormal(t, k);
    if k < |t| {
      GroupedSegments(segs, t[k + 1..]);
    } else {
      GroupedNothing(SegmentAccepts(), segs);
    }
  }

  /** A pattern of globstars alone is compiled to `.*`, which stops at line ends; a doubled final
      globstar accepts nothing; otherwise a normalised path is accepted iff the exact reference says so. */
  lemma GroupedPattern(p: string, t: string)
    requires Normal(t)
    ensures MatchSeq(Compile(p), t) <==>
            && Grouped(SegmentAccepts(), Split(p, '/'), t)
            && !EndsDoubled(Split(p, '/'))
            && (AllGlobstar(Split(p, '/')) ==> OneLine(t))
  {
    var segs := Split(p, '/');
    hide CompileSegs;
    if p != "" {
      if AllGlobstar(segs) {
        MatchOne(ANYTHING, t);
        AnythingOnOneLine(t);
        AllGlobstarGrouped(segs, t);
      } else {
        GroupedSegments(segs, t);
      }
    }
  }

  lemma {:induction false} AllGlobstarGrouped(segs: seq<string>, t: string)
    requires AllGlobstar(segs) && segs != []
    ensures Grouped(SegmentAccepts(), segs, t)
    decreases |segs|, |t|
  {
    if t != "" {
      AllGlobstarGrouped(segs, Rest(t, FirstSep(t)));
    } else {
      GroupedNothing(SegmentAccepts(), segs);
    }
  }

  // ---------- two lists of segments one after the other ----------

  /** Before the first name, or behind some name. */
  predicate NameCut(t: string, k: nat) {
    k == 0 || Boundary(t, k)
  }

  function Behind(t: string, k: nat): string
    requires k <= |t|
  {
    if k == 0 then t else Rest(t, k)
  }

  /** The place of a cut m of the rest, in the whole. */
  function Shift(j: nat, m: nat): nat {
    if m == 0 then j else j + 1 + m
  }

  lemma PrefixIsNormal(t: string, k: nat)
    requires Normal(t) && Boundary(t, k)
    ensures Normal(t[..k])
  {
    NoDoubledSlice(t, 0, k);
    if k < |t| {
      assert !DoubledAt(t, k - 1);
    }
  }

  lemma BehindIsNormal(t: string, k: nat)
    requires t == "" || Normal(t)
    requires NameCut(t, k) && k <= |t|
    ensures Behind(t, k) == "" || Normal(Behind(t, k))
  {
    if k > 0 {
      RestIsNormal(t, k);
    }
  }

  lemma ShiftedCut(t: string, j: nat, m: nat)
    requires Normal(t) && Boundary(t, j) && NameCut(Rest(t, j), m) && m <= |Rest(t, j)|
    ensures var k := Shift(j, m);
            && Boundary(t, k) && Boundary(t[..k], j) && t[..k][..j] == t[..j]
            && Rest(t[..k], j) == Rest(t, j)[..m] && Behind(t, k) == Behind(Rest(t, j), m)
  {
    hide Normal;
    var k := Shift(j, m);
    if m > 0 {
      assert t[..k][j + 1..] == t[j + 1..][..m];
      assert k < |t| ==> t[k + 1..] == t[j + 1..][m + 1..];
    }
  }

  lemma UnshiftedCut(t: string, k: nat, j: nat) returns (m: nat)
    requires Normal(t) && Boundary(t, k) && Boundary(t[..k], j)
    ensures Boundary(t, j) && NameCut(Rest(t, j), m) && m <= |Rest(t, j)| && t[..k][..j] == t[..j]
    ensures Rest(t[..k], j) == Rest(t, j)[..m] && Behind(t, k) == Behind(Rest(t, j), m)
  {
    if j == k {
      m := 0;
    } else {
      assert t[..k][j] == t[j];
      assert !DoubledAt(t, j);
      m := k - j - 1;
      assert t[..k][j + 1..] == t[j + 1..][..m];
      assert k < |t| ==> t[k + 1..] == t[j + 1..][m + 1..];
    }
  }

  lemma FirstOfPrefix(t: string, k: nat)
    requires Normal(t) && Boundary(t, k)
    ensures Boundary(t[..k], FirstSep(t)) && FirstSep(t[..k]) == FirstSep(t)
  {
    var f := FirstSep(t);
    if k < |t| {
      FirstSepBefore(t, k);
    }
    assert t[..k][..f] == t[..f];
    assert f < k ==> t[..k][f] == t[f];
    FirstSepUnique(t[..k], f);
    FirstBoundary(t);
  }

  lemma {:induction false} GroupedSplit(accepts: (string, string) -> bool, xs: seq<string>, ys: seq<string>, t: string)
    returns (k: nat)
    requires t == "" || Normal(t)
    requires Grouped(accepts, xs + ys, t)
    ensures NameCut(t, k) && k <= |t| && Grouped(accepts, xs, t[..k]) && Grouped(accepts, ys, Behind(t, k))
    decreases |xs|, |t|
  {
    hide Normal, FirstSep, Behind, NameCut;
    var all := xs + ys;
    if xs == [] {
      assert all == ys;
      NoCut(t);
      return 0;
    }
    assert all[0] == xs[0] && all[1..] == xs[1..] + ys;
    if xs[0] != STARSTAR {
      var j: nat :| Boundary(t, j) && accepts(all[0], t[..j]) && Grouped(accepts, all[1..], Rest(t, j));
      k := SplitBehind(accepts, xs, ys, t, j);
    } else if Grouped(accepts, all[1..], t) {
      k := GroupedSplit(accepts, xs[1..], ys, t);
    } else {
      k := SplitBehindFirst(accepts, xs, ys, t);
    }
  }

  lemma NoCut(t: string)
    ensures NameCut(t, 0) && Behind(t, 0) == t && t[..0] == ""
  {
  }

  lemma {:induction false} SplitBehind(accepts: (string, string) -> bool, xs: seq<string>, ys: seq<string>, t: string,
      j: nat)
    returns (k: nat)
    requires (t == "" || Normal(t)) && xs != [] && xs[0] != STARSTAR
    requires Boundary(t, j) && accepts(xs[0], t[..j]) && Grouped(accepts, xs[1..] + ys, Rest(t, j))
    ensures NameCut(t, k) && k <= |t| && Grouped(accepts, xs, t[..k]) && Grouped(accepts, ys, Behind(t, k))
    decreases |xs|, |t|, 0
  {
    RestIsNormal(t, j);
    hide Normal, FirstSep;
    var m := GroupedSplit(accepts, xs[1..], ys, Rest(t, j));
    k := Shift(j, m);
    ShiftedCut(t, j, m);
  }

  lemma {:induction false} SplitBehindFirst(accepts: (string, string) -> bool, xs: seq<string>, ys: seq<string>,
      t: string)
    returns (k: nat)
    requires Normal(t) && xs != [] && xs[0] == STARSTAR && Grouped(accepts, xs + ys, Rest(t, FirstSep(t)))
    ensures NameCut(t, k) && k <= |t| && Grouped(accepts, xs, t[..k]) && Grouped(accepts, ys, Behind(t, k))
    decreases |xs|, |t|, 0
  {
    var j := FirstSep(t);
    FirstBoundary(t);
    RestIsNormal(t, j);
    assert t != "";
    hide Normal, FirstSep;
    var m := GroupedSplit(accepts, xs, ys, Rest(t, j));
    k := Shift(j, m);
    ShiftedCut(t, j, m);
    FirstOfPrefix(t, k);
  }

  lemma {:induction false} GroupedJoin(accepts: (string, string) -> bool, xs: seq<string>, ys: seq<string>, t: string,
      k: nat)
    requires t == "" || Normal(t)
    requires NameCut(t, k) && k <= |t| && Grouped(accepts, xs, t[..k]) && Grouped(accepts, ys, Behind(t, k))
    ensures Grouped(accepts, xs + ys, t)
    decreases |xs|, |t|
  {
    hide Normal, FirstSep;
    var all := xs + ys;
    if xs == [] {
      assert all == ys;
    } else {
      assert all[0] == xs[0] && all[1..] == xs[1..] + ys;
      if xs[0] != STARSTAR {
        var j: nat :| Boundary(t[..k], j) && accepts(xs[0], t[..k][..j]) && Grouped(accepts, xs[1..], Rest(t[..k], j));
        var m := UnshiftedCut(t, k, j);
        RestIsNormal(t, j);
        GroupedJoin(accepts, xs[1..], ys, Rest(t, j), m);
      } else if Grouped(accepts, xs[1..], t[..k]) {
        GroupedJoin(accepts, xs[1..], ys, t, k);
      } else {
        FirstOfPrefix(t, k);
        var j := FirstSep(t);
        var m := UnshiftedCut(t, k, j);
        RestIsNormal(t, j);
        GroupedJoin(accepts, xs, ys, Rest(t, j), m);
      }
    }
  }

  /** How many segments need a name. */
  function Needed(segs: seq<string>): nat {
    if segs == [] then 0 else (if segs[0] == STARSTAR then 0 else 1) + Needed(segs[1..])
  }

  // ---------- one name for each segment ----------

  function NamesIn(t: string): seq<string> {
    if t == "" then [] else Names(t)
  }

  lemma NamesBehind(t: string)
    requires Normal(t)
    ensures Names(t) == [t[..FirstSep(t)]] + NamesIn(Rest(t, FirstSep(t)))
  {
    FirstBoundary(t);
    RestIsNormal(t, FirstSep(t));
    assert t[..|t|] == t;
  }

  /** What the name-by-name reference accepts, the exact one accepts. */
  lemma {:induction false} NamesAreGroups(accepts: (string, string) -> bool, segs: seq<string>, t: string)
    requires (t == "" || Normal(t)) && GlobMatch(accepts, segs, NamesIn(t))
    ensures Grouped(accepts, segs, t)
    decreases |segs|, |t|
  {
    hide Names, FirstSep, Normal;
    if t == "" {
      NeedsName(accepts, segs);
      GroupedNothing(accepts, segs);
    } else if segs != [] {
      var k := FirstSep(t);
      NamesBehind(t);
      FirstBoundary(t);
      RestIsNormal(t, k);
      assert NamesIn(t)[0] == t[..k] && NamesIn(t)[1..] == NamesIn(Rest(t, k));
      if segs[0] != STARSTAR {
        NamesAreGroups(accepts, segs[1..], Rest(t, k));
      } else if GlobMatch(accepts, segs[1..], NamesIn(t)) {
        NamesAreGroups(accepts, segs[1..], t);
      } else {
        NamesAreGroups(accepts, segs, Rest(t, k));
      }
    }
  }

  /** Segments that accept no separator. */
  ghost predicate OneName(accepts: (string, string) -> bool, segs: seq<string>) {
    forall i, s {:trigger accepts(segs[i], s)} |
      0 <= i < |segs| && segs[i] != STARSTAR && accepts(segs[i], s) :: SepFree(s)
  }

  /** Then the two references agree. */
  lemma {:induction false} GroupsAreNames(accepts: (string, string) -> bool, segs: seq<string>, t: string)
    requires (t == "" || Normal(t)) && OneName(accepts, segs) && Grouped(accepts, segs, t)
    ensures GlobMatch(accepts, segs, NamesIn(t))
    decreases |segs|, |t|
  {
    hide Names, FirstSep, Normal;
    if t == "" {
      NeedsName(accepts, segs);
      GroupedNothing(accepts, segs);
    } else if segs != [] {
      var f, rest := FirstSep(t), segs[1..];
      NamesBehind(t);
      FirstBoundary(t);
      RestIsNormal(t, f);
      assert NamesIn(t)[0] == t[..f] && NamesIn(t)[1..] == NamesIn(Rest(t, f));
      OneNameTail(accepts, segs);
      if segs[0] != STARSTAR {
        var k: nat :| Boundary(t, k) && accepts(segs[0], t[..k]) && Grouped(accepts, rest, Rest(t, k));
        FirstSepUnique(t, k);
        GroupsAreNames(accepts, rest, Rest(t, k));
      } else if Grouped(accepts, rest, t) {
        GroupsAreNames(accepts, rest, t);
      } else {
        GroupsAreNames(accepts, segs, Rest(t, f));
      }
    }
  }

  lemma OneNameTail(accepts: (string, string) -> bool, segs: seq<string>)
    requires segs != [] && OneName(accepts, segs)
    ensures OneName(accepts, segs[1..])
  {
    forall i, s {:trigger accepts(segs[1..][i], s)} |
      0 <= i < |segs| - 1 && segs[1..][i] != STARSTAR && accepts(segs[1..][i], s)
      ensures SepFree(s)
    {
      assert segs[1..][i] == segs[i + 1];
    }
  }

  lemma FlatIsOneName(segs: seq<string>)
    requires FlatSegs(segs)
    ensures OneName(SegmentAccepts(), segs)
  {
    forall i, s {:trigger SegmentAccepts()(segs[i], s)} |
      0 <= i < |segs| && segs[i] != STARSTAR && SegmentAccepts()(segs[i], s)
      ensures SepFree(s)
    {
      FlatSeqSound(CompileSeg(segs[i]), s);
    }
  }

  /** Flat segments accept a normalised path iff the reference does name by name, unless they end loosely. */
  lemma CompiledSegments(segs: seq<string>, t: string)
    requires Normal(t) && FlatSegs(segs)
    ensures MatchSeq(CompileSegs(segs, false), t) <==>
            GlobMatch(SegmentAccepts(), segs, Names(t)) && !EndsLoose(segs)
  {
    hide MatchSeq, CompileSegs, Grouped, GlobMatch, Names, FlatSegs;
    GroupedSegments(segs, t);
    FlatIsOneName(segs);
    if Grouped(SegmentAccepts(), segs, t) {
      GroupsAreNames(SegmentAccepts(), segs, t);
    }
    if GlobMatch(SegmentAccepts(), segs, Names(t)) {
      NamesAreGroups(SegmentAccepts(), segs, t);
    }
  }

  /** What the reference accepts name by name, the compiled segments accept, flat or not. */
  lemma ReferenceIsCompiled(segs: seq<string>, t: string)
    requires Normal(t) && GlobMatch(SegmentAccepts(), segs, Names(t)) && !EndsLoose(segs)
    ensures MatchSeq(CompileSegs(segs, false), t)
  {
    NamesAreGroups(SegmentAccepts(), segs, t);
    GroupedSegments(segs, t);
  }

  /** The same for whole patterns. */
  lemma CompiledPattern(p: string, t: string)
    requires Normal(t) && FlatSegs(Split(p, '/'))
    ensures MatchSeq(Compile(p), t) <==>
            && GlobMatch(SegmentAccepts(), Split(p, '/'), Names(t))
            && !EndsDoubled(Split(p, '/'))
            && (AllGlobstar(Split(p, '/')) ==> OneLine(t))
  {
    hide MatchSeq, Compile, Grouped, GlobMatch, Names, FlatSegs, SplitFrom;
    var segs := Split(p, '/');
    GroupedPattern(p, t);
    FlatIsOneName(segs);
    if Grouped(SegmentAccepts(), segs, t) {
      GroupsAreNames(SegmentAccepts(), segs, t);
    }
    if GlobMatch(SegmentAccepts(), segs, Names(t)) {
      NamesAreGroups(SegmentAccepts(), segs, t);
    }
  }

  lemma PatternIsCompiled(p: string, t: string)
    requires Normal(t) && GlobMatch(SegmentAccepts(), Split(p, '/'), Names(t)) && !EndsDoubled(Split(p, '/'))
    requires AllGlobstar(Split(p, '/')) ==> OneLine(t)
    ensures MatchSeq(Compile(p), t)
  {
    NamesAreGroups(SegmentAccepts(), Split(p, '/'), t);
    GroupedPattern(p, t);
  }
}
