/** The glob compiler against the meaning of globs, for whole patterns and whole paths. */
module GlobMeaning {
  import opened Paths
  import opened Regex
  import opened Globstar
  import opened GlobSplit
  import opened GlobCompile
  import opened GlobReference
  import opened GlobGroups
  import opened GlobWildcard
  import opened GlobLanguage

  predicate WellFormedSegs(segs: seq<string>) {
    forall i | 0 <= i < |segs| :: segs[i] == STARSTAR || WellFormed(segs[i])
  }

  lemma {:induction false} SameMeaning(f: (string, string) -> bool, g: (string, string) -> bool, segs: seq<string>,
      names: seq<string>)
    requires forall i, n {:trigger f(segs[i], n)} {:trigger g(segs[i], n)} ::
               0 <= i < |segs| && segs[i] != STARSTAR ==> f(segs[i], n) == g(segs[i], n)
    ensures GlobMatch(f, segs, names) == GlobMatch(g, segs, names)
    decreases |segs|, |names|
  {
    if segs != [] {
      forall i, n {:trigger f(segs[1..][i], n)} {:trigger g(segs[1..][i], n)} |
        0 <= i < |segs[1..]| && segs[1..][i] != STARSTAR
        ensures f(segs[1..][i], n) == g(segs[1..][i], n)
      {
        assert segs[1..][i] == segs[i + 1];
      }
      if segs[0] == STARSTAR {
        SameMeaning(f, g, segs[1..], names);
        if names != [] {
          SameMeaning(f, g, segs, names[1..]);
        }
      } else if names != [] {
        SameMeaning(f, g, segs[1..], names[1..]);
      }
    }
  }

  predicate FlatTexts(segs: seq<string>) {
    forall i | 0 <= i < |segs| :: segs[i] == STARSTAR || FlatText(segs[i])
  }

  lemma SegmentsMean(segs: seq<string>, names: seq<string>)
    requires WellFormedSegs(segs)
    ensures GlobMatch(SegmentAccepts(), segs, names) == GlobMatch(WildMatch, segs, names)
  {
    forall i, n {:trigger SegmentAccepts()(segs[i], n)} | 0 <= i < |segs| && segs[i] != STARSTAR
      ensures SegmentAccepts()(segs[i], n) == WildMatch(segs[i], n)
    {
      SegmentMeaning(segs[i], n);
    }
    SameMeaning(SegmentAccepts(), WildMatch, segs, names);
  }

  lemma {:induction false} SameGroups(f: (string, string) -> bool, g: (string, string) -> bool, segs: seq<string>,
      t: string)
    requires forall i, n {:trigger f(segs[i], n)} {:trigger g(segs[i], n)} ::
               0 <= i < |segs| && segs[i] != STARSTAR ==> f(segs[i], n) == g(segs[i], n)
    ensures Grouped(f, segs, t) == Grouped(g, segs, t)
    decreases |segs|, |t|
  {
    hide FirstSep, IsSep;
    if segs != [] {
      forall i, n {:trigger f(segs[1..][i], n)} {:trigger g(segs[1..][i], n)} |
        0 <= i < |segs[1..]| && segs[1..][i] != STARSTAR
        ensures f(segs[1..][i], n) == g(segs[1..][i], n)
      {
        assert segs[1..][i] == segs[i + 1];
      }
      if segs[0] == STARSTAR {
        SameGroups(f, g, segs[1..], t);
        if t != "" {
          SameGroups(f, g, segs, Rest(t, FirstSep(t)));
        }
      } else {
        forall k: nat | Boundary(t, k)
          ensures Grouped(f, segs[1..], Rest(t, k)) == Grouped(g, segs[1..], Rest(t, k))
        {
          SameGroups(f, g, segs[1..], Rest(t, k));
        }
      }
    }
  }

  ghost function Accepting(): (string, string) -> bool {
    (s, u) => AcceptsSeg(s, u)
  }

  /** Every pattern on every normalised path: a globstar takes whole names, any other segment takes one or
      more of them, with the two exceptions. */
  lemma GroupMeaning(p: string, t: string)
    requires Normal(t)
    ensures MatchSeq(Compile(p), t) <==>
            && Grouped(Accepting(), Split(p, '/'), t)
            && !EndsDoubled(Split(p, '/'))
            && (AllGlobstar(Split(p, '/')) ==> OneLine(t))
  {
    hide MatchSeq, Compile, Grouped, SplitFrom, CompileSeg, AcceptsSeg;
    var segs := Split(p, '/');
    GroupedPattern(p, t);
    forall i, n {:trigger SegmentAccepts()(segs[i], n)} {:trigger Accepting()(segs[i], n)} |
      0 <= i < |segs| && segs[i] != STARSTAR
      ensures SegmentAccepts()(segs[i], n) == Accepting()(segs[i], n)
    {
      SegmentLanguage(segs[i], n);
    }
    SameGroups(SegmentAccepts(), Accepting(), segs, t);
  }

  /** For well-formed segments, what one of them takes is what its wildcards, classes and expanded braces say. */
  lemma WellFormedGroups(p: string, t: string)
    requires Normal(t) && WellFormedSegs(Split(p, '/'))
    ensures MatchSeq(Compile(p), t) <==>
            && Grouped(WildMatch, Split(p, '/'), t)
            && !EndsDoubled(Split(p, '/'))
            && (AllGlobstar(Split(p, '/')) ==> OneLine(t))
  {
    hide MatchSeq, Compile, Grouped, SplitFrom, CompileSeg, WildMatch, WellFormed;
    var segs := Split(p, '/');
    GroupedPattern(p, t);
    forall i, n {:trigger SegmentAccepts()(segs[i], n)} | 0 <= i < |segs| && segs[i] != STARSTAR
      ensures SegmentAccepts()(segs[i], n) == WildMatch(segs[i], n)
    {
      SegmentMeaning(segs[i], n);
    }
    SameGroups(SegmentAccepts(), WildMatch, segs, t);
  }

  /** A well-formed pattern accepts every normalised path that it matches segment by segment, with
      exactly two exceptions, whether or not its segments can match a separator. */
  lemma MeaningIsCompiled(p: string, t: string)
    requires Normal(t) && WellFormedSegs(Split(p, '/')) && GlobMatch(WildMatch, Split(p, '/'), Names(t))
    ensures !EndsDoubled(Split(p, '/')) && (AllGlobstar(Split(p, '/')) ==> OneLine(t)) ==> MatchSeq(Compile(p), t)
  {
    SegmentsMean(Split(p, '/'), Names(t));
    if !EndsDoubled(Split(p, '/')) && (AllGlobstar(Split(p, '/')) ==> OneLine(t)) {
      PatternIsCompiled(p, t);
    }
  }

  /** The compiled expression of a well-formed pattern whose segments cannot match a separator accepts a
      normalised path iff matching the pattern segment by segment does, with exactly two exceptions. */
  lemma GlobMeaning(p: string, t: string)
    requires Normal(t) && WellFormedSegs(Split(p, '/')) && FlatTexts(Split(p, '/'))
    ensures MatchSeq(Compile(p), t) <==>
            && GlobMatch(WildMatch, Split(p, '/'), Names(t))
            && !EndsDoubled(Split(p, '/'))
            && (AllGlobstar(Split(p, '/')) ==> OneLine(t))
  {
    var segs := Split(p, '/');
    forall i | 0 <= i < |segs| && segs[i] != STARSTAR ensures FlatSeq(CompileSeg(segs[i])) {
      FlatTextExact(segs[i]);
    }
    CompiledPattern(p, t);
    SegmentsMean(segs, Names(t));
  }

  // ---------- patterns without braces, brackets and backslashes ----------

  predicate PlainChar(c: char) {
    c != '{' && c != '}' && c != '[' && c != ']' && c != '\\'
  }

  predicate Plain(s: string) {
    forall i | 0 <= i < |s| :: PlainChar(s[i])
  }

  lemma {:induction false} PlainSegment(s: string)
    requires Plain(s) && Lacks(s, '/')
    ensures WellFormed(s) && FlatText(s)
  {
    if s != "" {
      PlainSegment(s[1..]);
    }
  }

  lemma {:induction false} PlainSplit(p: string, cur: string, i: nat)
    requires Plain(p) && Plain(cur) && Lacks(cur, '/')
    requires i < |SplitFrom(p, '/', cur, OUTSIDE)|
    ensures Plain(SplitFrom(p, '/', cur, OUTSIDE)[i]) && Lacks(SplitFrom(p, '/', cur, OUTSIDE)[i], '/')
    decreases |p|
  {
    if p != "" {
      if p[0] == '/' {
        if i > 0 {
          PlainSplit(p[1..], "", i - 1);
        }
      } else {
        PlainSplit(p[1..], cur + [p[0]], i);
      }
    }
  }

  lemma PlainSegments(p: string)
    requires Plain(p)
    ensures WellFormedSegs(Split(p, '/')) && FlatTexts(Split(p, '/'))
    ensures forall i | 0 <= i < |Split(p, '/')| :: Plain(Split(p, '/')[i]) && Lacks(Split(p, '/')[i], '/')
  {
    forall i | 0 <= i < |Split(p, '/')|
      ensures Plain(Split(p, '/')[i]) && Lacks(Split(p, '/')[i], '/')
      ensures WellFormed(Split(p, '/')[i]) && FlatText(Split(p, '/')[i])
    {
      PlainSplit(p, "", i);
      PlainSegment(Split(p, '/')[i]);
    }
  }

  /** For every pattern of literals, `?`, `*` and `**`, in any arrangement. */
  lemma PlainGlobMeaning(p: string, t: string)
    requires Normal(t) && Plain(p)
    ensures MatchSeq(Compile(p), t) <==>
            && GlobMatch(WildMatch, Split(p, '/'), Names(t))
            && !EndsDoubled(Split(p, '/'))
            && (AllGlobstar(Split(p, '/')) ==> OneLine(t))
  {
    PlainSegments(p);
    GlobMeaning(p, t);
  }

  /** Plain segments joined by a separator split to themselves, when the last one is not empty. */
  lemma {:induction false} SplitJoin(ns: seq<string>, sep: char)
    requires PlainChar(sep) && forall i | 0 <= i < |ns| :: Plain(ns[i]) && Lacks(ns[i], sep)
    requires ns != [] ==> ns[|ns| - 1] != ""
    ensures Split(JoinBy(ns, sep), sep) == ns
  {
    if ns != [] {
      if |ns| == 1 {
        SplitAfter(ns[0], "", sep);
        assert ns[0] + "" == ns[0];
      } else {
        var more := JoinBy(ns[1..], sep);
        assert JoinBy(ns, sep) == ns[0] + ([sep] + more);
        hide JoinBy, SplitFrom;
        SplitAfter(ns[0], [sep] + more, sep);
        assert ([sep] + more)[1..] == more;
        SplitJoin(ns[1..], sep);
      }
    }
  }

  /** One trailing separator is dropped. */
  lemma {:induction false} SplitJoinTail(ns: seq<string>, sep: char)
    requires PlainChar(sep) && ns != [] && forall i | 0 <= i < |ns| :: Plain(ns[i]) && Lacks(ns[i], sep)
    ensures Split(JoinBy(ns, sep) + [sep], sep) == ns
  {
    if |ns| == 1 {
      SplitAfter(ns[0], [sep] + "", sep);
      assert ns[0] + ([sep] + "") == ns[0] + [sep];
    } else {
      var more := JoinBy(ns[1..], sep) + [sep];
      SplitAfter(ns[0], [sep] + more, sep);
      assert JoinBy(ns, sep) + [sep] == ns[0] + ([sep] + more);
      SplitJoinTail(ns[1..], sep);
    }
  }

  /** Plain text before a separator, or before the end, is the first segment. */
  lemma SplitAfter(a: string, rest: string, sep: char)
    requires PlainChar(sep) && Plain(a) && Lacks(a, sep) && (rest == "" || rest[0] == sep)
    ensures Split(a + rest, sep) == if rest != "" then [a] + Split(rest[1..], sep) else if a == "" then [] else [a]
  {
    SplitPast(a, rest, "", sep);
    assert "" + a == a;
  }

  lemma {:induction false} SplitPast(a: string, rest: string, cur: string, sep: char)
    requires Plain(a) && Lacks(a, sep)
    ensures SplitFrom(a + rest, sep, cur, OUTSIDE) == SplitFrom(rest, sep, cur + a, OUTSIDE)
    decreases |a|
  {
    if a == "" {
      assert a + rest == rest && cur + a == cur;
    } else {
      assert (a + rest)[1..] == a[1..] + rest;
      SplitPast(a[1..], rest, cur + [a[0]], sep);
      assert cur + [a[0]] + a[1..] == cur + a;
    }
  }

  // ---------- the exceptions are real ----------

  /** A name that a plain segment matches. */
  function Sample(seg: string): string {
    if seg == "" then "" else [if seg[0] == '*' || seg[0] == '?' then 'x' else seg[0]] + Sample(seg[1..])
  }

  lemma {:induction false} SampleMatches(seg: string)
    requires Plain(seg) && Lacks(seg, '/')
    ensures WildMatch(seg, Sample(seg)) && SepFree(Sample(seg)) && |Sample(seg)| == |seg|
  {
    if seg != "" {
      var rest := Sample(seg[1..]);
      SampleMatches(seg[1..]);
      assert Sample(seg)[1..] == rest;
      if seg[0] == '*' {
        assert WildMatch(seg, rest);
      }
    }
  }

  /** Sample names for the segments that are not globstars. */
  function Samples(segs: seq<string>): seq<string> {
    if segs == [] then []
    else if segs[0] == STARSTAR then Samples(segs[1..])
    else [Sample(segs[0])] + Samples(segs[1..])
  }

  lemma {:induction false} SamplesMatch(segs: seq<string>)
    requires forall i | 0 <= i < |segs| :: Plain(segs[i]) && Lacks(segs[i], '/')
    ensures GlobMatch(WildMatch, segs, Samples(segs))
    ensures Samples(segs) == [] <==> AllGlobstar(segs)
    ensures forall i | 0 <= i < |Samples(segs)| :: SepFree(Samples(segs)[i])
    ensures (forall i | 0 <= i < |segs| :: segs[i] != "") ==>
            forall i | 0 <= i < |Samples(segs)| :: Samples(segs)[i] != ""
  {
    if segs != [] {
      SamplesMatch(segs[1..]);
      SampleMatches(segs[0]);
      assert AllGlobstar(segs) <==> segs[0] == STARSTAR && AllGlobstar(segs[1..]);
      if segs[0] != STARSTAR {
        assert Samples(segs)[1..] == Samples(segs[1..]);
      }
    }
  }

  lemma {:induction false} NormalJoin(ns: seq<string>, sep: char)
    requires IsSep(sep) && ns != [] && forall i | 0 <= i < |ns| :: SepFree(ns[i]) && ns[i] != ""
    ensures Normal(JoinBy(ns, sep))
  {
    if |ns| > 1 {
      var r := JoinBy(ns[1..], sep);
      NormalJoin(ns[1..], sep);
      var w := JoinBy(ns, sep);
      var k := |ns[0]| + 1;
      assert w[..k - 1] == ns[0] && w[k..] == r && w[0] == ns[0][0];
      NormalCons(w, k);
    }
  }

  /** A plain pattern of non-empty segments, not all globstars, means the same compiled and by
      reference on every normalised path iff it does not end in a doubled globstar. */
  lemma DoubledGlobstarExact(p: string)
    requires Plain(p) && !AllGlobstar(Split(p, '/')) && forall i | 0 <= i < |Split(p, '/')| :: Split(p, '/')[i] != ""
    ensures (forall t | Normal(t) :: MatchSeq(Compile(p), t) == GlobMatch(WildMatch, Split(p, '/'), Names(t)))
            <==> !EndsDoubled(Split(p, '/'))
  {
    var segs := Split(p, '/');
    forall t | Normal(t)
      ensures MatchSeq(Compile(p), t) <==> GlobMatch(WildMatch, segs, Names(t)) && !EndsDoubled(segs)
    {
      PlainGlobMeaning(p, t);
    }
    PlainSegments(p);
    SamplesMatch(segs);
    var t := JoinBy(Samples(segs), '/');
    NormalJoin(Samples(segs), '/');
    NamesOfJoin(Samples(segs), '/');
    assert Normal(t) && GlobMatch(WildMatch, segs, Names(t));
  }

  // A final pair of globstars refuses the folder itself, although each may consume zero names.
  lemma DoubledGlobstarFails(p: string, t: string)
    requires p == "a/**/**" && t == "a"
    ensures Normal(t) && !MatchSeq(Compile(p), t) && GlobMatch(WildMatch, Split(p, '/'), Names(t))
  {
    hide MatchSeq, Compile;
    var segs := [t, STARSTAR, STARSTAR];
    assert p == JoinBy(segs, '/') by {
      assert segs[1..] == [STARSTAR, STARSTAR] && JoinBy(segs[1..], '/') == "**/**";
    }
    SplitJoin(segs, '/');
    PlainGlobMeaning(p, t);
    assert t[..1] == t;
    FirstSepUnique(t, 1);
    assert WildMatch(t, t) by { assert t[1..] == ""; }
    NeedsName(WildMatch, segs[1..]);
  }

  lemma NegatedClassText(p: string)
    requires p == "x[!a]y"
    ensures WellFormed(p) && WildMatch(p, "x/y")
  {
    var r := p[1..];
    assert r == "[!a]y";
    assert IndexFrom(r, ']', 3) == 3;
    assert r[4..] == "y";
    assert r[1..3] == "!a";
    assert WellFormed("y") && WellFormed(r);
    assert InList("a", '/') == false && "!a"[1..] == "a";
    assert WildMatch("y", "y");
    assert "/y"[1..] == "y";
    assert WildMatch(r, "/y");
    assert "x/y"[1..] == "/y";
  }

  /** A negated class accepts a separator, so asking for flat segments is a real condition. */
  lemma NegatedClassCrosses(p: string, t: string)
    requires p == "x[!a]y" && t == "x/y"
    ensures WellFormedSegs(Split(p, '/')) && !FlatTexts(Split(p, '/')) && Normal(t)
    ensures MatchSeq(Compile(p), t) && !GlobMatch(WildMatch, Split(p, '/'), Names(t))
  {
    hide MatchSeq, WildMatch, SplitFrom;
    NegatedClassText(p);
    SegmentMeaning(p, t);
    CompileWellFormed(p);
    WellFormedLacksSlash(p);
    LackingIsWhole(p, '/', OUTSIDE);
    WholeSplits(p, '/', "", OUTSIDE);
    assert "" + p == p;
    assert IsSep(t[1]);
    FlatTextExact(p);
    if FlatSeq(CompileSeg(p)) {
      FlatSeqSound(CompileSeg(p), t);
    }
    assert FirstSep(t) == 1 && Names(t)[1..] != [];
  }

  /** A globstar alone matches exactly the strings on one line. */
  lemma LoneGlobstar(t: string)
    ensures MatchSeq(Compile("**"), t) <==>
            forall i | 0 <= i < |t| :: t[i] != '\n' && t[i] != '\r' && t[i] != '\U{2028}' && t[i] != '\U{2029}'
  {
    hide MatchSeq, Compile;
    assert Plain("**") && Lacks("**", '/');
    assert JoinBy(["**"], '/') == "**";
    SplitJoin(["**"], '/');
    assert Split("**", '/') == [STARSTAR];
    PatternLanguage("**", t);
  }

  /** A globstar alone does not match beyond the end of a line. */
  lemma LineEndStops()
    ensures var t := "a\nb";
            Normal(t) && GlobMatch(WildMatch, Split("**", '/'), Names(t)) && !MatchSeq(Compile("**"), t)
  {
    hide MatchSeq, WildMatch;
    var t := "a\nb";
    assert !OneLine(t) by { assert t[1] == '\n'; }
    assert Plain("**") && Lacks("**", '/');
    assert JoinBy(["**"], '/') == "**";
    SplitJoin(["**"], '/');
    assert Split("**", '/') == [STARSTAR];
    GlobstarAlone(WildMatch, Names(t));
    PlainGlobMeaning("**", t);
  }
}
