/** What any pattern accepts of any string: no condition on the pattern or on the string. */
module GlobLanguage {
  import opened Paths
  import opened Regex
  import opened Globstar
  import opened GlobSplit
  import opened GlobCompile
  import opened GlobReference
  import opened GlobWildcard

  /** A separator stands behind the first segment. */
  predicate SepFollows(segs: seq<string>) {
    |segs| > 1 && (segs[1] != STARSTAR || |segs| > 2)
  }

  /** A whole pattern. */
  ghost predicate Accepts(p: string, u: string)
    decreases |p|, 3, |u|
  {
    if p == "" then u == "" else
      var segs := Split(p, '/');
      if AllGlobstar(segs) then OneLine(u) else AcceptsSegs(segs, false, u)
  }

  /** The segments from here on: a globstar takes whatever is no normalised path. */
  ghost predicate AcceptsSegs(segs: seq<string>, prev: bool, u: string)
    decreases Total(segs), 2, |segs|
  {
    if segs == [] then u == ""
    else if segs[0] == STARSTAR then
      if prev then AcceptsSegs(segs[1..], true, u)
      else exists k {:trigger Cut(u, k)} | 0 <= k <= |u| ::
          Cut(u, k) && !Normal(u[..k]) && AcceptsSegs(segs[1..], true, u[k..])
    else if SepFollows(segs) then
      exists k {:trigger Cut(u, k)} | 0 <= k < |u| ::
        Cut(u, k) && IsSep(u[k]) && AcceptsSeg(segs[0], u[..k]) && AcceptsSegs(segs[1..], false, u[k + 1..])
    else
      exists k {:trigger Cut(u, k)} | 0 <= k <= |u| ::
        Cut(u, k) && AcceptsSeg(segs[0], u[..k]) && AcceptsSegs(segs[1..], false, u[k..])
  }

  /** One segment. A brace or class that is not closed drops what follows it; outside of them a closing
      brace adds nothing and a closing bracket cannot match. */
  ghost predicate AcceptsSeg(s: string, u: string)
    decreases |s|, 1, |u|
  {
    if s == "" then u == ""
    else if s[0] == '{' then
      var e := BraceEnd(s);
      if e == |s| then u == "" else
        var cs := Choices(s[1..e]);
        exists i, k {:trigger cs[i], Cut(u, k)} | 0 <= i < |cs| && 0 <= k <= |u| ::
          Cut(u, k) && Accepts(cs[i], u[..k]) && AcceptsSeg(s[e + 1..], u[k..])
    else if s[0] == '[' then
      var e := ClassClose(s);
      if e == |s| then u == "" else
        var b := NoSlash(s[1..e]);
        u != "" && b != "" && InBody(b, u[0]) && AcceptsSeg(s[e + 1..], u[1..])
    else if s[0] == '*' then
      AcceptsSeg(s[1..], u) || (u != "" && !IsSep(u[0]) && AcceptsSeg(s, u[1..]))
    else if s[0] == '?' then u != "" && !IsSep(u[0]) && AcceptsSeg(s[1..], u[1..])
    else if s[0] == '}' then AcceptsSeg(s[1..], u)
    else if s[0] == ']' then false
    else u != "" && u[0] == s[0] && AcceptsSeg(s[1..], u[1..])
  }

  // ---------- the compiled expression ----------

  /** The compiled expression of any pattern accepts exactly these strings. */
  lemma {:induction false} PatternLanguage(p: string, u: string)
    ensures MatchSeq(Compile(p), u) <==> Accepts(p, u)
    decreases |p|, 3, |u|
  {
    if p != "" {
      hide CompileSegs, AcceptsSegs;
      if AllGlobstar(Split(p, '/')) {
        MatchOne(ANYTHING, u);
        AnythingOnOneLine(u);
      } else {
        SegmentsLanguage(Split(p, '/'), false, u);
      }
    }
  }

  lemma {:induction false} SegmentsLanguage(segs: seq<string>, prev: bool, u: string)
    ensures MatchSeq(CompileSegs(segs, prev), u) <==> AcceptsSegs(segs, prev, u)
    decreases Total(segs), 2, |segs|
  {
    if segs != [] {
      var next := segs[0] == STARSTAR;
      forall k | 0 <= k <= |u|
        ensures MatchSeq(CompileSegs(segs[1..], next), u[k..]) <==> AcceptsSegs(segs[1..], next, u[k..])
      {
        SegmentsLanguage(segs[1..], next, u[k..]);
      }
      if next {
        GlobstarThen(segs, prev, u);
      } else {
        forall k | 0 <= k <= |u| ensures MatchSeq(CompileSeg(segs[0]), u[..k]) <==> AcceptsSeg(segs[0], u[..k]) {
          SegmentLanguage(segs[0], u[..k]);
        }
        SegmentThen(segs, prev, u);
      }
    }
  }

  lemma GlobstarThen(segs: seq<string>, prev: bool, u: string)
    requires segs != [] && segs[0] == STARSTAR
    requires forall k | 0 <= k <= |u| ::
               MatchSeq(CompileSegs(segs[1..], true), u[k..]) <==> AcceptsSegs(segs[1..], true, u[k..])
    ensures MatchSeq(CompileSegs(segs, prev), u) <==> AcceptsSegs(segs, prev, u)
  {
    var rest := CompileSegs(segs[1..], true);
    if prev {
      assert [] + rest == rest;
      assert CompileSegs(segs, prev) == [] + rest;
      assert u[0..] == u;
    } else {
      assert CompileSegs(segs, prev) == [GLOBSTAR] + rest;
      hide MatchSeq, MatchNode, CompileSegs, Normal;
      if MatchSeq([GLOBSTAR] + rest, u) {
        var k := SkipLength(rest, u);
        GlobstarLanguage(u[..k]);
        assert Cut(u, k);
      }
      if AcceptsSegs(segs, prev, u) {
        var k :| 0 <= k <= |u| && Cut(u, k) && !Normal(u[..k]) && AcceptsSegs(segs[1..], true, u[k..]);
        GlobstarLanguage(u[..k]);
        SkipBy(rest, u, k);
      }
    }
  }

  lemma SegmentThen(segs: seq<string>, prev: bool, u: string)
    requires segs != [] && segs[0] != STARSTAR
    requires forall k | 0 <= k <= |u| ::
               MatchSeq(CompileSegs(segs[1..], false), u[k..]) <==> AcceptsSegs(segs[1..], false, u[k..])
    requires forall k | 0 <= k <= |u| :: MatchSeq(CompileSeg(segs[0]), u[..k]) <==> AcceptsSeg(segs[0], u[..k])
    ensures MatchSeq(CompileSegs(segs, prev), u) <==> AcceptsSegs(segs, prev, u)
  {
    var seg, rest := CompileSeg(segs[0]), CompileSegs(segs[1..], false);
    CompiledFirst(segs, prev);
    UnfoldSegs(segs, prev, u);
    hide CompileSegs, CompileSeg, MatchSeq, AcceptsSeg, AcceptsSegs;
    if SepFollows(segs) {
      SepThen(seg, rest, u);
      assert forall k | 0 <= k < |u| && IsSep(u[k]) ::
          SepAt(seg, rest, u, k) <==> AcceptsSeg(segs[0], u[..k]) && AcceptsSegs(segs[1..], false, u[k + 1..]);
      if k :| SepAt(seg, rest, u, k) {
        assert Cut(u, k);
      }
    } else {
      if MatchSeq(seg + rest, u) {
        var k := ConcatElim(seg, rest, u);
        assert Cut(u, k);
      }
      if k :| 0 <= k <= |u| && Cut(u, k) && AcceptsSeg(segs[0], u[..k]) && AcceptsSegs(segs[1..], false, u[k..]) {
        ConcatIntro(seg, rest, u, k);
      }
    }
  }

  lemma CompiledFirst(segs: seq<string>, prev: bool)
    requires segs != [] && segs[0] != STARSTAR
    ensures var seg, rest := CompileSeg(segs[0]), CompileSegs(segs[1..], false);
            CompileSegs(segs, prev) == if SepFollows(segs) then seg + ([One(Sep)] + rest) else seg + rest
  {
    hide CompileSeg;
    var seg, rest := CompileSeg(segs[0]), CompileSegs(segs[1..], false);
    assert CompileSegs(segs, prev) == seg + TailSep(segs) + rest;
    Assoc(seg, TailSep(segs), rest);
    assert [] + rest == rest;
  }

  lemma UnfoldSegs(segs: seq<string>, prev: bool, u: string)
    requires segs != [] && segs[0] != STARSTAR
    ensures SepFollows(segs) ==>
              (AcceptsSegs(segs, prev, u) <==>
               exists k {:trigger Cut(u, k)} | 0 <= k < |u| ::
                 Cut(u, k) && IsSep(u[k]) && AcceptsSeg(segs[0], u[..k]) && AcceptsSegs(segs[1..], false, u[k + 1..]))
    ensures !SepFollows(segs) ==>
              (AcceptsSegs(segs, prev, u) <==>
               exists k {:trigger Cut(u, k)} | 0 <= k <= |u| ::
                 Cut(u, k) && AcceptsSeg(segs[0], u[..k]) && AcceptsSegs(segs[1..], false, u[k..]))
  {
    hide AcceptsSeg;
  }

  /** The string is cut at a separator between the segment and the rest. */
  predicate SepAt(seg: seq<Node>, rest: seq<Node>, u: string, k: int) {
    0 <= k < |u| && IsSep(u[k]) && MatchSeq(seg, u[..k]) && MatchSeq(rest, u[k + 1..])
  }

  lemma SepThen(seg: seq<Node>, rest: seq<Node>, u: string)
    ensures MatchSeq(seg + ([One(Sep)] + rest), u) <==> exists k :: SepAt(seg, rest, u, k)
  {
    hide MatchSeq;
    if MatchSeq(seg + ([One(Sep)] + rest), u) {
      var k := ConcatElim(seg, [One(Sep)] + rest, u);
      MatchHead(Sep, rest, u[k..]);
      assert u[k..][1..] == u[k + 1..];
      assert SepAt(seg, rest, u, k);
    }
    if k :| SepAt(seg, rest, u, k) {
      assert u[k..][1..] == u[k + 1..];
      MatchHead(Sep, rest, u[k..]);
      ConcatIntro(seg, [One(Sep)] + rest, u, k);
    }
  }

  lemma {:induction false} SegmentLanguage(s: string, u: string)
    ensures MatchSeq(CompileSeg(s), u) <==> AcceptsSeg(s, u)
    decreases |s|, 1, |u|
  {
    if s == "" {
    } else if s[0] == '{' {
      BraceLanguage(s, u);
    } else if s[0] == '[' {
      CompileClassText(s);
      var e := ClassClose(s);
      if e < |s| && u != "" {
        SegmentLanguage(s[e + 1..], u[1..]);
      }
      ClassLanguage(s, u);
    } else {
      if s[0] == '*' {
        SegmentLanguage(s[1..], u);
        if u != "" {
          SegmentLanguage(s, u[1..]);
        }
      } else if s[0] == '}' {
        SegmentLanguage(s[1..], u);
      } else if u != "" && s[0] != ']' {
        SegmentLanguage(s[1..], u[1..]);
      }
      CharLanguage(s, u);
    }
  }

  lemma ClassLanguage(s: string, u: string)
    requires s != "" && s[0] == '['
    requires ClassClose(s) < |s| && u != "" ==>
               (MatchSeq(CompileSeg(s[ClassClose(s) + 1..]), u[1..]) <==> AcceptsSeg(s[ClassClose(s) + 1..], u[1..]))
    ensures MatchSeq(CompileSeg(s), u) <==> AcceptsSeg(s, u)
  {
    hide CompileSeg, AcceptsSeg, NoSlash, ClassClose, ClassOf, InBody, InBrackets, BodyToks, MatchSeq;
    CompileClassText(s);
    UnfoldClass(s, u);
    var e := ClassClose(s);
    if e < |s| {
      ClassThen(NoSlash(s[1..e]), CompileSeg(s[e + 1..]), u);
    } else {
      NoNodes(u);
    }
  }

  lemma ClassThen(b: string, rest: seq<Node>, u: string)
    requires b != ""
    ensures MatchSeq([One(Class(ClassOf(b)))] + rest, u) <==> u != "" && InBody(b, u[0]) && MatchSeq(rest, u[1..])
  {
    hide ClassOf, InBody, InClass, MatchSeq;
    MatchHead(Class(ClassOf(b)), rest, u);
    if u != "" {
      ClassIsBody(b, u[0]);
    }
  }

  lemma NoNodes(u: string)
    ensures MatchSeq([], u) <==> u == ""
  {
  }

  lemma UnfoldClass(s: string, u: string)
    requires s != "" && s[0] == '['
    ensures var e := ClassClose(s);
            AcceptsSeg(s, u) <==>
            if e == |s| then u == "" else
              u != "" && NoSlash(s[1..e]) != "" && InBody(NoSlash(s[1..e]), u[0]) && AcceptsSeg(s[e + 1..], u[1..])
  {
    hide NoSlash, ClassClose, InBody;
  }

  lemma CharLanguage(s: string, u: string)
    requires s != "" && s[0] != '{' && s[0] != '['
    requires s[0] == '*' || s[0] == '}' ==> (MatchSeq(CompileSeg(s[1..]), u) <==> AcceptsSeg(s[1..], u))
    requires s[0] == '*' && u != "" ==> (MatchSeq(CompileSeg(s), u[1..]) <==> AcceptsSeg(s, u[1..]))
    requires s[0] != '*' && s[0] != '}' && s[0] != ']' && u != "" ==>
               (MatchSeq(CompileSeg(s[1..]), u[1..]) <==> AcceptsSeg(s[1..], u[1..]))
    ensures MatchSeq(CompileSeg(s), u) <==> AcceptsSeg(s, u)
  {
    var rest := CompileSeg(s[1..]);
    assert CompileSeg(s) == CompileChar(s[0]) + rest;
    if s[0] == '*' {
      assert CompileChar(s[0]) == [NAME_RUN];
      hide CompileSeg, MatchSeq;
      NameRunThen(rest, u);
    } else if s[0] == '}' {
      hide CompileSeg, MatchSeq;
      NothingThen(rest, u);
    } else if s[0] == ']' {
      hide CompileSeg, MatchSeq;
      MatchHead(Class([]), rest, u);
    } else if s[0] == '?' {
      hide CompileSeg, MatchSeq;
      MatchHead(NoSep, rest, u);
    } else {
      assert CompileChar(s[0]) == [One(Lit(s[0]))];
      hide CompileSeg, MatchSeq;
      MatchHead(Lit(s[0]), rest, u);
    }
  }

  /** A choice between nothing else than the empty text. */
  lemma NothingThen(rest: seq<Node>, u: string)
    ensures MatchSeq([Choice([])] + rest, u) <==> MatchSeq(rest, u)
  {
    var node := Choice([]);
    assert node.alts == [Cat([])];
    AltThen([[]], node, rest, u);
    assert [] + rest == rest && [[]][0] + rest == rest;
  }

  lemma {:induction false} BraceLanguage(s: string, u: string)
    requires s != "" && s[0] == '{'
    ensures MatchSeq(CompileSeg(s), u) <==> AcceptsSeg(s, u)
    decreases |s|, 0, |u|
  {
    var e := BraceEnd(s);
    if e == |s| {
      OpenBrace("", s[1..]);
      assert CompileSeg(s) == InBraces("", s[1..]);
    } else {
      var cs := Choices(s[1..e]);
      forall i, k | 0 <= i < |cs| && 0 <= k <= |u|
        ensures MatchSeq(Compile(cs[i]), u[..k]) <==> Accepts(cs[i], u[..k])
      {
        PatternLanguage(cs[i], u[..k]);
      }
      forall k | 0 <= k <= |u| ensures MatchSeq(CompileSeg(s[e + 1..]), u[k..]) <==> AcceptsSeg(s[e + 1..], u[k..]) {
        SegmentLanguage(s[e + 1..], u[k..]);
      }
      BraceThen(s, u, e);
    }
  }

  lemma BraceThen(s: string, u: string, e: nat)
    requires s != "" && s[0] == '{' && e == BraceEnd(s) < |s|
    requires var cs := Choices(s[1..e]);
             forall i, k | 0 <= i < |cs| && 0 <= k <= |u| ::
               MatchSeq(Compile(cs[i]), u[..k]) <==> Accepts(cs[i], u[..k])
    requires forall k | 0 <= k <= |u| :: MatchSeq(CompileSeg(s[e + 1..]), u[k..]) <==> AcceptsSeg(s[e + 1..], u[k..])
    ensures MatchSeq(CompileSeg(s), u) <==> AcceptsSeg(s, u)
  {
    var body, cs, rest := s[1..e], Choices(s[1..e]), CompileSeg(s[e + 1..]);
    CompileBrace(s);
    UnfoldBrace(s, u);
    hide Compile, CompileSeg, CompileChoices, MatchSeq, Choices, BraceEnd, Accepts, AcceptsSeg;
    ChoiceThen(body, rest, u);
    if i :| 0 <= i < |cs| && MatchSeq(Compile(cs[i]) + rest, u) {
      var k := ConcatElim(Compile(cs[i]), rest, u);
      assert Cut(u, k) && Accepts(cs[i], u[..k]) && AcceptsSeg(s[e + 1..], u[k..]);
    }
    if i, k :| 0 <= i < |cs| && 0 <= k <= |u| && Cut(u, k) && Accepts(cs[i], u[..k]) && AcceptsSeg(s[e + 1..], u[k..]) {
      ConcatIntro(Compile(cs[i]), rest, u, k);
    }
  }

  lemma UnfoldBrace(s: string, u: string)
    requires s != "" && s[0] == '{' && BraceEnd(s) < |s|
    ensures var e := BraceEnd(s);
            var cs := Choices(s[1..e]);
            AcceptsSeg(s, u) <==>
            exists i, k {:trigger cs[i], Cut(u, k)} | 0 <= i < |cs| && 0 <= k <= |u| ::
              Cut(u, k) && Accepts(cs[i], u[..k]) && AcceptsSeg(s[e + 1..], u[k..])
  {
    hide Accepts, Choices, BraceEnd;
  }

  // ---------- stray closing brackets ----------

  /** The segment has a closing bracket outside of braces and classes that is reached. */
  predicate Stray(s: string) {
    if s == "" then false
    else if s[0] == '{' then BraceEnd(s) < |s| && Stray(s[BraceEnd(s) + 1..])
    else if s[0] == '[' then ClassClose(s) < |s| && Stray(s[ClassClose(s) + 1..])
    else s[0] == ']' || Stray(s[1..])
  }

  lemma {:induction false} StraySegment(s: string, u: string)
    requires Stray(s)
    ensures !AcceptsSeg(s, u)
    decreases |s|, |u|
  {
    hide Choices, BraceEnd, ClassClose, NoSlash, InBody, Accepts;
    if s[0] == '{' {
      forall k | 0 <= k <= |u| ensures !AcceptsSeg(s[BraceEnd(s) + 1..], u[k..]) {
        StraySegment(s[BraceEnd(s) + 1..], u[k..]);
      }
    } else if s[0] == '[' {
      if u != "" {
        StraySegment(s[ClassClose(s) + 1..], u[1..]);
      }
    } else if s[0] != ']' {
      StraySegment(s[1..], u);
      if u != "" {
        StraySegment(s[1..], u[1..]);
        if s[0] == '*' {
          StraySegment(s, u[1..]);
        }
      }
    }
  }

  lemma {:induction false} StraySegments(segs: seq<string>, prev: bool, u: string, i: nat)
    requires i < |segs| && segs[i] != STARSTAR && Stray(segs[i])
    ensures !AcceptsSegs(segs, prev, u)
    decreases |segs|
  {
    hide AcceptsSeg, Stray, Normal;
    if i == 0 {
      forall k | 0 <= k <= |u| ensures !AcceptsSeg(segs[0], u[..k]) {
        StraySegment(segs[0], u[..k]);
      }
    } else {
      forall prev, k | 0 <= k <= |u| ensures !AcceptsSegs(segs[1..], prev, u[k..]) {
        StraySegments(segs[1..], prev, u[k..], i - 1);
      }
      assert u[0..] == u;
    }
  }

  /** A pattern with such a segment matches no string at all. */
  lemma StrayBracketMatchesNothing(p: string, i: nat, u: string)
    requires i < |Split(p, '/')| && Split(p, '/')[i] != STARSTAR && Stray(Split(p, '/')[i])
    ensures !MatchSeq(Compile(p), u)
  {
    PatternLanguage(p, u);
    StraySegments(Split(p, '/'), false, u, i);
    assert !AllGlobstar(Split(p, '/'));
  }

  /** A closing brace that closes nothing adds nothing, wherever a segment reaches it. */
  lemma StrayBraceAddsNothing(c: string, s: string, u: string)
    requires WellFormed(c)
    ensures MatchSeq(CompileSeg(c + ("}" + s)), u) <==> MatchSeq(CompileSeg(c + s), u)
  {
    hide MatchSeq;
    CompilePrefix(c, "}" + s);
    CompilePrefix(c, s);
    StrayBraceNode(s);
    hide CompileSeg;
    assert CompileSeg("}" + s) == [Choice([])] + CompileSeg(s);
    if MatchSeq(CompileSeg(c) + ([Choice([])] + CompileSeg(s)), u) {
      var k := ConcatElim(CompileSeg(c), [Choice([])] + CompileSeg(s), u);
      NothingThen(CompileSeg(s), u[k..]);
      ConcatIntro(CompileSeg(c), CompileSeg(s), u, k);
    }
    if MatchSeq(CompileSeg(c) + CompileSeg(s), u) {
      var k := ConcatElim(CompileSeg(c), CompileSeg(s), u);
      NothingThen(CompileSeg(s), u[k..]);
      ConcatIntro(CompileSeg(c), [Choice([])] + CompileSeg(s), u, k);
    }
  }

  lemma StrayBraceNode(s: string)
    ensures CompileSeg("}" + s) == [Choice([])] + CompileSeg(s)
  {
    assert ("}" + s)[1..] == s;
  }
}
