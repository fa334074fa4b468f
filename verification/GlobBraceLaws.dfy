/** Braces against their expansions as text: when the two mean the same, and exactly when not. */
module GlobBraceLaws {
  import opened Paths
  import opened Regex
  import opened GlobSplit
  import opened GlobCompile
  import opened GlobReference
  import opened GlobGroups
  import opened GlobWildcard
  import opened GlobMeaning
  import opened GlobShapes
  import opened GlobFast
  import opened GlobLists
  import opened GlobBraces

  /** A plain pattern, as the reference reads it. */
  predicate Means(p: string, t: string) {
    && GlobMatch(WildMatch, Split(p, '/'), Names(t))
    && !EndsDoubled(Split(p, '/'))
    && (AllGlobstar(Split(p, '/')) ==> OneLine(t))
  }

  // ---------- a brace alone ----------

  lemma {:induction false} PlainPieces(p: string, sep: char, cur: string, m: Mode, i: nat)
    requires Plain(p) && Plain(cur) && i < |SplitFrom(p, sep, cur, m)|
    ensures Plain(SplitFrom(p, sep, cur, m)[i])
    decreases |p|
  {
    if p != "" {
      assert PlainChar(p[0]);
      if p[0] == sep && m.Open() {
        if i > 0 {
          PlainPieces(p[1..], sep, "", m, i - 1);
        }
      } else {
        PlainPieces(p[1..], sep, cur + [p[0]], NextMode(p[0], sep, m), i);
      }
    }
  }

  lemma PlainChoices(body: string)
    requires Plain(body)
    ensures forall i | 0 <= i < |Choices(body)| :: Plain(Choices(body)[i])
  {
    hide SplitFrom;
    forall i | 0 <= i < |Choices(body)| ensures Plain(Choices(body)[i]) {
      if Split(body, ',') != [] {
        PlainPieces(body, ',', "", OUTSIDE, i);
      }
    }
  }

  /** A pattern that is one brace means what its choices mean, whatever they are. */
  lemma WholeBrace(p: string, body: string, t: string)
    requires Normal(t) && p == "{" + body + "}" && Plain(body)
    ensures MatchSeq(Compile(p), t) <==> exists i | 0 <= i < |Choices(body)| :: Means(Choices(body)[i], t)
  {
    hide MatchSeq, Compile, CompileSeg, CompileChoices, Choices, Means, SplitFrom;
    BraceIsOneSegment(p, body);
    CompiledBrace(p, body);
    assert [Choice(CompileChoices(Split(body, ',')))] + [] == [Choice(CompileChoices(Split(body, ',')))];
    ChoiceThen(body, [], t);
    PlainChoices(body);
    forall i | 0 <= i < |Choices(body)|
      ensures MatchSeq(Compile(Choices(body)[i]) + [], t) <==> Means(Choices(body)[i], t)
    {
      assert Compile(Choices(body)[i]) + [] == Compile(Choices(body)[i]);
      PlainMeans(Choices(body)[i], t);
    }
  }

  lemma PlainMeans(p: string, t: string)
    requires Normal(t) && Plain(p)
    ensures MatchSeq(Compile(p), t) <==> Means(p, t)
  {
    PlainGlobMeaning(p, t);
  }

  // ---------- expansions ----------

  /** The pattern with a text in place of the brace. */
  function Expansion(before: seq<string>, a: string, d: string, b: string, later: seq<string>): string {
    JoinBy(before + [a + d + b] + later, '/')
  }

  lemma JoinFront(a: string, cs: seq<string>)
    requires cs != []
    ensures JoinBy([a + cs[0]] + cs[1..], '/') == a + JoinBy(cs, '/')
  {
    var g := [a + cs[0]] + cs[1..];
    assert |cs| > 1 ==> g[1..] == cs[1..];
    assert |cs| > 1 ==> (a + cs[0]) + ['/'] + JoinBy(cs[1..], '/') == a + (cs[0] + ['/'] + JoinBy(cs[1..], '/'));
  }

  lemma JoinBack(xs: seq<string>, y: string, b: string)
    ensures JoinBy(xs + [y + b], '/') == JoinBy(xs + [y], '/') + b
  {
    if xs == [] {
      assert xs + [y + b] == [y + b] && xs + [y] == [y];
    } else {
      JoinConcat(xs, [y + b], '/');
      JoinConcat(xs, [y], '/');
    }
  }

  lemma GlueJoin(a: string, cs: seq<string>, b: string)
    requires cs != []
    ensures JoinBy(Glue(a, cs, b), '/') == a + JoinBy(cs, '/') + b
  {
    if |cs| > 1 {
      var n, front := |cs| - 1, [a + cs[0]] + cs[1..];
      assert Glue(a, cs, b) == front[..n] + [cs[n] + b] && front == front[..n] + [cs[n]];
      hide Glue, JoinBy;
      JoinFront(a, cs);
      JoinBack(front[..n], cs[n], b);
    }
  }

  lemma JoinReplaced(before: seq<string>, mid: seq<string>, s: string, later: seq<string>)
    requires mid != [] && JoinBy(mid, '/') == s
    ensures JoinBy(before + mid + later, '/') == JoinBy(before + [s] + later, '/')
  {
    assert JoinBy([s], '/') == s;
    hide JoinBy;
    if later != [] {
      JoinConcat(before + mid, later, '/');
      JoinConcat(before + [s], later, '/');
    } else {
      assert before + mid + later == before + mid && before + [s] + later == before + [s];
    }
    if before != [] {
      JoinConcat(before, mid, '/');
      JoinConcat(before, [s], '/');
    } else {
      assert before + mid == mid && before + [s] == [s];
    }
  }

  /** The last segment is not empty, so that joining and splitting keeps it. */
  predicate EndsFull(g: seq<string>, later: seq<string>) {
    if later == [] then g != [] && g[|g| - 1] != "" else later[|later| - 1] != ""
  }

  lemma TextSplits(before: seq<string>, mid: seq<string>, s: string, later: seq<string>)
    requires mid != [] && JoinBy(mid, '/') == s && EndsFull(mid, later)
    requires PlainSegs(before) && PlainSegs(mid) && PlainSegs(later)
    ensures var e := JoinBy(before + [s] + later, '/'); Plain(e) && Split(e, '/') == before + mid + later
  {
    hide SplitFrom;
    var all := before + mid + later;
    JoinReplaced(before, mid, s, later);
    hide JoinBy;
    PlainSegsConcat(before, mid);
    PlainSegsConcat(before + mid, later);
    assert all[|all| - 1] == if later == [] then mid[|mid| - 1] else later[|later| - 1];
    PlainJoin(all, '/');
    SplitJoin(all, '/');
  }

  lemma ExpansionSplits(before: seq<string>, a: string, c: string, b: string, later: seq<string>)
    requires PlainText(a) && PlainText(b) && Plain(c) && PlainSegs(before) && PlainSegs(later)
    requires EndsFull(Glue(a, Fields(c), b), later)
    ensures var e := Expansion(before, a, DropSlash(c), b, later);
            Plain(e) && Split(e, '/') == before + Glue(a, Fields(c), b) + later
  {
    hide SplitFrom, Glue, Fields, JoinBy;
    FieldsArePlain(c);
    GlueIsPlain(a, c, b);
    GlueJoin(a, Fields(c), b);
    TextSplits(before, Glue(a, Fields(c), b), a + DropSlash(c) + b, later);
  }

  // ---------- plain segments, name by name ----------

  lemma PlainGroups(segs: seq<string>, t: string)
    requires Normal(t) && PlainSegs(segs)
    ensures Grouped(SegmentAccepts(), segs, t) <==> GlobMatch(WildMatch, segs, Names(t))
  {
    hide Grouped, GlobMatch, CompileSeg, WildMatch, Names, Normal;
    forall i | 0 <= i < |segs| ensures WellFormed(segs[i]) && FlatSeq(CompileSeg(segs[i])) {
      PlainSegment(segs[i]);
      FlatTextExact(segs[i]);
    }
    FlatIsOneName(segs);
    SegmentsMean(segs, Names(t));
    assert t != "" by { NotEmpty(t); }
    if Grouped(SegmentAccepts(), segs, t) {
      GroupsAreNames(SegmentAccepts(), segs, t);
    }
    if GlobMatch(SegmentAccepts(), segs, Names(t)) {
      NamesAreGroups(SegmentAccepts(), segs, t);
    }
  }

  lemma NotEmpty(t: string)
    requires Normal(t)
    ensures t != ""
  {
  }

  /** The doubled globstars that the brace sees are those that its expansion sees. */
  predicate Guards(g: seq<string>, later: seq<string>) {
    (TailDoubled(g) || TailDoubled(later)) <==> TailDoubled(g + later)
  }

  lemma ExpandedGuard(before: seq<string>, g: seq<string>, later: seq<string>)
    requires !AllGlobstar(g)
    ensures !AllGlobstar(before + g + later)
    ensures EndsDoubled(before + g + later) <==> TailDoubled(g + later)
    ensures EndsLoose(g) <==> TailDoubled(g)
  {
    var all, gl := before + g + later, g + later;
    var i :| 0 <= i < |g| && g[i] != STARSTAR;
    assert all[|before| + i] == g[i] && gl[i] == g[i];
    assert all[|all| - 1] == gl[|gl| - 1];
    assert |gl| >= 2 ==> all[|all| - 2] == gl[|gl| - 2];
  }

  /** A choice in its place, name by name. */
  lemma PlacedByName(before: seq<string>, g: seq<string>, later: seq<string>, t: string)
    requires Normal(t) && PlainSegs(before) && PlainSegs(g) && PlainSegs(later) && !AllGlobstar(g)
    ensures Placed(before, g, later, t) <==>
            GlobMatch(WildMatch, before + g + later, Names(t)) && !TailDoubled(g)
  {
    hide Grouped, GlobMatch;
    PlainSegsConcat(before, g);
    PlainSegsConcat(before + g, later);
    PlainGroups(before + g + later, t);
    ExpandedGuard(before, g, later);
  }

  lemma MeansByName(e: string, segs: seq<string>, t: string)
    requires Split(e, '/') == segs && !AllGlobstar(segs)
    ensures Means(e, t) <==> GlobMatch(WildMatch, segs, Names(t)) && !EndsDoubled(segs)
  {
  }

  /** A choice that its expansion can stand for: its neighbours and doubled globstars do not interfere. */
  predicate Fits(a: string, c: string, b: string, later: seq<string>) {
    var g := Glue(a, Fields(c), b);
    Aligned(a, c, b) && !AllGlobstar(Fields(c)) && Guards(g, later) && EndsFull(g, later)
  }

  /** A pattern with one brace among plain text accepts a normalised path iff one of its expansions, read name
      by name, matches the path. A final slash of a choice is not part of its expansion. */
  lemma BraceExpands(p: string, before: seq<string>, a: string, body: string, b: string, later: seq<string>, t: string)
    requires Normal(t) && Split(p, '/') == before + [a + "{" + body + "}" + b] + later
    requires PlainSegs(before) && PlainSegs(later) && PlainText(a) && PlainText(b) && Plain(body)
    requires forall i | 0 <= i < |Choices(body)| :: Fits(a, Choices(body)[i], b, later)
    ensures MatchSeq(Compile(p), t) <==>
            exists i | 0 <= i < |Choices(body)| :: Means(Expansion(before, a, DropSlash(Choices(body)[i]), b, later), t)
  {
    hide MatchSeq, Compile, Choices, Fields, Glue, Placed, Means, Expansion, SplitFrom, Aligned;
    BraceLaw(p, before, a, body, b, later, t);
    forall i | 0 <= i < |Choices(body)|
      ensures !TailDoubled(later) && Placed(before, Glue(a, Fields(Choices(body)[i]), b), later, t) <==>
              Means(Expansion(before, a, DropSlash(Choices(body)[i]), b, later), t)
    {
      FittingChoice(before, a, Choices(body)[i], b, later, t);
    }
  }

  lemma FittingChoice(before: seq<string>, a: string, c: string, b: string, later: seq<string>, t: string)
    requires Normal(t) && PlainSegs(before) && PlainSegs(later) && PlainText(a) && PlainText(b) && Fits(a, c, b, later)
    ensures !TailDoubled(later) && Placed(before, Glue(a, Fields(c), b), later, t) <==>
            Means(Expansion(before, a, DropSlash(c), b, later), t)
  {
    assert Plain(c);
    SameGlobstars(a, c, b);
    hide Placed, Means, Expansion, SplitFrom, Aligned, Fields, Glue;
    var g := Glue(a, Fields(c), b);
    GlueIsPlain(a, c, b);
    PlacedByName(before, g, later, t);
    ExpandedGuard(before, g, later);
    ExpansionSplits(before, a, c, b, later);
    MeansByName(Expansion(before, a, DropSlash(c), b, later), before + g + later, t);
  }

  // ---------- exactly when one choice means its expansion ----------

  predicate Clear(segs: seq<string>) {
    PlainSegs(segs) && forall i | 0 <= i < |segs| :: segs[i] != ""
  }

  /** The two patterns agree on every normalised path, one compiled and one by reference. */
  ghost predicate SameMeaning(p: string, e: string) {
    forall t | Normal(t) :: MatchSeq(Compile(p), t) <==> Means(e, t)
  }

  predicate EndsInSlash(c: string) {
    c != "" && c[|c| - 1] == '/'
  }

  /** A path that clear segments match with as few names as possible. */
  lemma SamplePath(segs: seq<string>) returns (t: string)
    requires Clear(segs) && !AllGlobstar(segs)
    ensures Normal(t) && GlobMatch(WildMatch, segs, Names(t)) && |Names(t)| == Needed(segs)
  {
    hide WildMatch;
    SamplesMatch(segs);
    SamplesCount(segs);
    NormalJoin(Samples(segs), '/');
    NamesOfJoin(Samples(segs), '/');
    t := JoinBy(Samples(segs), '/');
  }

  lemma {:induction false} SamplesCount(segs: seq<string>)
    ensures |Samples(segs)| == Needed(segs)
  {
    if segs != [] {
      SamplesCount(segs[1..]);
    }
  }

  lemma {:induction false} EnoughNames(accepts: (string, string) -> bool, segs: seq<string>, names: seq<string>)
    requires GlobMatch(accepts, segs, names)
    ensures |names| >= Needed(segs)
    decreases |segs|, |names|
  {
    if segs != [] {
      if segs[0] == STARSTAR && !GlobMatch(accepts, segs[1..], names) {
        EnoughNames(accepts, segs, names[1..]);
      } else {
        EnoughNames(accepts, segs[1..], if segs[0] == STARSTAR then names else names[1..]);
      }
    }
  }

  lemma {:induction false} NeededConcat(a: seq<string>, b: seq<string>)
    ensures Needed(a + b) == Needed(a) + Needed(b)
  {
    if a == [] {
      assert a + b == b;
    } else {
      assert (a + b)[0] == a[0] && (a + b)[1..] == a[1..] + b;
      NeededConcat(a[1..], b);
    }
  }

  lemma {:induction false} NeededAlike(a: seq<string>, b: seq<string>)
    requires |a| == |b| && forall i | 0 <= i < |a| :: a[i] == STARSTAR <==> b[i] == STARSTAR
    ensures Needed(a) == Needed(b)
  {
    if a != [] {
      assert forall i | 0 <= i < |a| - 1 :: a[1..][i] == a[i + 1] && b[1..][i] == b[i + 1];
      NeededAlike(a[1..], b[1..]);
    }
  }

  lemma {:induction false} EmptySegment(segs: seq<string>, names: seq<string>)
    requires "" in segs && forall i | 0 <= i < |names| :: names[i] != ""
    ensures !GlobMatch(WildMatch, segs, names)
    decreases |segs|, |names|
  {
    assert segs == [segs[0]] + segs[1..];
    if segs[0] == STARSTAR {
      EmptySegment(segs[1..], names);
      if names != [] {
        EmptySegment(segs, names[1..]);
      }
    } else if segs[0] != "" && names != [] {
      EmptySegment(segs[1..], names[1..]);
    }
  }

  predicate OneBrace(p: string, before: seq<string>, a: string, c: string, b: string, later: seq<string>) {
    && Split(p, '/') == before + [a + "{" + c + "}" + b] + later && Choices(c) == [c]
    && PlainText(a) && PlainText(b) && Aligned(a, c, b)
    && Clear(before) && Clear(later) && Clear(Glue(a, Fields(c), b))
  }

  /** The law for a single choice. */
  lemma OneChoice(p: string, before: seq<string>, a: string, c: string, b: string, later: seq<string>, t: string)
    requires Normal(t) && OneBrace(p, before, a, c, b, later) && !AllGlobstar(Fields(c))
    ensures var g := Glue(a, Fields(c), b);
            MatchSeq(Compile(p), t) <==>
            GlobMatch(WildMatch, before + g + later, Names(t)) && !TailDoubled(later) && !TailDoubled(g)
  {
    var g := Glue(a, Fields(c), b);
    SameGlobstars(a, c, b);
    hide MatchSeq, Compile, Choices, Fields, Glue, Placed, SplitFrom, GlobMatch;
    assert Neighbours(a, c, b);
    BraceLaw(p, before, a, c, b, later, t);
    PlacedByName(before, g, later, t);
    assert Choices(c)[0] == c;
  }

  lemma WholeClear(before: seq<string>, g: seq<string>, later: seq<string>)
    requires Clear(before) && Clear(g) && Clear(later)
    ensures Clear(before + g + later)
  {
    PlainSegsConcat(before, g);
    PlainSegsConcat(before + g, later);
  }

  /** The expansion with the choice as it is written, when that changes nothing. */
  lemma WrittenExpansion(before: seq<string>, a: string, c: string, b: string, later: seq<string>)
    requires PlainText(a) && PlainText(b) && Plain(c) && Clear(before) && Clear(later) && Clear(Glue(a, Fields(c), b))
    requires EndsInSlash(c) ==> b == "" && later == []
    ensures Split(Expansion(before, a, c, b, later), '/') == before + Glue(a, Fields(c), b) + later
  {
    hide SplitFrom, JoinBy, Fields, Glue;
    var g := Glue(a, Fields(c), b);
    if EndsInSlash(c) {
      SlashAtEnd(before, a, c);
      assert before + g + later == before + g;
      assert before + [a + c + b] + later == before + [a + c + b] && a + c + b == a + c;
    } else {
      assert DropSlash(c) == c;
      ExpansionSplits(before, a, c, b, later);
    }
  }

  lemma SlashAtEnd(before: seq<string>, a: string, c: string)
    requires PlainText(a) && Plain(c) && EndsInSlash(c) && Clear(before) && Clear(Glue(a, Fields(c), ""))
    ensures Split(JoinBy(before + [a + c], '/'), '/') == before + Glue(a, Fields(c), "")
  {
    hide SplitFrom, JoinBy, Fields, Glue;
    var d, g := DropSlash(c), Glue(a, Fields(c), "");
    assert c == d + "/" && a + c == (a + d) + "/";
    JoinBack(before, a + d, "/");
    FieldsArePlain(c);
    GlueJoin(a, Fields(c), "");
    assert a + d + "" == a + d;
    JoinReplaced(before, g, a + d, []);
    assert before + g + [] == before + g && before + [a + d] + [] == before + [a + d];
    PlainSegsConcat(before, g);
    SplitJoinTail(before + g, '/');
  }

  /** One choice among clear segments that is not all globstars, and that does not lose a slash: it means its
      expansion on every normalised path iff the doubled globstars are the same. */
  lemma OneChoiceExactly(p: string, before: seq<string>, a: string, c: string, b: string, later: seq<string>)
    requires OneBrace(p, before, a, c, b, later) && !AllGlobstar(Fields(c))
    requires EndsInSlash(c) ==> b == "" && later == []
    ensures SameMeaning(p, Expansion(before, a, c, b, later)) <==> Guards(Glue(a, Fields(c), b), later)
  {
    var g, e := Glue(a, Fields(c), b), Expansion(before, a, c, b, later);
    SameGlobstars(a, c, b);
    WrittenExpansion(before, a, c, b, later);
    ExpandedGuard(before, g, later);
    hide MatchSeq, Compile, Means, Fields, Glue, Expansion, SplitFrom, GlobMatch;
    forall t | Normal(t)
      ensures MatchSeq(Compile(p), t) <==>
              GlobMatch(WildMatch, before + g + later, Names(t)) && !TailDoubled(later) && !TailDoubled(g)
      ensures Means(e, t) <==> GlobMatch(WildMatch, before + g + later, Names(t)) && !TailDoubled(g + later)
    {
      OneChoice(p, before, a, c, b, later, t);
      MeansByName(e, before + g + later, t);
    }
    WholeClear(before, g, later);
    var t := SamplePath(before + g + later);
    assert SameMeaning(p, e) ==> (MatchSeq(Compile(p), t) <==> Means(e, t));
  }

  /** The segments of an expansion whose choice ends with a slash: one more than the brace takes names for. */
  lemma SlashedExpansion(before: seq<string>, a: string, c: string, b: string, later: seq<string>)
    requires PlainText(a) && PlainText(b) && Plain(c) && Clear(before) && Clear(later) && EndsInSlash(c)
    requires b != "" || later != []
    ensures Split(Expansion(before, a, c, b, later), '/') == before + (Glue(a, Fields(c), "") + [b]) + later
  {
    hide SplitFrom, JoinBy, Fields, Glue;
    var d, g := DropSlash(c), Glue(a, Fields(c), "");
    FieldsArePlain(c);
    GlueJoin(a, Fields(c), "");
    GlueIsPlain(a, c, "");
    JoinOne(b);
    JoinConcat(g, [b], '/');
    assert c == d + "/" && a + d + "" + ['/'] + b == a + c + b;
    PlainSegsConcat(g, [b]);
    TextSplits(before, g + [b], a + c + b, later);
  }

  lemma JoinOne(b: string)
    ensures JoinBy([b], '/') == b
  {
  }

  /** One choice that loses its slash: it means its expansion on every normalised path iff a doubled globstar
      keeps both from matching anything. */
  lemma SlashExactly(p: string, before: seq<string>, a: string, c: string, b: string, later: seq<string>)
    requires OneBrace(p, before, a, c, b, later) && !AllGlobstar(Fields(c)) && Aligned(a, c, "")
    requires EndsInSlash(c) && (b != "" || later != []) && b != STARSTAR
    ensures SameMeaning(p, Expansion(before, a, c, b, later)) <==>
            TailDoubled(later) || (b == "" && TailDoubled(Glue(a, Fields(c), b)))
  {
    var g, h, e := Glue(a, Fields(c), b), Glue(a, Fields(c), "") + [b], Expansion(before, a, c, b, later);
    SlashNeedsName(before, a, c, b, later);
    if b != "" {
      NoDoubledBehind(a, c, b);
    }
    hide MatchSeq, Compile, Means, Fields, Glue, Expansion, SplitFrom, GlobMatch, Aligned;
    forall t | Normal(t)
      ensures MatchSeq(Compile(p), t) <==>
              GlobMatch(WildMatch, before + g + later, Names(t)) && !TailDoubled(later) && !TailDoubled(g)
      ensures Means(e, t) <==> GlobMatch(WildMatch, before + h + later, Names(t)) && !TailDoubled(later)
    {
      OneChoice(p, before, a, c, b, later, t);
      SlashedMeans(before, a, c, b, later, t);
    }
    hide SameMeaning;
    if SameMeaning(p, e) {
      SameGlobstars(a, c, b);
      ExpandedGuard(before, g, later);
      WholeClear(before, g, later);
      var t := SamplePath(before + g + later);
      SameAt(p, e, t);
      if GlobMatch(WildMatch, before + h + later, Names(t)) {
        EnoughNames(WildMatch, before + h + later, Names(t));
      }
    }
    if TailDoubled(later) || (b == "" && TailDoubled(g)) {
      forall t | Normal(t) ensures MatchSeq(Compile(p), t) <==> Means(e, t) {
        if b == "" {
          assert (before + h + later)[|before| + |h| - 1] == h[|h| - 1] == "";
          NormalNames(t);
          EmptySegment(before + h + later, Names(t));
        }
      }
      AlwaysSame(p, e);
    }
  }

  lemma SameAt(p: string, e: string, t: string)
    requires SameMeaning(p, e) && Normal(t)
    ensures MatchSeq(Compile(p), t) <==> Means(e, t)
  {
  }

  lemma AlwaysSame(p: string, e: string)
    requires forall t | Normal(t) :: MatchSeq(Compile(p), t) <==> Means(e, t)
    ensures SameMeaning(p, e)
  {
  }

  lemma SlashedMeans(before: seq<string>, a: string, c: string, b: string, later: seq<string>, t: string)
    requires PlainText(a) && PlainText(b) && Plain(c) && Clear(before) && Clear(later) && EndsInSlash(c)
    requires (b != "" || later != []) && b != STARSTAR
    ensures var h := Glue(a, Fields(c), "") + [b];
            Means(Expansion(before, a, c, b, later), t) <==>
            GlobMatch(WildMatch, before + h + later, Names(t)) && !TailDoubled(later)
  {
    hide Means, Fields, Glue, Expansion, SplitFrom, GlobMatch;
    var h := Glue(a, Fields(c), "") + [b];
    SlashedExpansion(before, a, c, b, later);
    AroundBrace(before + Glue(a, Fields(c), ""), b, later);
    assert before + Glue(a, Fields(c), "") + [b] + later == before + h + later;
    MeansByName(Expansion(before, a, c, b, later), before + h + later, t);
  }

  lemma SlashNeedsName(before: seq<string>, a: string, c: string, b: string, later: seq<string>)
    requires Aligned(a, c, b) && Aligned(a, c, "") && b != STARSTAR
    ensures Needed(before + (Glue(a, Fields(c), "") + [b]) + later) ==
            Needed(before + Glue(a, Fields(c), b) + later) + 1
  {
    var g, h := Glue(a, Fields(c), b), Glue(a, Fields(c), "");
    assert forall i | 0 <= i < |g| :: g[i] == STARSTAR <==> h[i] == STARSTAR;
    hide Fields, Glue;
    NeededAlike(g, h);
    assert [b][1..] == [] && Needed([b]) == 1;
    hide Needed;
    NeededConcat(h, [b]);
    NeededConcat(before, h + [b]);
    NeededConcat(before + (h + [b]), later);
    NeededConcat(before, g);
    NeededConcat(before + g, later);
  }

  lemma NoDoubledBehind(a: string, c: string, b: string)
    requires Aligned(a, c, b) && b != ""
    ensures !TailDoubled(Glue(a, Fields(c), b))
  {
    hide Fields;
    var cs, g := Fields(c), Glue(a, Fields(c), b);
    var n := |cs| - 1;
    assert g[n] == STARSTAR <==> cs[n] == STARSTAR;
    if |cs| > 1 {
      assert g[n] == cs[n] + b;
    }
  }

  // ---------- a choice of globstars ----------

  lemma GlueNothing(cs: seq<string>)
    requires cs != []
    ensures Glue("", cs, "") == cs
  {
    assert |cs| == 1 ==> "" + cs[0] + "" == cs[0];
    assert |cs| > 1 ==> "" + cs[0] == cs[0] && cs[|cs| - 1] + "" == cs[|cs| - 1];
    assert |cs| > 1 ==> [cs[0]] + cs[1..|cs| - 1] + [cs[|cs| - 1]] == cs;
  }

  predicate GlobstarBrace(p: string, before: seq<string>, c: string, later: seq<string>) {
    && Split(p, '/') == before + ["" + "{" + c + "}" + ""] + later && Choices(c) == [c]
    && Plain(c) && AllGlobstar(Fields(c)) && !EndsInSlash(c) && Clear(before) && Clear(later)
  }

  lemma GlobstarsAlign(c: string)
    requires Plain(c) && AllGlobstar(Fields(c))
    ensures Aligned("", c, "") && Glue("", Fields(c), "") == Fields(c)
  {
    hide Fields, Glue;
    GlueNothing(Fields(c));
  }

  lemma GlobstarLaw(p: string, before: seq<string>, c: string, later: seq<string>, t: string)
    requires Normal(t) && GlobstarBrace(p, before, c, later)
    ensures MatchSeq(Compile(p), t) <==> !TailDoubled(later) && Filled(before, later, t)
  {
    GlobstarsAlign(c);
    assert Neighbours("", c, "");
    assert Choices(c)[0] == c;
    hide MatchSeq, Compile, Choices, Fields, Glue, Filled, SplitFrom, Normal, Neighbours, Aligned, Clear;
    BraceLaw(p, before, "", c, "", later, t);
  }

  lemma GlobstarText(p: string, before: seq<string>, c: string, later: seq<string>)
    requires GlobstarBrace(p, before, c, later)
    ensures Split(Expansion(before, "", c, "", later), '/') == before + Fields(c) + later
  {
    GlobstarsAlign(c);
    hide Fields, Glue, SplitFrom, JoinBy;
    assert DropSlash(c) == c;
    assert Fields(c)[|Fields(c)| - 1] == STARSTAR;
    ExpansionSplits(before, "", c, "", later);
  }

  /** With a plain segment in place of the globstars, some name is taken on one line. */
  lemma FilledByName(before: seq<string>, later: seq<string>, t: string)
    requires Normal(t) && Grouped(SegmentAccepts(), before + ["a"] + later, t)
    ensures Filled(before, later, t)
  {
    hide Normal, CompileSeg;
    var sa := SegmentAccepts();
    assert before + ["a"] + later == before + (["a"] + later);
    var k := GroupedSplit(sa, before, ["a"] + later, t);
    var r := Behind(t, k);
    assert (["a"] + later)[1..] == later && (["a"] + later)[0] == "a" && "a" != STARSTAR;
    var j: nat :| Boundary(r, j) && sa("a", r[..j]) && Grouped(sa, later, Rest(r, j));
    OnlyA(r[..j]);
    assert FilledAt(before, later, t, k, j);
  }

  lemma OnlyA(u: string)
    requires SegmentAccepts()("a", u)
    ensures OneLine(u)
  {
    assert PlainText("a");
    PlainSegment("a");
    SegmentMeaning("a", u);
    assert "a"[1..] == "";
    assert u[1..] == "";
  }

  lemma {:induction false} EnoughGroups(accepts: (string, string) -> bool, segs: seq<string>, t: string)
    requires (t == "" || Normal(t)) && Grouped(accepts, segs, t)
    ensures |NamesIn(t)| >= Needed(segs)
    decreases |segs|, |t|
  {
    hide Names, FirstSep, Normal;
    if segs != [] {
      if segs[0] != STARSTAR {
        var k: nat :| Boundary(t, k) && accepts(segs[0], t[..k]) && Grouped(accepts, segs[1..], Rest(t, k));
        RestIsNormal(t, k);
        EnoughGroups(accepts, segs[1..], Rest(t, k));
        MoreNames(t, k);
      } else if Grouped(accepts, segs[1..], t) {
        EnoughGroups(accepts, segs[1..], t);
      } else {
        FirstBoundary(t);
        RestIsNormal(t, FirstSep(t));
        EnoughGroups(accepts, segs, Rest(t, FirstSep(t)));
        MoreNames(t, FirstSep(t));
      }
    }
  }

  /** Behind a boundary there are fewer names. */
  lemma MoreNames(t: string, k: nat)
    requires Normal(t) && Boundary(t, k)
    ensures |NamesIn(t)| > |NamesIn(Rest(t, k))|
  {
    hide Names;
    RestIsNormal(t, k);
    if k < |t| {
      assert t == t[..k] + [t[k]] + t[k + 1..];
      NamesConcat(t[..k], t[k], t[k + 1..]);
    }
  }

  function AnySegment(): (string, string) -> bool {
    (s, u) => true
  }

  lemma FilledNeedsMore(before: seq<string>, later: seq<string>, t: string)
    requires Normal(t) && Filled(before, later, t)
    ensures |Names(t)| >= Needed(before) + Needed(later) + 1
  {
    hide Normal, Names, Grouped;
    var k: nat, j: nat :| FilledAt(before, later, t, k, j);
    var any := AnySegment();
    var r := Behind(t, k);
    BehindIsNormal(t, k);
    AnyAccepts(SegmentAccepts(), before, t[..k]);
    AnyAccepts(SegmentAccepts(), later, Rest(r, j));
    assert (["x"] + later)[0] == "x" && (["x"] + later)[1..] == later;
    assert Grouped(any, ["x"] + later, r) by { XTakes(later, r, j); }
    GroupedJoin(any, before, ["x"] + later, t, k);
    EnoughGroups(any, before + (["x"] + later), t);
    NeededConcat(before, ["x"] + later);
    assert NamesIn(t) == Names(t) by { NotEmpty(t); }
  }

  lemma XTakes(later: seq<string>, r: string, j: nat)
    requires Boundary(r, j) && Grouped(AnySegment(), later, Rest(r, j))
    ensures Grouped(AnySegment(), ["x"] + later, r)
  {
    assert (["x"] + later)[0] == "x" && (["x"] + later)[1..] == later;
  }

  lemma {:induction false} AnyAccepts(accepts: (string, string) -> bool, segs: seq<string>, t: string)
    requires Grouped(accepts, segs, t)
    ensures Grouped(AnySegment(), segs, t)
    decreases |segs|, |t|
  {
    if segs != [] {
      if segs[0] != STARSTAR {
        var k: nat :| Boundary(t, k) && accepts(segs[0], t[..k]) && Grouped(accepts, segs[1..], Rest(t, k));
        AnyAccepts(accepts, segs[1..], Rest(t, k));
      } else if Grouped(accepts, segs[1..], t) {
        AnyAccepts(accepts, segs[1..], t);
      } else {
        AnyAccepts(accepts, segs, Rest(t, FirstSep(t)));
      }
    }
  }

  lemma SampleFilled(before: seq<string>, later: seq<string>) returns (t: string)
    requires Clear(before) && Clear(later)
    ensures Normal(t) && Filled(before, later, t)
  {
    var segs := before + ["a"] + later;
    assert Clear(["a"]) && !AllGlobstar(["a"]) by {
      assert PlainText("a") && ["a"][0] != STARSTAR;
    }
    WholeClear(before, ["a"], later);
    assert segs[|before|] == "a";
    t := SamplePath(segs);
    PlainGroups(segs, t);
    FilledByName(before, later, t);
  }

  lemma {:induction false} AllGlobstarNames(accepts: (string, string) -> bool, segs: seq<string>, names: seq<string>)
    requires AllGlobstar(segs) && segs != []
    ensures GlobMatch(accepts, segs, names)
    decreases |segs|, |names|
  {
    if names != [] {
      AllGlobstarNames(accepts, segs, names[1..]);
    } else {
      NeedsName(accepts, segs);
    }
  }

  lemma NothingAround(t: string)
    requires Normal(t)
    ensures Filled([], [], t) <==> OneLine(t)
  {
    if k: nat, j: nat :| FilledAt([], [], t, k, j) {
      RestIsNormal(t, j);
      assert t[..|t|] == t;
    }
    if OneLine(t) {
      WholeIsBoundary(t);
      assert t[..|t|] == t;
      assert FilledAt([], [], t, 0, |t|);
    }
  }

  /** Globstars around, but not two at the end: a line end is no obstacle beside the brace. */
  lemma LineBeside(before: seq<string>, later: seq<string>) returns (t: string)
    requires AllGlobstar(before) && AllGlobstar(later) && |later| <= 1 && (before != [] || later != [])
    ensures Normal(t) && Filled(before, later, t) && !OneLine(t)
  {
    var sa := SegmentAccepts();
    GroupedNothing(sa, before);
    GroupedNothing(sa, later);
    if later != [] {
      t := "a/\n";
      assert t[0] == 'a' && t[1] == '/' && t[2] == '\n' && t[..0] == "" && t[..1] == "a" && t[2..] == "\n";
      forall i | 0 <= i < |t| ensures !DoubledAt(t, i) {}
      assert later == [STARSTAR];
      GroupedAlone(sa, "\n");
      assert FilledAt(before, later, t, 0, 1);
    } else {
      t := "\n/a";
      assert t[0] == '\n' && t[1] == '/' && t[2] == 'a' && t[..1] == "\n" && t[2..] == "a" && "a"[..1] == "a";
      forall i | 0 <= i < |t| ensures !DoubledAt(t, i) {}
      AllGlobstarGrouped(before, "\n");
      assert FilledAt(before, later, t, 1, 1);
    }
  }

  /** One choice of globstars only: it means its expansion on every normalised path iff nothing stands around
      it, or a doubled globstar behind it keeps both from matching anything. */
  lemma GlobstarChoiceExactly(p: string, before: seq<string>, c: string, later: seq<string>)
    requires GlobstarBrace(p, before, c, later)
    ensures SameMeaning(p, Expansion(before, "", c, "", later)) <==>
            || (before == [] && later == [])
            || (TailDoubled(later) && !(AllGlobstar(before) && AllGlobstar(later)))
  {
    hide MatchSeq, Compile, Means, Fields, Expansion, SplitFrom, GlobMatch, Filled, SameMeaning, Normal;
    var e := Expansion(before, "", c, "", later);
    forall t | Normal(t) ensures MatchSeq(Compile(p), t) <==> !TailDoubled(later) && Filled(before, later, t) {
      GlobstarLaw(p, before, c, later, t);
    }
    GlobstarText(p, before, c, later);
    if before == [] && later == [] {
      forall t | Normal(t) ensures MatchSeq(Compile(p), t) <==> Means(e, t) {
        NothingAround(t);
        AllGlobstarMeans(e, before + Fields(c) + later, t);
      }
      AlwaysSame(p, e);
    } else if AllGlobstar(before) && AllGlobstar(later) {
      GlobstarsAround(p, before, c, later);
    } else if TailDoubled(later) {
      forall t | Normal(t) ensures MatchSeq(Compile(p), t) <==> Means(e, t) {
        MixedMeans(e, before, Fields(c), later, t);
      }
      AlwaysSame(p, e);
    } else {
      NamesAround(p, before, c, later);
    }
  }

  lemma AllGlobstarMeans(e: string, segs: seq<string>, t: string)
    requires Split(e, '/') == segs && AllGlobstar(segs) && segs != []
    ensures Means(e, t) <==> OneLine(t)
  {
    AllGlobstarNames(WildMatch, segs, Names(t));
  }

  lemma MixedMeans(e: string, before: seq<string>, cs: seq<string>, later: seq<string>, t: string)
    requires Split(e, '/') == before + cs + later && TailDoubled(later) && !(AllGlobstar(before) && AllGlobstar(later))
    ensures !Means(e, t)
  {
    var segs := before + cs + later;
    assert segs[|segs| - 1] == later[|later| - 1] && segs[|segs| - 2] == later[|later| - 2];
    if !AllGlobstar(before) {
      var i :| 0 <= i < |before| && before[i] != STARSTAR;
      assert segs[i] == before[i];
    } else {
      var i :| 0 <= i < |later| && later[i] != STARSTAR;
      assert segs[|before| + |cs| + i] == later[i];
    }
  }

  lemma GlobstarsAround(p: string, before: seq<string>, c: string, later: seq<string>)
    requires GlobstarBrace(p, before, c, later) && AllGlobstar(before) && AllGlobstar(later)
    requires before != [] || later != []
    ensures !SameMeaning(p, Expansion(before, "", c, "", later))
  {
    hide MatchSeq, Compile, Means, Expansion, SplitFrom, GlobMatch, Filled, SameMeaning, Normal;
    var e, segs := Expansion(before, "", c, "", later), before + Fields(c) + later;
    GlobstarText(p, before, c, later);
    assert AllGlobstar(segs);
    hide Fields;
    var t: string;
    if TailDoubled(later) {
      t := "a";
      PlainA();
    } else {
      t := LineBeside(before, later);
    }
    GlobstarLaw(p, before, c, later, t);
    AllGlobstarMeans(e, segs, t);
    if SameMeaning(p, e) {
      SameAt(p, e, t);
    }
  }

  lemma PlainA()
    ensures Normal("a") && OneLine("a")
  {
    assert forall i | 0 <= i < |"a"| :: !DoubledAt("a", i);
  }

  lemma NamesAround(p: string, before: seq<string>, c: string, later: seq<string>)
    requires GlobstarBrace(p, before, c, later) && !(AllGlobstar(before) && AllGlobstar(later)) && !TailDoubled(later)
    ensures !SameMeaning(p, Expansion(before, "", c, "", later))
  {
    hide MatchSeq, Compile, Means, Expansion, SplitFrom, GlobMatch, Filled, SameMeaning, Normal;
    var e, cs := Expansion(before, "", c, "", later), Fields(c);
    var segs := before + cs + later;
    GlobstarText(p, before, c, later);
    GlobstarsClear(cs);
    WholeClear(before, cs, later);
    NotAllGlobstar(before, cs, later);
    NoneNeeded(cs);
    hide Fields;
    var t: string;
    if EndsDoubled(segs) {
      t := SampleFilled(before, later);
    } else {
      t := SamplePath(segs);
      NeededConcat(before, cs);
      NeededConcat(before + cs, later);
      if Filled(before, later, t) {
        FilledNeedsMore(before, later, t);
      }
    }
    GlobstarLaw(p, before, c, later, t);
    MeansByName(e, segs, t);
    if SameMeaning(p, e) {
      SameAt(p, e, t);
    }
  }

  lemma GlobstarsClear(cs: seq<string>)
    requires AllGlobstar(cs)
    ensures Clear(cs)
  {
    assert PlainText(STARSTAR);
  }

  lemma NotAllGlobstar(before: seq<string>, cs: seq<string>, later: seq<string>)
    requires !(AllGlobstar(before) && AllGlobstar(later))
    ensures !AllGlobstar(before + cs + later)
  {
    var segs := before + cs + later;
    if !AllGlobstar(before) {
      var i :| 0 <= i < |before| && before[i] != STARSTAR;
      assert segs[i] == before[i];
    } else {
      var i :| 0 <= i < |later| && later[i] != STARSTAR;
      assert segs[|before| + |cs| + i] == later[i];
    }
  }

  lemma {:induction false} NoneNeeded(cs: seq<string>)
    requires AllGlobstar(cs)
    ensures Needed(cs) == 0
  {
    if cs != [] {
      NoneNeeded(cs[1..]);
    }
  }

  // ---------- two inputs ----------

  /** A choice that ends with a slash loses it: the brace matches a path that its expansion does not. */
  lemma SlashIsLost()
    ensures Normal("ab") && MatchSeq(Compile("{a/}b"), "ab") && !Means("a/b", "ab")
  {
    hide MatchSeq, Compile, Means, Names, Normal;
    var t := "ab";
    OneWord(t);
    LostMatches(t);
    SplitsIntoTwo("a", "b");
    assert "a" + "/" + "b" == "a/b";
    EnoughNamesForTwo("a", "b", t);
  }

  lemma LostMatches(t: string)
    requires t == "ab" && Normal(t) && Names(t) == ["ab"]
    ensures MatchSeq(Compile("{a/}b"), t)
  {
    hide MatchSeq, Compile, WildMatch, Names, Normal, Choices, Fields, SplitFrom;
    LostText();
    SlashText();
    BraceLaw("{a/}b", [], "", "a/", "b", [], t);
    WordMatchesItself("ab", "ab");
    assert ["ab"][1..] == [] && [] + ["ab"] + [] == ["ab"] && "ab" != STARSTAR;
    assert GlobMatch(WildMatch, ["ab"], ["ab"]);
    assert PlainSegs(["ab"]);
    PlainGroups(["ab"], t);
    assert Choices("a/")[0] == "a/";
    assert Placed([], ["ab"], [], t);
  }

  lemma OneWord(t: string)
    requires Word(t)
    ensures Normal(t) && Names(t) == [t]
  {
    WordIsWords(t);
  }

  lemma SlashText()
    ensures Choices("a/") == ["a/"] && Fields("a/") == ["a"] && Glue("", ["a"], "b") == ["ab"]
    ensures Neighbours("", "a/", "b")
    ensures PlainText("ab") && Word("ab")
  {
    assert Plain("a/") && Lacks("a/", ',');
    assert JoinBy(["a/"], ',') == "a/";
    SplitJoin(["a/"], ',');
    assert DropSlash("a/") == "a" && SplitOn("a", '/') == ["a"];
    hide SplitFrom, SplitOn;
    assert "" + "a" + "b" == "ab";
  }

  lemma LostText()
    ensures Split("{a/}b", '/') == [] + ["" + "{" + "a/" + "}" + "b"] + []
  {
    var p := "{a/}b";
    assert Whole(p, '/', OUTSIDE) by {
      assert p[1..] == "a/}b" && "a/}b"[1..] == "/}b" && "/}b"[1..] == "}b" && "}b"[1..] == "b" && "b"[1..] == "";
    }
    WholeSplits(p, '/', "", OUTSIDE);
    assert "" + p == p && "" + "{" + "a/" + "}" + "b" == p;
  }

  lemma SplitsIntoTwo(a: string, b: string)
    requires PlainText(a) && PlainText(b) && b != ""
    ensures Split(a + "/" + b, '/') == [a, b]
  {
    assert [a, b][1..] == [b];
    assert JoinBy([a, b], '/') == a + ['/'] + b;
    SplitJoin([a, b], '/');
  }

  lemma EnoughNamesForTwo(a: string, b: string, t: string)
    requires a != STARSTAR && b != STARSTAR && Split(a + "/" + b, '/') == [a, b] && |Names(t)| == 1
    ensures !Means(a + "/" + b, t)
  {
    assert [a, b][1..] == [b] && [b][1..] == [];
    assert Needed([b]) == 1 && Needed([a, b]) == 2;
    if GlobMatch(WildMatch, [a, b], Names(t)) {
      EnoughNames(WildMatch, [a, b], Names(t));
    }
  }

  /** A globstar in a brace takes a name: `{**,x}/b` does not match the folder itself, which its expansion does. */
  lemma GlobstarTakesName()
    ensures Normal("b") && !MatchSeq(Compile("{**,x}/b"), "b") && Means("**/b", "b")
  {
    hide MatchSeq, Compile, WildMatch, Names, Normal, SplitFrom, Grouped;
    var t := "b";
    OneWord(t);
    GroupMeaning("{**,x}/b", t);
    BraceFirst();
    EnoughGroupsForTwo(t);
    SplitsIntoTwo("**", "b");
    assert "**" + "/" + "b" == "**/b";
    WordMatchesItself("b", "b");
    assert ["**", "b"][1..] == ["b"] && ["b"][1..] == [];
    assert GlobMatch(WildMatch, ["b"], ["b"]);
    assert GlobMatch(WildMatch, ["**", "b"], ["b"]);
  }

  lemma BraceFirst()
    ensures Split("{**,x}/b", '/') == ["{**,x}", "b"]
  {
    assert Plain("**,x");
    assert "{**,x}/b" == "{" + ("**,x" + ("}/" + "b")) && "{" + "**,x" + "}" == "{**,x}";
    BraceThenSlash("**,x", "b");
    assert Split("b", '/') == ["b"] by { assert "b"[1..] == "" && "" + "b" == "b"; }
  }

  /** A brace at the start of a pattern, with a slash behind it, is the first segment. */
  lemma BraceThenSlash(body: string, rest: string)
    requires Plain(body)
    ensures Split("{" + (body + ("}/" + rest)), '/') == ["{" + body + "}"] + Split(rest, '/')
  {
    var p := "{" + (body + ("}/" + rest));
    assert p[1..] == body + ("}/" + rest) && "" + ['{'] == "{";
    InsideBrace(body, rest, "{");
    assert Split(p, '/') == SplitFrom(p[1..], '/', "{", Mode(true, false));
  }

  lemma {:induction false} InsideBrace(body: string, rest: string, cur: string)
    requires Plain(body)
    ensures SplitFrom(body + ("}/" + rest), '/', cur, Mode(true, false)) == [cur + body + "}"] + Split(rest, '/')
    decreases |body|
  {
    if body == "" {
      assert body + ("}/" + rest) == "}/" + rest && cur + body + "}" == cur + ['}'];
      ClosingBrace(rest, cur);
    } else {
      assert PlainChar(body[0]);
      var s := body + ("}/" + rest);
      assert s[0] == body[0] && s[1..] == body[1..] + ("}/" + rest);
      InsideBrace(body[1..], rest, cur + [body[0]]);
      assert cur + [body[0]] + body[1..] == cur + body;
      assert NextMode(s[0], '/', Mode(true, false)) == Mode(true, false);
    }
  }

  lemma ClosingBrace(rest: string, cur: string)
    ensures SplitFrom("}/" + rest, '/', cur, Mode(true, false)) == [cur + ['}']] + Split(rest, '/')
  {
    var s := "}/" + rest;
    assert s[1..][0] == '/' && s[1..][1..] == rest;
    assert NextMode('}', '/', Mode(true, false)) == OUTSIDE;
    assert SplitFrom(s[1..], '/', cur + ['}'], OUTSIDE) == [cur + ['}']] + SplitFrom(rest, '/', "", OUTSIDE);
  }

  lemma EnoughGroupsForTwo(t: string)
    requires Normal(t) && |Names(t)| == 1
    ensures !Grouped(Accepting(), ["{**,x}", "b"], t)
  {
    hide Grouped, Names;
    var segs := ["{**,x}", "b"];
    assert segs[1..] == ["b"] && ["b"][1..] == [];
    assert Needed(["b"]) == 1 && Needed(segs) == 2;
    if Grouped(Accepting(), segs, t) {
      EnoughGroups(Accepting(), segs, t);
      NotEmpty(t);
    }
  }
}
