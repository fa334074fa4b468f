/** Braces whose choices span segments: what such a pattern means on normalised paths. */
module GlobBraces {
  import opened Paths
  import opened Regex
  import opened GlobSplit
  import opened GlobCompile
  import opened GlobReference
  import opened GlobGroups
  import opened GlobWildcard
  import opened GlobMeaning
  import opened GlobShapes
  import opened GlobFast
  import opened GlobLists

  predicate PlainText(s: string) {
    Plain(s) && Lacks(s, '/')
  }

  predicate PlainSegs(segs: seq<string>) {
    forall i | 0 <= i < |segs| :: PlainText(segs[i])
  }

  lemma PlainSegsConcat(a: seq<string>, b: seq<string>)
    requires PlainSegs(a) && PlainSegs(b)
    ensures PlainSegs(a + b)
  {
  }

  // ---------- the fields of a choice ----------

  lemma {:induction false} PlainFields(s: string)
    requires Plain(s)
    ensures PlainSegs(SplitOn(s, '/'))
    ensures s != "" && s[|s| - 1] != '/' ==> var ns := SplitOn(s, '/'); ns[|ns| - 1] != ""
    decreases |s|
  {
    var k := IndexFrom(s, '/', 0);
    if k < |s| {
      PlainFields(s[k + 1..]);
    }
  }

  /** The segments of a choice. A final slash is dropped. */
  function Fields(c: string): (cs: seq<string>)
    ensures cs != []
  {
    SplitOn(DropSlash(c), '/')
  }

  lemma FieldsArePlain(c: string)
    requires Plain(c)
    ensures PlainSegs(Fields(c)) && JoinBy(Fields(c), '/') == DropSlash(c) && Plain(DropSlash(c))
  {
    PlainFields(DropSlash(c));
    JoinSplitOn(DropSlash(c), '/');
  }

  /** The compiler sees the same segments. */
  lemma SplitIsFields(c: string)
    requires Plain(c) && c != ""
    ensures Split(c, '/') == Fields(c)
  {
    hide SplitFrom, SplitOn, JoinBy;
    var d := DropSlash(c);
    FieldsArePlain(c);
    if d == c {
      PlainFields(c);
      SplitJoin(Fields(c), '/');
    } else {
      assert c == d + "/";
      SplitJoinTail(Fields(c), '/');
    }
  }

  lemma CompiledFields(c: string)
    requires Plain(c) && !AllGlobstar(Fields(c))
    ensures Compile(c) == CompileSegs(Fields(c), false)
  {
    hide SplitFrom, CompileSegs;
    if c == "" {
      EmptyFields();
    } else {
      SplitIsFields(c);
    }
  }

  lemma EmptyFields()
    ensures Fields("") == [""] && CompileSegs([""], false) == []
  {
  }

  // ---------- a choice between its neighbours ----------

  /** The first field grows by the text before the brace, the last one by the text behind it. */
  function Glue(a: string, cs: seq<string>, b: string): (g: seq<string>)
    requires cs != []
    ensures |g| == |cs|
  {
    if |cs| == 1 then [a + cs[0] + b] else [a + cs[0]] + cs[1..|cs| - 1] + [cs[|cs| - 1] + b]
  }

  /** The neighbours neither make a globstar nor unmake one. */
  predicate Aligned(a: string, c: string, b: string) {
    Plain(c) && forall i | 0 <= i < |Fields(c)| :: Glue(a, Fields(c), b)[i] == STARSTAR <==> Fields(c)[i] == STARSTAR
  }

  lemma GlueIsPlain(a: string, c: string, b: string)
    requires PlainText(a) && PlainText(b) && Plain(c)
    ensures PlainSegs(Glue(a, Fields(c), b))
  {
    var cs := Fields(c);
    FieldsArePlain(c);
    hide Fields;
    PlainTextConcat(a, cs[0]);
    PlainTextConcat(a + cs[0], b);
    PlainTextConcat(cs[|cs| - 1], b);
  }

  lemma PlainTextConcat(a: string, b: string)
    requires PlainText(a) && PlainText(b)
    ensures PlainText(a + b)
  {
    PlainConcat(a, b);
    LacksConcat(a, b, '/');
  }

  lemma SameGlobstars(a: string, c: string, b: string)
    requires Aligned(a, c, b)
    ensures AllGlobstar(Glue(a, Fields(c), b)) <==> AllGlobstar(Fields(c))
  {
    hide Fields;
    var cs, g := Fields(c), Glue(a, Fields(c), b);
    if AllGlobstar(g) {
      forall i | 0 <= i < |cs| ensures cs[i] == STARSTAR { assert g[i] == STARSTAR; }
    }
    if AllGlobstar(cs) {
      forall i | 0 <= i < |g| ensures g[i] == STARSTAR { assert cs[i] == STARSTAR; }
    }
  }

  /** The nodes of segments that others follow. */
  function Before(segs: seq<string>, prev: bool): seq<Node> {
    if segs == [] then []
    else if segs[0] == STARSTAR then (if prev then [] else StarsToRegExp(2)) + Before(segs[1..], true)
    else CompileSeg(segs[0]) + [One(Sep)] + Before(segs[1..], false)
  }

  lemma {:induction false} BeforeLast(segs: seq<string>, s: string, prev: bool)
    requires s != STARSTAR
    ensures CompileSegs(segs + [s], prev) == Before(segs, prev) + CompileSeg(s)
  {
    hide CompileSeg;
    var all := segs + [s];
    if segs == [] {
      assert all == [s] && [s][1..] == [] && CompileSeg(s) + [] + [] == [] + CompileSeg(s);
    } else {
      assert all[0] == segs[0] && all[1..] == segs[1..] + [s];
      assert |segs| == 1 ==> all[1] == s;
      BeforeLast(segs[1..], s, segs[0] == STARSTAR);
      if segs[0] == STARSTAR {
        Assoc(if prev then [] else StarsToRegExp(2), Before(segs[1..], true), CompileSeg(s));
      } else {
        assert TailSep(all) == [One(Sep)];
        Assoc(CompileSeg(segs[0]) + [One(Sep)], Before(segs[1..], false), CompileSeg(s));
      }
    }
  }

  lemma TextBefore(a: string, s: string)
    requires PlainText(a)
    ensures CompileSeg(a + s) == CompileSeg(a) + CompileSeg(s)
  {
    PlainSegment(a);
    CompilePrefix(a, s);
  }

  lemma GluedFront(a: string, cs: seq<string>)
    requires PlainText(a) && cs != [] && cs[0] != STARSTAR && a + cs[0] != STARSTAR
    ensures CompileSegs([a + cs[0]] + cs[1..], false) == CompileSeg(a) + CompileSegs(cs, false)
  {
    TextBefore(a, cs[0]);
    hide CompileSeg;
    var g, rest := [a + cs[0]] + cs[1..], CompileSegs(cs[1..], false);
    assert g[1..] == cs[1..];
    assert TailSep(g) == TailSep(cs);
    assert CompileSegs(g, false) == (CompileSeg(a) + CompileSeg(cs[0])) + TailSep(cs) + rest;
    assert CompileSegs(cs, false) == CompileSeg(cs[0]) + TailSep(cs) + rest;
    hide CompileSegs, TailSep;
    Regroup(CompileSeg(a), CompileSeg(cs[0]), TailSep(cs), rest);
  }

  lemma Regroup<T>(p: seq<T>, q: seq<T>, r: seq<T>, t: seq<T>)
    ensures (p + q) + r + t == p + (q + r + t)
  {
  }

  lemma GluedBack(xs: seq<string>, y: string, b: string)
    requires PlainText(y) && y != STARSTAR && y + b != STARSTAR
    ensures CompileSegs(xs + [y + b], false) == CompileSegs(xs + [y], false) + CompileSeg(b)
  {
    hide CompileSeg, CompileSegs;
    BeforeLast(xs, y + b, false);
    BeforeLast(xs, y, false);
    TextBefore(y, b);
    Assoc(Before(xs, false), CompileSeg(y), CompileSeg(b));
  }

  /** A choice that is not all globstars, compiled between its neighbours, is compiled like its glued segments. */
  lemma ChoiceCompiled(a: string, c: string, b: string)
    requires PlainText(a) && PlainText(b) && Aligned(a, c, b) && !AllGlobstar(Fields(c))
    ensures CompileSegs(Glue(a, Fields(c), b), false) == CompileSeg(a) + Compile(c) + CompileSeg(b)
  {
    var cs := Fields(c);
    CompiledFields(c);
    FieldsArePlain(c);
    hide CompileSeg, CompileSegs, Compile, Fields;
    if |cs| == 1 {
      OneField(a, cs[0], b);
      assert cs == [cs[0]];
    } else {
      SeveralFields(a, cs, b);
    }
  }

  lemma OneField(a: string, s: string, b: string)
    requires PlainText(a) && PlainText(s) && s != STARSTAR && a + s + b != STARSTAR
    ensures CompileSegs([a + s + b], false) == CompileSeg(a) + CompileSegs([s], false) + CompileSeg(b)
  {
    PlainTextConcat(a, s);
    TextBefore(a + s, b);
    TextBefore(a, s);
    OneSegment(a + s + b);
    OneSegment(s);
  }

  lemma OneSegment(s: string)
    requires s != STARSTAR
    ensures CompileSegs([s], false) == CompileSeg(s)
  {
    hide CompileSeg;
    assert [s][1..] == [] && CompileSeg(s) + [] + [] == CompileSeg(s);
  }

  lemma SeveralFields(a: string, cs: seq<string>, b: string)
    requires PlainText(a) && PlainText(b) && PlainSegs(cs) && |cs| > 1
    requires forall i | 0 <= i < |cs| :: Glue(a, cs, b)[i] == STARSTAR <==> cs[i] == STARSTAR
    ensures CompileSegs(Glue(a, cs, b), false) == CompileSeg(a) + CompileSegs(cs, false) + CompileSeg(b)
  {
    hide CompileSeg, CompileSegs, PlainSegs;
    var n := |cs| - 1;
    var front := [a + cs[0]] + cs[1..];
    var xs := front[..n];
    GlueShape(a, cs, b);
    assert PlainText(cs[n]) by { PlainAt(cs, n); }
    hide Glue;
    if cs[n] != STARSTAR {
      GluedBack(xs, cs[n], b);
    } else {
      NoText();
      assert cs[n] + "" == cs[n] && CompileSegs(xs + [cs[n]], false) + [] == CompileSegs(xs + [cs[n]], false);
    }
    if cs[0] != STARSTAR {
      GluedFront(a, cs);
    } else {
      NoText();
      assert "" + cs[0] == cs[0] && front == cs && [] + CompileSegs(cs, false) == CompileSegs(cs, false);
    }
  }

  lemma PlainAt(cs: seq<string>, i: nat)
    requires PlainSegs(cs) && i < |cs|
    ensures PlainText(cs[i])
  {
  }

  lemma GlueShape(a: string, cs: seq<string>, b: string)
    requires |cs| > 1 && forall i | 0 <= i < |cs| :: Glue(a, cs, b)[i] == STARSTAR <==> cs[i] == STARSTAR
    ensures var n, front := |cs| - 1, [a + cs[0]] + cs[1..];
            && Glue(a, cs, b) == front[..n] + [cs[n] + b] && front == front[..n] + [cs[n]]
    ensures a + cs[0] == STARSTAR <==> cs[0] == STARSTAR
    ensures cs[|cs| - 1] + b == STARSTAR <==> cs[|cs| - 1] == STARSTAR
    ensures (cs[0] == STARSTAR ==> a == "") && (cs[|cs| - 1] == STARSTAR ==> b == "")
  {
    var n, g := |cs| - 1, Glue(a, cs, b);
    assert g[0] == a + cs[0] && g[n] == cs[n] + b;
    assert g[0] == STARSTAR <==> cs[0] == STARSTAR;
    assert g[n] == STARSTAR <==> cs[n] == STARSTAR;
  }

  lemma NoText()
    ensures CompileSeg("") == []
  {
  }

  // ---------- what the brace takes ----------

  lemma BraceSegment(a: string, body: string, b: string)
    requires PlainText(a) && Plain(body)
    ensures CompileSeg(a + "{" + body + "}" + b) ==
            CompileSeg(a) + ([Choice(CompileChoices(Split(body, ',')))] + CompileSeg(b))
  {
    hide CompileSeg, CompileChoices, SplitFrom;
    var r := "{" + body + "}" + b;
    assert a + "{" + body + "}" + b == a + r;
    TextBefore(a, r);
    BraceText(body, b);
  }

  lemma BraceText(body: string, b: string)
    requires Plain(body)
    ensures CompileSeg("{" + body + "}" + b) == [Choice(CompileChoices(Split(body, ',')))] + CompileSeg(b)
  {
    hide CompileSeg, CompileChoices, SplitFrom;
    var r, e := "{" + body + "}" + b, |body| + 1;
    assert r[0] == '{' && r[e] == '}';
    forall j | 1 <= j < e ensures r[j] != '}' { assert r[j] == body[j - 1] && PlainChar(body[j - 1]); }
    IndexFromUnique(r, '}', 1, e);
    CompileBrace(r);
    assert r[1..e] == body && r[e + 1..] == b;
  }

  /** A brace inside: what stands around it stands around each of its choices. */
  lemma ChoiceInside(before: seq<Node>, body: string, after: seq<Node>, s: string)
    ensures MatchSeq(before + ([Choice(CompileChoices(Split(body, ',')))] + after), s) <==>
            exists i | 0 <= i < |Choices(body)| :: MatchSeq(before + (Compile(Choices(body)[i]) + after), s)
  {
    hide MatchSeq, Compile, CompileChoices, Choices;
    var node, cs := Choice(CompileChoices(Split(body, ','))), Choices(body);
    if MatchSeq(before + ([node] + after), s) {
      var k := ConcatElim(before, [node] + after, s);
      ChoiceThen(body, after, s[k..]);
      var i :| 0 <= i < |cs| && MatchSeq(Compile(cs[i]) + after, s[k..]);
      ConcatIntro(before, Compile(cs[i]) + after, s, k);
    }
    if i :| 0 <= i < |cs| && MatchSeq(before + (Compile(cs[i]) + after), s) {
      var k := ConcatElim(before, Compile(cs[i]) + after, s);
      ChoiceThen(body, after, s[k..]);
      ConcatIntro(before, [node] + after, s, k);
    }
  }

  /** What a choice takes of a path: globstars alone take anything on one line. */
  ghost predicate Taken(g: seq<string>, u: string) {
    if AllGlobstar(g) then OneLine(u) else Grouped(SegmentAccepts(), g, u) && !EndsLoose(g)
  }

  lemma ChoiceTakes(a: string, c: string, b: string, u: string)
    requires Normal(u) && PlainText(a) && PlainText(b) && Aligned(a, c, b)
    ensures MatchSeq(CompileSeg(a) + (Compile(c) + CompileSeg(b)), u) <==> Taken(Glue(a, Fields(c), b), u)
  {
    assert Plain(c);
    hide MatchSeq, CompileSeg, CompileSegs, Compile, Fields, Normal, Aligned;
    SameGlobstars(a, c, b);
    Assoc(CompileSeg(a), Compile(c), CompileSeg(b));
    if AllGlobstar(Fields(c)) {
      GlobstarChoice(a, c, b, u);
    } else {
      ChoiceCompiled(a, c, b);
      GroupedSegments(Glue(a, Fields(c), b), u);
    }
  }

  lemma GlobstarChoice(a: string, c: string, b: string, u: string)
    requires Plain(c) && Aligned(a, c, b) && AllGlobstar(Fields(c))
    ensures a == "" && b == ""
    ensures MatchSeq((CompileSeg(a) + Compile(c)) + CompileSeg(b), u) <==> OneLine(u)
  {
    hide MatchSeq, CompileSegs, SplitFrom;
    var cs := Fields(c);
    var g := Glue(a, cs, b);
    assert cs[0] == STARSTAR && cs[|cs| - 1] == STARSTAR;
    assert g[0] == STARSTAR && g[|g| - 1] == STARSTAR;
    assert c != "" by { EmptyFields(); }
    SplitIsFields(c);
    NoText();
    assert ([] + [ANYTHING]) + [] == [ANYTHING];
    MatchOne(ANYTHING, u);
    AnythingOnOneLine(u);
  }

  lemma BraceTakes(a: string, body: string, b: string, u: string)
    requires Normal(u) && PlainText(a) && PlainText(b) && Plain(body)
    requires forall i | 0 <= i < |Choices(body)| :: Aligned(a, Choices(body)[i], b)
    ensures SegmentAccepts()(a + "{" + body + "}" + b, u) <==>
            exists i | 0 <= i < |Choices(body)| :: Taken(Glue(a, Fields(Choices(body)[i]), b), u)
  {
    hide MatchSeq, CompileSeg, CompileChoices, Compile, Choices, Aligned, Normal, Fields, Taken, SplitFrom;
    BraceSegment(a, body, b);
    ChoiceInside(CompileSeg(a), body, CompileSeg(b), u);
    forall i | 0 <= i < |Choices(body)|
      ensures MatchSeq(CompileSeg(a) + (Compile(Choices(body)[i]) + CompileSeg(b)), u) <==>
              Taken(Glue(a, Fields(Choices(body)[i]), b), u)
    {
      ChoiceTakes(a, Choices(body)[i], b, u);
    }
  }

  // ---------- the brace between other segments ----------

  /** Between the names that before and later take, there are some on one line. */
  ghost predicate Filled(before: seq<string>, later: seq<string>, t: string) {
    exists k: nat, j: nat ::
      FilledAt(before, later, t, k, j)
  }

  ghost predicate FilledAt(before: seq<string>, later: seq<string>, t: string, k: nat, j: nat) {
    && NameCut(t, k) && k <= |t| && Boundary(Behind(t, k), j)
    && Grouped(SegmentAccepts(), before, t[..k]) && OneLine(Behind(t, k)[..j])
    && Grouped(SegmentAccepts(), later, Rest(Behind(t, k), j))
  }

  /** A choice in its place. */
  ghost predicate Placed(before: seq<string>, g: seq<string>, later: seq<string>, t: string) {
    if AllGlobstar(g) then Filled(before, later, t)
    else Grouped(SegmentAccepts(), before + g + later, t) && !EndsLoose(g)
  }

  /** The choice takes the names between k and, counted from there, j. */
  ghost predicate TakenAt(before: seq<string>, g: seq<string>, later: seq<string>, t: string, k: nat, j: nat) {
    && NameCut(t, k) && k <= |t| && Boundary(Behind(t, k), j)
    && Grouped(SegmentAccepts(), before, t[..k]) && Taken(g, Behind(t, k)[..j])
    && Grouped(SegmentAccepts(), later, Rest(Behind(t, k), j))
  }

  lemma TakenIsPlaced(before: seq<string>, g: seq<string>, later: seq<string>, t: string, k: nat, j: nat)
    requires Normal(t) && TakenAt(before, g, later, t, k, j)
    ensures Placed(before, g, later, t)
  {
    hide Normal, Grouped;
    if AllGlobstar(g) {
      assert FilledAt(before, later, t, k, j);
    } else {
      BehindIsNormal(t, k);
      GroupedJoin(SegmentAccepts(), g, later, Behind(t, k), j);
      GroupedJoin(SegmentAccepts(), before, g + later, t, k);
      assert before + (g + later) == before + g + later;
    }
  }

  lemma PlacedIsTaken(before: seq<string>, g: seq<string>, later: seq<string>, t: string) returns (k: nat, j: nat)
    requires Normal(t) && Placed(before, g, later, t)
    ensures TakenAt(before, g, later, t, k, j)
  {
    hide Normal, Grouped;
    if AllGlobstar(g) {
      k, j :| FilledAt(before, later, t, k, j);
    } else {
      assert before + g + later == before + (g + later);
      k := GroupedSplit(SegmentAccepts(), before, g + later, t);
      BehindIsNormal(t, k);
      j := GroupedSplit(SegmentAccepts(), g, later, Behind(t, k));
      GroupedNothing(SegmentAccepts(), g);
      assert Behind(t, k)[..0] == "";
    }
  }

  lemma BracePlaced(before: seq<string>, x: string, gs: seq<seq<string>>, later: seq<string>, t: string)
    requires Normal(t) && x != STARSTAR
    requires forall u | Normal(u) :: SegmentAccepts()(x, u) <==> exists i | 0 <= i < |gs| :: Taken(gs[i], u)
    ensures Grouped(SegmentAccepts(), before + [x] + later, t) <==>
            exists i | 0 <= i < |gs| :: Placed(before, gs[i], later, t)
  {
    hide Placed;
    if Grouped(SegmentAccepts(), before + [x] + later, t) {
      PlaceBrace(before, x, gs, later, t);
    }
    if i :| 0 <= i < |gs| && Placed(before, gs[i], later, t) {
      var k, j := PlacedIsTaken(before, gs[i], later, t);
      TakeBrace(before, x, gs, later, t, i, k, j);
    }
  }

  lemma PlaceBrace(before: seq<string>, x: string, gs: seq<seq<string>>, later: seq<string>, t: string)
    requires Normal(t) && x != STARSTAR && Grouped(SegmentAccepts(), before + [x] + later, t)
    requires forall u | Normal(u) :: SegmentAccepts()(x, u) <==> exists i | 0 <= i < |gs| :: Taken(gs[i], u)
    ensures exists i | 0 <= i < |gs| :: Placed(before, gs[i], later, t)
  {
    hide Normal, Placed, Taken, CompileSeg, MatchSeq;
    assert before + [x] + later == before + ([x] + later);
    var k := GroupedSplit(SegmentAccepts(), before, [x] + later, t);
    var r := Behind(t, k);
    BehindIsNormal(t, k);
    assert ([x] + later)[1..] == later;
    GroupedNothing(SegmentAccepts(), [x] + later);
    assert ([x] + later)[0] == x;
    var j: nat :| Boundary(r, j) && SegmentAccepts()(x, r[..j]) && Grouped(SegmentAccepts(), later, Rest(r, j));
    PrefixIsNormal(r, j);
    var i :| 0 <= i < |gs| && Taken(gs[i], r[..j]);
    TakenIsPlaced(before, gs[i], later, t, k, j);
  }

  lemma TakeBrace(before: seq<string>, x: string, gs: seq<seq<string>>, later: seq<string>, t: string, i: nat, k: nat,
      j: nat)
    requires Normal(t) && x != STARSTAR && i < |gs| && TakenAt(before, gs[i], later, t, k, j)
    requires forall u | Normal(u) :: SegmentAccepts()(x, u) <==> exists i | 0 <= i < |gs| :: Taken(gs[i], u)
    ensures Grouped(SegmentAccepts(), before + [x] + later, t)
  {
    hide Normal, Taken, CompileSeg, MatchSeq;
    var r := Behind(t, k);
    BehindIsNormal(t, k);
    assert r != "";
    PrefixIsNormal(r, j);
    assert SegmentAccepts()(x, r[..j]);
    assert ([x] + later)[1..] == later && ([x] + later)[0] == x;
    assert Grouped(SegmentAccepts(), [x] + later, r);
    hide Grouped;
    GroupedJoin(SegmentAccepts(), before, [x] + later, t, k);
    assert before + [x] + later == before + ([x] + later);
  }

  /** The last two segments are globstars. */
  predicate TailDoubled(segs: seq<string>) {
    |segs| >= 2 && segs[|segs| - 1] == STARSTAR && segs[|segs| - 2] == STARSTAR
  }

  predicate Neighbours(a: string, body: string, b: string) {
    && PlainText(a) && PlainText(b) && Plain(body)
    && forall i | 0 <= i < |Choices(body)| :: Aligned(a, Choices(body)[i], b)
  }

  /** A pattern with one brace accepts a normalised path iff some choice can be put in its place, and the
      segments behind the brace do not end in a doubled globstar. */
  lemma BraceLaw(p: string, before: seq<string>, a: string, body: string, b: string, later: seq<string>, t: string)
    requires Normal(t) && Split(p, '/') == before + [a + "{" + body + "}" + b] + later && Neighbours(a, body, b)
    ensures MatchSeq(Compile(p), t) <==>
            && !TailDoubled(later)
            && exists i | 0 <= i < |Choices(body)| :: Placed(before, Glue(a, Fields(Choices(body)[i]), b), later, t)
  {
    hide MatchSeq, Compile, Choices, Fields, Grouped, Placed, Taken, CompileSeg, SplitFrom;
    var x := a + "{" + body + "}" + b;
    var cs := Choices(body);
    var gs := seq(|cs|, i requires 0 <= i < |cs| => Glue(a, Fields(cs[i]), b));
    forall u | Normal(u) ensures SegmentAccepts()(x, u) <==> exists i | 0 <= i < |gs| :: Taken(gs[i], u) {
      BraceTakes(a, body, b, u);
      if i :| 0 <= i < |cs| && Taken(Glue(a, Fields(cs[i]), b), u) {
        assert Taken(gs[i], u);
      }
    }
    assert x[|a|] == '{';
    hide Normal, Neighbours, Glue;
    BracePlaced(before, x, gs, later, t);
    GroupedPattern(p, t);
    AroundBrace(before, x, later);
    if i :| 0 <= i < |cs| && Placed(before, Glue(a, Fields(cs[i]), b), later, t) {
      assert Placed(before, gs[i], later, t);
    }
  }

  lemma AroundBrace(before: seq<string>, x: string, later: seq<string>)
    requires x != STARSTAR
    ensures var segs := before + [x] + later; !AllGlobstar(segs) && (EndsDoubled(segs) <==> TailDoubled(later))
  {
    var segs := before + [x] + later;
    assert segs[|before|] == x;
    assert later != [] ==> segs[|segs| - 1] == later[|later| - 1];
    assert |later| >= 2 ==> segs[|segs| - 2] == later[|later| - 2];
  }
}
