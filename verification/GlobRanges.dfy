/** Which patterns have no regular expression: those that compile a class with a range that goes downwards. */
module GlobRanges {
  import opened Wrappers
  import opened Regex
  import opened Globstar
  import opened GlobSplit
  import opened GlobCompile
  import opened GlobWildcard
  import opened GlobParsed
  import opened GlobParse
  import opened GlobFast
  import GlobCuts

  /** Every range in the list goes upwards. */
  predicate Upward(b: string) {
    if b == "" then true
    else if |b| >= 3 && b[1] == '-' then b[0] <= b[2] && Upward(b[3..])
    else Upward(b[1..])
  }

  predicate UpwardBody(b: string)
    requires b != ""
  {
    Upward(if b[0] == '!' || b[0] == '^' then b[1..] else b)
  }

  /** All classes that are compiled have upward ranges, at any depth. */
  predicate Upwards(p: string)
    decreases |p|, 2
  {
    p == "" || AllGlobstar(Split(p, '/')) ||
    forall i | 0 <= i < |Split(p, '/')| :: |Split(p, '/')[i]| <= |p| && UpwardsSeg(Split(p, '/')[i])
  }

  /** One segment; what is not closed is not compiled. */
  predicate UpwardsSeg(s: string)
    decreases |s|, 1
  {
    if s == "" then true
    else if s[0] == '{' then
      var e := BraceEnd(s);
      e == |s| ||
      (UpwardsSeg(s[e + 1..]) && forall i | 0 <= i < |Choices(s[1..e])| :: Upwards(Choices(s[1..e])[i]))
    else if s[0] == '[' then
      var e := ClassClose(s);
      e == |s| || (NoSlash(s[1..e]) != "" && UpwardBody(NoSlash(s[1..e])) && UpwardsSeg(s[e + 1..]))
    else UpwardsSeg(s[1..])
  }

  lemma ValidParts(a: seq<Node>, b: seq<Node>)
    ensures ValidSeq(a + b) <==> ValidSeq(a) && ValidSeq(b)
  {
    if ValidSeq(a + b) {
      forall i | 0 <= i < |a| ensures ValidNode(a[i]) { assert (a + b)[i] == a[i]; }
      forall i | 0 <= i < |b| ensures ValidNode(b[i]) { assert (a + b)[|a| + i] == b[i]; }
    }
  }

  lemma ValidCons(n: Node, rest: seq<Node>)
    ensures ValidSeq([n] + rest) <==> ValidNode(n) && ValidSeq(rest)
  {
    ValidParts([n], rest);
    assert ValidSeq([n]) <==> ValidNode([n][0]);
  }

  lemma {:induction false} BodyInOrder(b: string)
    ensures InOrder(BodyToks(b)) <==> Upward(b)
    decreases |b|
  {
    if b != "" {
      var toks := BodyToks(b);
      if |b| >= 3 && b[1] == '-' {
        assert toks[3..] == BodyToks(b[3..]);
        BodyInOrder(b[3..]);
      } else {
        assert toks[1..] == BodyToks(b[1..]);
        BodyInOrder(b[1..]);
      }
    }
  }

  lemma ClassInOrder(b: string)
    requires b != ""
    ensures ValidNode(One(Class(ClassOf(b)))) <==> UpwardBody(b)
  {
    var toks := ClassOf(b);
    if b[0] == '!' || b[0] == '^' {
      assert toks[1..] == BodyToks(b[1..]);
      BodyInOrder(b[1..]);
    } else {
      assert toks == BodyToks(b);
      BodyInOrder(b);
    }
  }

  lemma PlainNodes(c: char)
    ensures ValidSeq(CompileChar(c))
  {
    ValidEmitted();
    assert ValidNode(Choice([])) by {
      assert ValidSeq([Cat([])]) by { assert ValidNode(Cat([])); }
    }
    assert ValidNode(One(Class([])));
  }

  lemma {:induction false} SegExactly(s: string)
    ensures ValidSeq(CompileSeg(s)) <==> UpwardsSeg(s)
    decreases |s|, 1
  {
    hide CompileChoices, InBraces, InBrackets, ClassOf, UpwardBody, Choices, NoSlash, CompileChar;
    if s == "" {
    } else if s[0] == '{' {
      BraceExactly(s);
    } else if s[0] == '[' {
      CompileClassText(s);
      var e := ClassClose(s);
      hide ClassClose, CompileSeg;
      if e < |s| {
        var b := NoSlash(s[1..e]);
        ClassInOrder(b);
        SegExactly(s[e + 1..]);
        ValidCons(One(Class(ClassOf(b))), CompileSeg(s[e + 1..]));
      }
    } else {
      PlainNodes(s[0]);
      SegExactly(s[1..]);
      ValidParts(CompileChar(s[0]), CompileSeg(s[1..]));
    }
  }

  lemma UnfoldBrace(s: string)
    requires s != "" && s[0] == '{'
    ensures var e := BraceEnd(s);
            UpwardsSeg(s) <==>
            e == |s| ||
            (UpwardsSeg(s[e + 1..]) && forall i | 0 <= i < |Choices(s[1..e])| :: Upwards(Choices(s[1..e])[i]))
  {
    hide BraceEnd, Choices, Upwards;
  }

  lemma {:induction false} BraceExactly(s: string)
    requires s != "" && s[0] == '{'
    ensures ValidSeq(CompileSeg(s)) <==> UpwardsSeg(s)
    decreases |s|, 0
  {
    var e := BraceEnd(s);
    UnfoldBrace(s);
    if e == |s| {
      OpenBrace("", s[1..]);
      BraceOpens(s);
      hide CompileSeg, UpwardsSeg;
    } else {
      hide CompileSeg, UpwardsSeg, Upwards, Compile, ValidSeq, Choices, BraceEnd, SplitFrom, CompileChoices;
      var body := s[1..e];
      var cs := Choices(body);
      CompileBrace(s);
      SegExactly(s[e + 1..]);
      forall i | 0 <= i < |cs| ensures ValidSeq(Compile(cs[i])) <==> Upwards(cs[i]) {
        UpwardsExactly(cs[i]);
      }
      ValidCons(Choice(CompileChoices(Split(body, ','))), CompileSeg(s[e + 1..]));
      ChoicesValid(body);
    }
  }

  lemma ChoicesValid(body: string)
    ensures ValidNode(Choice(CompileChoices(Split(body, ',')))) <==>
            forall i | 0 <= i < |Choices(body)| :: ValidSeq(Compile(Choices(body)[i]))
  {
    hide Compile;
    var cs, node := Choices(body), Choice(CompileChoices(Split(body, ',')));
    assert |node.alts| == |cs|;
    forall i | 0 <= i < |cs| ensures node.alts[i] == Cat(Compile(cs[i])) {
      ChoiceAt(body, i);
    }
    assert ValidNode(node) <==> ValidSeq(node.alts);
    forall i | 0 <= i < |cs| ensures ValidNode(node.alts[i]) <==> ValidSeq(Compile(cs[i])) {
      assert ValidNode(Cat(Compile(cs[i]))) <==> ValidSeq(Compile(cs[i]));
    }
  }

  lemma EmitsValid(segs: seq<string>, prev: bool)
    requires segs != []
    requires segs[0] != STARSTAR ==> (ValidSeq(CompileSeg(segs[0])) <==> UpwardsSeg(segs[0]))
    ensures ValidSeq(SegmentEmits(segs, prev)) <==> UpwardsSeg(segs[0])
  {
    hide CompileSeg;
    ValidEmitted();
    if segs[0] == STARSTAR {
      assert UpwardsSeg("") && UpwardsSeg("*"[..]) && UpwardsSeg(STARSTAR);
    } else {
      hide UpwardsSeg;
      assert ValidSeq(TailSep(segs)) by { assert ValidNode(One(Sep)); }
      ValidParts(CompileSeg(segs[0]), TailSep(segs));
    }
  }

  lemma {:induction false} SegsExactly(segs: seq<string>, prev: bool, bound: nat)
    requires forall i | 0 <= i < |segs| :: |segs[i]| <= bound
    ensures ValidSeq(CompileSegs(segs, prev)) <==> forall i | 0 <= i < |segs| :: UpwardsSeg(segs[i])
    decreases bound, 2, |segs|
  {
    if segs != [] {
      var next := segs[0] == STARSTAR;
      SegExactly(segs[0]);
      EmitsValid(segs, prev);
      SegsExactly(segs[1..], next, bound);
      var rest := CompileSegs(segs[1..], next);
      assert CompileSegs(segs, prev) == SegmentEmits(segs, prev) + rest;
      hide CompileSegs, SegmentEmits, UpwardsSeg, ValidSeq;
      ValidParts(SegmentEmits(segs, prev), rest);
      assert forall i | 1 <= i < |segs| :: segs[i] == segs[1..][i - 1];
      assert forall i | 0 <= i < |segs[1..]| :: segs[1..][i] == segs[i + 1];
    }
  }

  lemma {:induction false} UpwardsExactly(p: string)
    ensures ValidSeq(Compile(p)) <==> Upwards(p)
    decreases |p|, 3
  {
    if p != "" {
      var segs := Split(p, '/');
      forall i | 0 <= i < |segs| ensures |segs[i]| <= |p| {
        TotalBounds(segs, i);
      }
      if AllGlobstar(segs) {
        ValidEmitted();
        assert ValidSeq([ANYTHING]);
      } else {
        SegsExactly(segs, false, |p|);
      }
    }
  }

  /** A pattern that is no trivial shape is parsed to nothing iff some class has a downward range. */
  lemma NoExpressionExactly(p: string)
    ensures ToRegExp(p).Null? <==> !Upwards(p)
    ensures Upwards(p) ==> ToRegExp(p) == Expression(Compile(p), p)
  {
    UpwardsExactly(p);
  }

  /** The smallest case. */
  lemma DownwardRange()
    ensures !Upwards("[b-a]") && Upwards("[a-b]") && Upwards("[a-a]")
  {
    RangeIn("[b-a]");
    RangeIn("[a-b]");
    RangeIn("[a-a]");
  }

  lemma RangeIn(p: string)
    requires |p| == 5 && p[0] == '[' && p[2] == '-' && p[4] == ']' && p[1] != ']' && p[3] != ']'
    requires p[1] != '/' && p[3] != '/' && p[1] != '!' && p[1] != '^'
    requires p[1] != '{' && p[1] != '[' && p[3] != '{' && p[3] != '['
    ensures Upwards(p) <==> p[1] <= p[3]
  {
    var body := p[1..4];
    assert p == ['['] + body + [']'];
    assert forall i | 0 <= i < |body| :: body[i] == p[i + 1];
    GlobCuts.UncutStays(p, '/');
    assert !AllGlobstar([p]) by { assert [p][0] != STARSTAR; }
    assert SkipSlashes(p, 1) == 1;
    assert ClassClose(p) == 4;
    NoSlashInside(body);
    assert Upward(body) <==> p[1] <= p[3] && Upward(body[3..]);
    assert body[3..] == "" && p[5..] == "";
    assert UpwardsSeg(p[5..]);
  }
}
