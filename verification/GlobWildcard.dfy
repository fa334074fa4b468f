/** What one segment of a glob means for one name, with wildcards, classes and brace expansion. */
module GlobWildcard {
  import opened Paths
  import opened Regex
  import opened Globstar
  import opened GlobSplit
  import opened GlobCompile
  import opened GlobReference

  /** The index of the first c at or after from, or the length. */
  function IndexFrom(s: string, c: char, from: nat): (i: nat)
    requires from <= |s|
    ensures from <= i <= |s| && (i < |s| ==> s[i] == c) && forall j | from <= j < i :: s[j] != c
    decreases |s| - from
  {
    if from == |s| || s[from] == c then from else IndexFrom(s, c, from + 1)
  }

  /** The end of a class whose body starts at index 1; the body has at least one character. */
  function ClassEnd(s: string): (i: nat)
    requires |s| >= 1
    ensures 1 <= i <= |s| && (i < |s| ==> i >= 2 && s[i] == ']')
  {
    if |s| == 1 then 1 else IndexFrom(s, ']', 2)
  }

  /** The end of a brace whose body starts at index 1. */
  function BraceEnd(s: string): (i: nat)
    requires |s| >= 1
    ensures 1 <= i <= |s| && (i < |s| ==> s[i] == '}') && forall j | 1 <= j < i :: s[j] != '}'
  {
    IndexFrom(s, '}', 1)
  }

  /** The choices of a brace body: what its commas separate, or the empty choice. */
  function Choices(body: string): (cs: seq<string>)
    ensures forall i | 0 <= i < |cs| :: |cs[i]| <= |body|
    ensures cs != []
  {
    var cs := Split(body, ',');
    forall i | 0 <= i < |cs| ensures |cs[i]| <= |body| { TotalBounds(cs, i); }
    if cs == [] then [""] else cs
  }

  predicate InList(b: string, c: char) {
    if b == "" then false
    else if |b| >= 3 && b[1] == '-' then b[0] <= c <= b[2] || InList(b[3..], c)
    else c == b[0] || InList(b[1..], c)
  }

  /** A class lists characters and ranges; a leading `!` or `^` negates it. */
  predicate InBody(b: string, c: char)
    requires b != ""
  {
    if b[0] == '!' || b[0] == '^' then !InList(b[1..], c) else InList(b, c)
  }

  /** The reference for one segment and one name. */
  predicate WildMatch(seg: string, name: string)
    decreases |seg|, |name|
  {
    if seg == "" then name == ""
    else if seg[0] == '*' then
      WildMatch(seg[1..], name) || (name != "" && !IsSep(name[0]) && WildMatch(seg, name[1..]))
    else if seg[0] == '?' then
      name != "" && !IsSep(name[0]) && WildMatch(seg[1..], name[1..])
    else if seg[0] == '[' && ClassEnd(seg) < |seg| then
      var e := ClassEnd(seg);
      name != "" && InBody(seg[1..e], name[0]) && WildMatch(seg[e + 1..], name[1..])
    else if seg[0] == '{' && BraceEnd(seg) < |seg| then
      var e := BraceEnd(seg);
      var cs := Choices(seg[1..e]);
      exists i | 0 <= i < |cs| :: WildMatch(cs[i] + seg[e + 1..], name)
    else
      name != "" && name[0] == seg[0] && WildMatch(seg[1..], name[1..])
  }

  /** Braces and classes are closed, classes hold no slash, and choices are well formed and not `**`. */
  predicate WellFormed(s: string)
    decreases |s|
  {
    if s == "" then true
    else if s[0] == '[' then
      var e := ClassEnd(s);
      e < |s| && (forall i | 1 <= i < e :: s[i] != '/') && WellFormed(s[e + 1..])
    else if s[0] == '{' then
      var e := BraceEnd(s);
      e < |s| && WellFormed(s[e + 1..]) &&
      var cs := Choices(s[1..e]);
      forall i | 0 <= i < |cs| :: WellFormed(cs[i]) && cs[i] != STARSTAR
    else s[0] != '}' && s[0] != ']' && s[0] != '/' && WellFormed(s[1..])
  }

  // ---------- classes ----------

  function BodyToks(b: string): (toks: seq<Tok>)
    ensures |toks| == |b|
    ensures forall i | 0 <= i < |b| :: toks[i] == if b[i] == '-' then Dash else Esc(b[i])
  {
    seq(|b|, i requires 0 <= i < |b| => if b[i] == '-' then Dash else Esc(b[i]))
  }

  lemma {:induction false} RangesAreList(b: string, c: char)
    ensures InRanges(BodyToks(b), c) <==> InList(b, c)
    decreases |b|
  {
    if b != "" {
      var toks := BodyToks(b);
      if |b| >= 3 && b[1] == '-' {
        assert toks[3..] == BodyToks(b[3..]);
        RangesAreList(b[3..], c);
      } else {
        assert toks[1..] == BodyToks(b[1..]);
        RangesAreList(b[1..], c);
      }
    }
  }

  /** The tokens collected for a class body. */
  function ClassOf(b: string): seq<Tok>
    requires b != ""
  {
    (if b[0] == '!' || b[0] == '^' then [Caret] else BodyToks(b[..1])) + BodyToks(b[1..])
  }

  lemma ClassIsBody(b: string, c: char)
    requires b != ""
    ensures InClass(ClassOf(b), c) <==> InBody(b, c)
  {
    var toks := ClassOf(b);
    if b[0] == '!' || b[0] == '^' {
      assert toks[1..] == BodyToks(b[1..]);
      RangesAreList(b[1..], c);
    } else {
      assert toks == BodyToks(b);
      RangesAreList(b, c);
    }
  }

  /** The characters of a class body that count: slashes are skipped. */
  function NoSlash(b: string): (r: string)
    ensures |r| <= |b|
    ensures b != "" && b[0] != '/' ==> r != "" && r[0] == b[0] && r[1..] == NoSlash(b[1..])
  {
    if b == "" then "" else (if b[0] == '/' then [] else [b[0]]) + NoSlash(b[1..])
  }

  lemma {:induction false} NoSlashInside(b: string)
    requires forall i | 0 <= i < |b| :: b[i] != '/'
    ensures NoSlash(b) == b
  {
    if b != "" {
      NoSlashInside(b[1..]);
    }
  }

  /** The first character at or after from that is no slash, or the length. */
  function SkipSlashes(s: string, from: nat): (i: nat)
    requires from <= |s|
    ensures from <= i <= |s| && (i < |s| ==> s[i] != '/') && forall j | from <= j < i :: s[j] == '/'
    decreases |s| - from
  {
    if from == |s| || s[from] != '/' then from else SkipSlashes(s, from + 1)
  }

  /** The end of a class, or the length: slashes do not count, and the first other character does not close it. */
  function ClassClose(s: string): (e: nat)
    requires |s| >= 1
    ensures 1 <= e <= |s| && (e < |s| ==> e >= 2 && s[e] == ']')
  {
    var f := SkipSlashes(s, 1);
    if f == |s| then |s| else IndexFrom(s, ']', f + 1)
  }

  lemma {:induction false} SlashesCountNothing(s: string, from: nat, e: nat)
    requires from <= |s| && SkipSlashes(s, from) <= e <= |s|
    ensures InBrackets([], s[from..]) == InBrackets([], s[SkipSlashes(s, from)..])
    ensures NoSlash(s[from..e]) == NoSlash(s[SkipSlashes(s, from)..e])
    decreases |s| - from
  {
    if from < |s| && s[from] == '/' {
      SlashesCountNothing(s, from + 1, e);
      assert s[from..][1..] == s[from + 1..] && [] + ClassToks([], '/') == [];
      assert s[from..e][1..] == s[from + 1..e];
    }
  }

  /** The scan has read some of the body; the class ends at e, or nowhere. */
  lemma {:induction false} ClassScan(s: string, e: nat, i: nat, toks: seq<Tok>)
    requires i <= e <= |s| && (e < |s| ==> s[e] == ']') && (forall j | i <= j < e :: s[j] != ']') && toks != []
    ensures InBrackets(toks, s[i..]) ==
            if e == |s| then [] else [One(Class(toks + BodyToks(NoSlash(s[i..e]))))] + CompileSeg(s[e + 1..])
    decreases e - i
  {
    hide BodyToks, NoSlash, CompileSeg;
    if i == e {
      EmptyBody(toks, s[i..e]);
      assert i < |s| ==> s[i..][1..] == s[e + 1..];
    } else {
      var more := toks + ClassToks(toks, s[i]);
      assert s[i..][1..] == s[i + 1..] && s[i..e][0] == s[i] && s[i..e][1..] == s[i + 1..e];
      ClassScan(s, e, i + 1, more);
      NextOfBody(toks, s[i..e]);
    }
  }

  lemma EmptyBody(toks: seq<Tok>, b: string)
    requires b == ""
    ensures toks + BodyToks(NoSlash(b)) == toks
  {
  }

  lemma BodyConcat(a: string, b: string)
    ensures BodyToks(a + b) == BodyToks(a) + BodyToks(b)
  {
  }

  lemma NextOfBody(toks: seq<Tok>, b: string)
    requires b != "" && toks != []
    ensures toks + BodyToks(NoSlash(b)) == (toks + ClassToks(toks, b[0])) + BodyToks(NoSlash(b[1..]))
  {
    var first := if b[0] == '/' then [] else [b[0]];
    assert NoSlash(b) == first + NoSlash(b[1..]);
    assert BodyToks(first) == ClassToks(toks, b[0]);
    hide NoSlash, BodyToks, ClassToks;
    BodyConcat(first, NoSlash(b[1..]));
  }

  /** A class as it is compiled, closed or not. */
  lemma CompileClassText(s: string)
    requires s != "" && s[0] == '['
    ensures ClassClose(s) == |s| ==> CompileSeg(s) == []
    ensures ClassClose(s) < |s| ==>
              var b := NoSlash(s[1..ClassClose(s)]);
              b != "" && CompileSeg(s) == [One(Class(ClassOf(b)))] + CompileSeg(s[ClassClose(s) + 1..])
  {
    hide NoSlash, InBrackets, CompileSeg, ClassOf, BodyToks;
    var f, e := SkipSlashes(s, 1), ClassClose(s);
    SlashesCountNothing(s, 1, e);
    ClassOpens(s);
    if f < |s| {
      ClassFrom(s, f, e);
    } else {
      EmptyBrackets();
    }
  }

  lemma ClassOpens(s: string)
    requires s != "" && s[0] == '['
    ensures CompileSeg(s) == InBrackets([], s[1..])
  {
  }

  lemma EmptyBrackets()
    ensures InBrackets([], "") == []
  {
  }

  lemma ClassFrom(s: string, f: nat, e: nat)
    requires 1 <= f < e <= |s| && s[f] != '/' && (e < |s| ==> s[e] == ']') && forall j | f < j < e :: s[j] != ']'
    ensures NoSlash(s[f..e]) != ""
    ensures InBrackets([], s[f..]) ==
            if e == |s| then [] else [One(Class(ClassOf(NoSlash(s[f..e]))))] + CompileSeg(s[e + 1..])
  {
    hide NoSlash, BodyToks, InBrackets, CompileSeg, ClassOf;
    var toks := ClassToks([], s[f]);
    assert s[f..][0] == s[f] && s[f..][1..] == s[f + 1..];
    FirstOfClass(s[f..]);
    hide ClassToks;
    ClassScan(s, e, f + 1, toks);
    assert s[f..e][0] == s[f] && s[f..e][1..] == s[f + 1..e];
    ClassOfSplit(s[f..e]);
  }

  lemma FirstOfClass(r: string)
    requires r != "" && r[0] != '/'
    ensures InBrackets([], r) == InBrackets(ClassToks([], r[0]), r[1..]) && ClassToks([], r[0]) != []
  {
    assert [] + ClassToks([], r[0]) == ClassToks([], r[0]);
  }

  lemma ClassOfSplit(b: string)
    requires b != "" && b[0] != '/'
    ensures NoSlash(b) != "" && ClassOf(NoSlash(b)) == ClassToks([], b[0]) + BodyToks(NoSlash(b[1..]))
  {
    var r := NoSlash(b);
    assert r[0] != '!' && r[0] != '^' ==> BodyToks(r[..1]) == ClassToks([], r[0]);
  }

  /** Without slashes in it, a class ends where one expects. */
  lemma CloseIsEnd(s: string)
    requires s != "" && ClassEnd(s) < |s| && forall i | 1 <= i < ClassEnd(s) :: s[i] != '/'
    ensures ClassClose(s) == ClassEnd(s) && NoSlash(s[1..ClassEnd(s)]) == s[1..ClassEnd(s)]
  {
    NoSlashInside(s[1..ClassEnd(s)]);
  }

  lemma CompileClass(s: string)
    requires s != "" && s[0] == '[' && ClassEnd(s) < |s| && forall i | 1 <= i < ClassEnd(s) :: s[i] != '/'
    ensures CompileSeg(s) == [One(Class(ClassOf(s[1..ClassEnd(s)])))] + CompileSeg(s[ClassEnd(s) + 1..])
  {
    hide *;
    CloseIsEnd(s);
    ClosedClass(s, ClassEnd(s), s[1..ClassEnd(s)]);
  }

  lemma ClosedClass(s: string, e: nat, b: string)
    requires s != "" && s[0] == '[' && 1 <= e == ClassClose(s) < |s| && b == NoSlash(s[1..e]) && b != ""
    ensures CompileSeg(s) == [One(Class(ClassOf(b)))] + CompileSeg(s[e + 1..])
  {
    hide *;
    CompileClassText(s);
  }

  // ---------- braces ----------

  lemma {:induction false} BraceScan(s: string, e: nat, i: nat)
    requires 1 <= i <= e < |s| && s[e] == '}' && forall j | i <= j < e :: s[j] != '}'
    ensures InBraces(s[1..i], s[i..]) == [Choice(CompileChoices(Split(s[1..e], ',')))] + CompileSeg(s[e + 1..])
    decreases e - i
  {
    hide CompileSeg, CompileChoices, SplitFrom;
    assert s[i..][0] == s[i] && s[i..][1..] == s[i + 1..];
    if i < e {
      assert s[1..i] + [s[i]] == s[1..i + 1];
      BraceScan(s, e, i + 1);
    }
  }

  lemma CompileBrace(s: string)
    requires s != "" && s[0] == '{' && BraceEnd(s) < |s|
    ensures CompileSeg(s) ==
            [Choice(CompileChoices(Split(s[1..BraceEnd(s)], ',')))] + CompileSeg(s[BraceEnd(s) + 1..])
  {
    BraceOpens(s);
    hide CompileSeg, CompileChoices, InBraces, SplitFrom;
    assert s[1..1] == "";
    BraceScan(s, BraceEnd(s), 1);
  }

  lemma BraceOpens(s: string)
    requires s != "" && s[0] == '{'
    ensures CompileSeg(s) == InBraces("", s[1..])
  {
  }

  /** A brace that is not closed drops the rest of its segment. */
  lemma {:induction false} OpenBrace(val: string, r: string)
    requires forall j | 0 <= j < |r| :: r[j] != '}'
    ensures InBraces(val, r) == []
    decreases |r|
  {
    if r != "" {
      OpenBrace(val + [r[0]], r[1..]);
    }
  }

  lemma {:induction false} CompileChoicesAt(cs: seq<string>, i: nat)
    requires i < |cs|
    ensures CompileChoices(cs)[i] == Cat(Compile(cs[i]))
  {
    if i > 0 {
      CompileChoicesAt(cs[1..], i - 1);
    }
  }

  /** A choice node followed by the rest accepts what some choice followed by the rest accepts. */
  lemma ChoiceThen(body: string, rest: seq<Node>, s: string)
    ensures MatchSeq([Choice(CompileChoices(Split(body, ',')))] + rest, s) <==>
            exists i | 0 <= i < |Choices(body)| :: MatchSeq(Compile(Choices(body)[i]) + rest, s)
  {
    var cs := Choices(body);
    var node := Choice(CompileChoices(Split(body, ',')));
    assert |node.alts| == |cs|;
    forall i | 0 <= i < |cs| ensures node.alts[i] == Cat(Compile(cs[i])) {
      ChoiceAt(body, i);
    }
    var branches := seq(|cs|, i requires 0 <= i < |cs| => Compile(cs[i]));
    hide Compile, MatchSeq, CompileChoices;
    AltThen(branches, node, rest, s);
  }

  lemma AltThen(branches: seq<seq<Node>>, node: Node, rest: seq<Node>, s: string)
    requires node.Alt? && |node.alts| == |branches| &&
            forall i | 0 <= i < |branches| :: node.alts[i] == Cat(branches[i])
    ensures MatchSeq([node] + rest, s) <==> exists i | 0 <= i < |branches| :: MatchSeq(branches[i] + rest, s)
  {
    hide MatchSeq;
    if MatchSeq([node] + rest, s) {
      var k := ConcatElim([node], rest, s);
      MatchOne(node, s[..k]);
      var i :| 0 <= i < |node.alts| && MatchNode(node.alts[i], s[..k]);
      ConcatIntro(branches[i], rest, s, k);
    }
    if i :| 0 <= i < |branches| && MatchSeq(branches[i] + rest, s) {
      var k := ConcatElim(branches[i], rest, s);
      assert MatchNode(node.alts[i], s[..k]);
      MatchOne(node, s[..k]);
      ConcatIntro([node], rest, s, k);
    }
  }

  // ---------- well-formed text in front of other text ----------

  lemma IndexFromPrefix(s: string, r: string, c: char, from: nat)
    requires from <= |s| && IndexFrom(s, c, from) < |s|
    ensures IndexFrom(s + r, c, from) == IndexFrom(s, c, from)
  {
    var i := IndexFrom(s, c, from);
    assert forall j | from <= j <= i :: (s + r)[j] == s[j];
  }

  lemma ClassEndPrefix(s: string, r: string)
    requires s != "" && ClassEnd(s) < |s|
    ensures ClassEnd(s + r) == ClassEnd(s)
  {
    IndexFromPrefix(s, r, ']', 2);
  }

  lemma ClassPrefix(c: string, r: string)
    requires c != "" && c[0] == '[' && ClassEnd(c) < |c| && forall i | 1 <= i < ClassEnd(c) :: c[i] != '/'
    ensures ClassEnd(c + r) == ClassEnd(c) && (c + r)[ClassEnd(c) + 1..] == c[ClassEnd(c) + 1..] + r
    ensures forall i | 1 <= i < ClassEnd(c) :: (c + r)[i] != '/'
    ensures CompileSeg(c + r) == [One(Class(ClassOf(c[1..ClassEnd(c)])))] + CompileSeg(c[ClassEnd(c) + 1..] + r)
  {
    var e := ClassEnd(c);
    ClassEndPrefix(c, r);
    assert forall i | 1 <= i < e :: (c + r)[i] == c[i];
    assert (c + r)[1..e] == c[1..e] && (c + r)[e + 1..] == c[e + 1..] + r;
    CompileClass(c + r);
  }

  lemma BracePrefix(c: string, r: string)
    requires c != "" && c[0] == '{' && BraceEnd(c) < |c|
    ensures BraceEnd(c + r) == BraceEnd(c)
    ensures (c + r)[1..BraceEnd(c)] == c[1..BraceEnd(c)] && (c + r)[BraceEnd(c) + 1..] == c[BraceEnd(c) + 1..] + r
    ensures CompileSeg(c + r) ==
            [Choice(CompileChoices(Split(c[1..BraceEnd(c)], ',')))] + CompileSeg(c[BraceEnd(c) + 1..] + r)
  {
    var e := BraceEnd(c);
    IndexFromPrefix(c, r, '}', 1);
    assert (c + r)[1..e] == c[1..e] && (c + r)[e + 1..] == c[e + 1..] + r;
    CompileBrace(c + r);
  }

  /** Well-formed text compiles on its own, whatever follows it. */
  lemma {:induction false} CompilePrefix(c: string, r: string)
    requires WellFormed(c)
    ensures CompileSeg(c + r) == CompileSeg(c) + CompileSeg(r)
    decreases |c|
  {
    if c == "" {
      assert c + r == r;
    } else if c[0] == '[' {
      CompilePrefix(c[ClassEnd(c) + 1..], r);
      ClassThenText(c, r);
    } else if c[0] == '{' {
      CompilePrefix(c[BraceEnd(c) + 1..], r);
      BraceThenText(c, r);
    } else {
      assert (c + r)[1..] == c[1..] + r;
      CompilePrefix(c[1..], r);
      Assoc(CompileChar(c[0]), CompileSeg(c[1..]), CompileSeg(r));
    }
  }

  lemma NodeThenText(n: Node, c: string, tail: string, r: string)
    requires CompileSeg(c) == [n] + CompileSeg(tail) && CompileSeg(c + r) == [n] + CompileSeg(tail + r)
    requires CompileSeg(tail + r) == CompileSeg(tail) + CompileSeg(r)
    ensures CompileSeg(c + r) == CompileSeg(c) + CompileSeg(r)
  {
    hide CompileSeg;
    Assoc([n], CompileSeg(tail), CompileSeg(r));
  }

  lemma ClassThenText(c: string, r: string)
    requires c != "" && c[0] == '[' && ClassEnd(c) < |c| && forall i | 1 <= i < ClassEnd(c) :: c[i] != '/'
    requires CompileSeg(c[ClassEnd(c) + 1..] + r) == CompileSeg(c[ClassEnd(c) + 1..]) + CompileSeg(r)
    ensures CompileSeg(c + r) == CompileSeg(c) + CompileSeg(r)
  {
    ClassPrefix(c, r);
    CompileClass(c);
    NodeThenText(One(Class(ClassOf(c[1..ClassEnd(c)]))), c, c[ClassEnd(c) + 1..], r);
  }

  lemma BraceThenText(c: string, r: string)
    requires c != "" && c[0] == '{' && BraceEnd(c) < |c|
    requires CompileSeg(c[BraceEnd(c) + 1..] + r) == CompileSeg(c[BraceEnd(c) + 1..]) + CompileSeg(r)
    ensures CompileSeg(c + r) == CompileSeg(c) + CompileSeg(r)
  {
    hide CompileSeg, CompileChoices, SplitFrom, BraceEnd;
    var e := BraceEnd(c) + 1;
    var node := Choice(CompileChoices(Split(c[1..e - 1], ',')));
    BracePrefix(c, r);
    CompileBrace(c);
    Assoc([node], CompileSeg(c[e..]), CompileSeg(r));
  }

  lemma {:induction false} WellFormedConcat(c: string, r: string)
    requires WellFormed(c) && WellFormed(r)
    ensures WellFormed(c + r)
    decreases |c|
  {
    if c == "" {
      assert c + r == r;
    } else if c[0] == '[' {
      WellFormedConcat(c[ClassEnd(c) + 1..], r);
      WellFormedClass(c, r);
    } else if c[0] == '{' {
      WellFormedConcat(c[BraceEnd(c) + 1..], r);
      WellFormedBrace(c, r);
    } else {
      assert (c + r)[1..] == c[1..] + r;
      WellFormedConcat(c[1..], r);
    }
  }

  lemma WellFormedClass(c: string, r: string)
    requires c != "" && c[0] == '[' && WellFormed(c) && WellFormed(c[ClassEnd(c) + 1..] + r)
    ensures WellFormed(c + r)
  {
    hide ClassEnd, CompileSeg, ClassOf;
    ClassPrefix(c, r);
  }

  lemma WellFormedBrace(c: string, r: string)
    requires c != "" && c[0] == '{' && WellFormed(c) && WellFormed(c[BraceEnd(c) + 1..] + r)
    ensures WellFormed(c + r)
  {
    hide BraceEnd, CompileSeg, CompileChoices, Choices;
    BracePrefix(c, r);
  }

  predicate Lacks(s: string, c: char) {
    forall i | 0 <= i < |s| :: s[i] != c
  }

  lemma LacksConcat(a: string, b: string, c: char)
    requires Lacks(a, c) && Lacks(b, c)
    ensures Lacks(a + b, c)
  {
  }

  lemma {:induction false} LacksJoin(ns: seq<string>, sep: char, c: char)
    requires sep != c && forall i | 0 <= i < |ns| :: Lacks(ns[i], c)
    ensures Lacks(JoinBy(ns, sep), c)
  {
    if |ns| > 1 {
      LacksJoin(ns[1..], sep, c);
      LacksConcat(ns[0], [sep], c);
      LacksConcat(ns[0] + [sep], JoinBy(ns[1..], sep), c);
    }
  }

  /** A brace body lacks what its choices lack. */
  lemma ChoicesLackSlash(body: string)
    requires forall i | 0 <= i < |Choices(body)| :: Lacks(Choices(body)[i], '/')
    ensures Lacks(body, '/')
  {
    hide SplitFrom;
    var cs := Split(body, ',');
    assert cs != [] ==> Choices(body) == cs;
    LacksJoin(cs, ',', '/');
    SplitThenJoin(body, ',');
  }

  lemma LacksFrom(s: string, k: nat)
    requires k <= |s| && Lacks(s[k..], '/') && forall i | 0 <= i < k :: s[i] != '/'
    ensures Lacks(s, '/')
  {
    assert forall i | k <= i < |s| :: s[i] == s[k..][i - k];
  }

  lemma {:induction false} WellFormedLacksSlash(s: string)
    requires WellFormed(s)
    ensures Lacks(s, '/')
    decreases |s|
  {
    hide SplitFrom, IndexFrom;
    if s == "" {
    } else if s[0] == '[' {
      WellFormedLacksSlash(s[ClassEnd(s) + 1..]);
      LacksFrom(s, ClassEnd(s) + 1);
    } else if s[0] == '{' {
      var e := BraceEnd(s);
      var cs := Choices(s[1..e]);
      WellFormedLacksSlash(s[e + 1..]);
      forall i | 0 <= i < |cs| ensures Lacks(cs[i], '/') {
        WellFormedLacksSlash(cs[i]);
      }
      ChoicesLackSlash(s[1..e]);
      assert forall i | 1 <= i < e :: s[i] == s[1..e][i - 1];
      LacksFrom(s, e + 1);
    } else {
      WellFormedLacksSlash(s[1..]);
      LacksFrom(s, 1);
    }
  }

  lemma {:induction false} LackingIsWhole(s: string, sep: char, m: Mode)
    requires Lacks(s, sep)
    ensures Whole(s, sep, m)
    decreases |s|
  {
    if s != "" {
      LackingIsWhole(s[1..], sep, NextMode(s[0], sep, m));
    }
  }

  /** Well-formed text is compiled as one segment. */
  lemma CompileWellFormed(c: string)
    requires WellFormed(c) && c != STARSTAR
    ensures Compile(c) == CompileSeg(c)
  {
    if c != "" {
      WellFormedLacksSlash(c);
      LackingIsWhole(c, '/', OUTSIDE);
      WholeSplits(c, '/', "", OUTSIDE);
      assert "" + c == c;
      assert Split(c, '/') == [c];
      assert CompileSegs([c], false) == CompileSeg(c);
    }
  }

  // ---------- the theorem for one segment ----------

  lemma NameRunThen(rest: seq<Node>, s: string)
    ensures MatchSeq([NAME_RUN] + rest, s) <==>
            MatchSeq(rest, s) || (s != "" && !IsSep(s[0]) && MatchSeq([NAME_RUN] + rest, s[1..]))
  {
    hide MatchSeq, MatchNode;
    if MatchSeq([NAME_RUN] + rest, s) {
      var k := ConcatElim([NAME_RUN], rest, s);
      MatchOne(NAME_RUN, s[..k]);
      NameRun(s[..k]);
      if k == 0 {
        assert s[k..] == s;
      } else {
        assert !IsSep(s[..k][0]);
        assert s[1..][..k - 1] == s[..k][1..] && s[1..][k - 1..] == s[k..];
        RunThen(rest, s[1..], k - 1);
      }
    }
    if MatchSeq(rest, s) {
      assert s[0..] == s;
      RunThen(rest, s, 0);
    }
    if s != "" && !IsSep(s[0]) && MatchSeq([NAME_RUN] + rest, s[1..]) {
      var k := ConcatElim([NAME_RUN], rest, s[1..]);
      MatchOne(NAME_RUN, s[1..][..k]);
      NameRun(s[1..][..k]);
      assert s[..k + 1] == [s[0]] + s[1..][..k] && s[1..][k..] == s[k + 1..];
      RunThen(rest, s, k + 1);
    }
  }

  lemma RunThen(rest: seq<Node>, s: string, k: nat)
    requires k <= |s| && SepFree(s[..k]) && MatchSeq(rest, s[k..])
    ensures MatchSeq([NAME_RUN] + rest, s)
  {
    MatchOne(NAME_RUN, s[..k]);
    NameRun(s[..k]);
    ConcatIntro([NAME_RUN], rest, s, k);
  }

  /** A compiled segment accepts a name iff the reference does. */
  lemma {:induction false} SegmentMeaning(seg: string, name: string)
    requires WellFormed(seg)
    ensures MatchSeq(CompileSeg(seg), name) <==> WildMatch(seg, name)
    decreases |seg|, |name|
  {
    if seg == "" {
    } else if seg[0] == '*' {
      NameRunThen(CompileSeg(seg[1..]), name);
      SegmentMeaning(seg[1..], name);
      if name != "" {
        SegmentMeaning(seg, name[1..]);
      }
    } else if seg[0] == '[' {
      var e := ClassEnd(seg);
      CompileClass(seg);
      MatchHead(Class(ClassOf(seg[1..e])), CompileSeg(seg[e + 1..]), name);
      if name != "" {
        ClassIsBody(seg[1..e], name[0]);
        SegmentMeaning(seg[e + 1..], name[1..]);
      }
    } else if seg[0] == '{' {
      BraceMeaning(seg, name);
    } else {
      assert CompileSeg(seg) == [if seg[0] == '?' then One(NoSep) else One(Lit(seg[0]))] + CompileSeg(seg[1..]);
      MatchHead(if seg[0] == '?' then NoSep else Lit(seg[0]), CompileSeg(seg[1..]), name);
      if name != "" {
        SegmentMeaning(seg[1..], name[1..]);
      }
    }
  }

  lemma {:induction false} BraceMeaning(seg: string, name: string)
    requires WellFormed(seg) && seg != "" && seg[0] == '{'
    ensures MatchSeq(CompileSeg(seg), name) <==> WildMatch(seg, name)
    decreases |seg|, |name|, 0
  {
    var e := BraceEnd(seg);
    var body, rest := seg[1..e], seg[e + 1..];
    var cs := Choices(body);
    CompileBrace(seg);
    ChoiceThen(body, CompileSeg(rest), name);
    forall i | 0 <= i < |cs|
      ensures MatchSeq(Compile(cs[i]) + CompileSeg(rest), name) <==> WildMatch(cs[i] + rest, name)
    {
      CompileWellFormed(cs[i]);
      CompilePrefix(cs[i], rest);
      WellFormedConcat(cs[i], rest);
      SegmentMeaning(cs[i] + rest, name);
    }
  }

  // ---------- texts that cannot match a separator ----------

  /** No backslash, no class with a separator among its characters, and no such choice in a brace. */
  predicate FlatText(s: string)
    decreases |s|
  {
    if s == "" then true
    else if s[0] == '[' && ClassEnd(s) < |s| then
      var body := s[1..ClassEnd(s)];
      !InBody(body, '/') && !InBody(body, '\\') && FlatText(s[ClassEnd(s) + 1..])
    else if s[0] == '{' && BraceEnd(s) < |s| then
      var cs := Choices(s[1..BraceEnd(s)]);
      (forall i | 0 <= i < |cs| :: FlatText(cs[i])) && FlatText(s[BraceEnd(s) + 1..])
    else !IsSep(s[0]) && FlatText(s[1..])
  }

  /** Exactly such texts are compiled to nodes that accept no separator. */
  lemma {:induction false} FlatTextExact(s: string)
    requires WellFormed(s)
    ensures FlatText(s) <==> FlatSeq(CompileSeg(s))
    decreases |s|
  {
    hide CompileSeg, FlatSeq, FlatText, WellFormed;
    if s == "" {
      FlatNothing();
    } else if s[0] == '[' {
      ClassParts(s);
      FlatTextExact(s[ClassEnd(s) + 1..]);
      FlatClassText(s);
    } else if s[0] == '{' {
      BraceParts(s);
      FlatTextExact(s[BraceEnd(s) + 1..]);
      var cs := Choices(s[1..BraceEnd(s)]);
      forall i | 0 <= i < |cs| ensures FlatText(cs[i]) <==> FlatSeq(Compile(cs[i])) {
        CompileWellFormed(cs[i]);
        FlatTextExact(cs[i]);
      }
      FlatBraceText(s);
    } else {
      CharParts(s);
      FlatTextExact(s[1..]);
      FlatCharText(s);
    }
  }

  lemma ClassParts(s: string)
    requires WellFormed(s) && s != "" && s[0] == '['
    ensures ClassEnd(s) < |s| && (forall i | 1 <= i < ClassEnd(s) :: s[i] != '/') && WellFormed(s[ClassEnd(s) + 1..])
  {
  }

  lemma BraceParts(s: string)
    requires WellFormed(s) && s != "" && s[0] == '{'
    ensures BraceEnd(s) < |s| && WellFormed(s[BraceEnd(s) + 1..])
    ensures var cs := Choices(s[1..BraceEnd(s)]);
            forall i | 0 <= i < |cs| :: |cs[i]| < |s| && WellFormed(cs[i]) && cs[i] != STARSTAR
  {
  }

  lemma CharParts(s: string)
    requires WellFormed(s) && s != "" && s[0] != '[' && s[0] != '{'
    ensures s[0] != '}' && s[0] != ']' && s[0] != '/' && WellFormed(s[1..])
  {
  }

  lemma FlatNothing()
    ensures FlatText("") && FlatSeq(CompileSeg(""))
  {
    assert CompileSeg("") == [];
  }

  lemma FlatClassText(s: string)
    requires s != "" && s[0] == '[' && ClassEnd(s) < |s| && forall i | 1 <= i < ClassEnd(s) :: s[i] != '/'
    requires FlatText(s[ClassEnd(s) + 1..]) <==> FlatSeq(CompileSeg(s[ClassEnd(s) + 1..]))
    ensures FlatText(s) <==> FlatSeq(CompileSeg(s))
  {
    hide ClassEnd, InBody, InClass, CompileSeg, FlatSeq, ClassOf;
    var e := ClassEnd(s);
    CompileClass(s);
    ClassIsBody(s[1..e], '/');
    ClassIsBody(s[1..e], '\\');
    FlatCons(One(Class(ClassOf(s[1..e]))), CompileSeg(s[e + 1..]));
  }

  lemma FlatBraceText(s: string)
    requires s != "" && s[0] == '{' && BraceEnd(s) < |s|
    requires FlatText(s[BraceEnd(s) + 1..]) <==> FlatSeq(CompileSeg(s[BraceEnd(s) + 1..]))
    requires forall i | 0 <= i < |Choices(s[1..BraceEnd(s)])| ::
               FlatText(Choices(s[1..BraceEnd(s)])[i]) <==> FlatSeq(Compile(Choices(s[1..BraceEnd(s)])[i]))
    ensures FlatText(s) <==> FlatSeq(CompileSeg(s))
  {
    FlatBrace(s);
    CompileBrace(s);
    hide BraceEnd, CompileSeg, Compile, Choices, FlatSeq, FlatText, CompileChoices, SplitFrom;
    FlatChoices(s[1..BraceEnd(s)]);
    FlatCons(Choice(CompileChoices(Split(s[1..BraceEnd(s)], ','))), CompileSeg(s[BraceEnd(s) + 1..]));
  }

  lemma FlatCharText(s: string)
    requires s != "" && s[0] != '[' && s[0] != '{' && s[0] != ']' && s[0] != '}'
    requires FlatText(s[1..]) <==> FlatSeq(CompileSeg(s[1..]))
    ensures FlatText(s) <==> FlatSeq(CompileSeg(s))
  {
    hide CompileSeg, FlatSeq;
    FlatChar(s);
  }

  lemma FlatCons(n: Node, ns: seq<Node>)
    ensures FlatSeq([n] + ns) <==> Flat(n) && FlatSeq(ns)
  {
    var all := [n] + ns;
    assert all[0] == n;
    if FlatSeq(all) {
      forall i | 0 <= i < |ns| ensures Flat(ns[i]) { assert all[i + 1] == ns[i]; }
    }
  }

  lemma FlatChar(s: string)
    requires s != "" && s[0] != '[' && s[0] != '{' && s[0] != ']' && s[0] != '}'
    ensures FlatSeq(CompileSeg(s)) <==> !IsSep(s[0]) && FlatSeq(CompileSeg(s[1..]))
  {
    assert CompileSeg(s) == CompileChar(s[0]) + CompileSeg(s[1..]);
    FlatCons(CompileChar(s[0])[0], CompileSeg(s[1..]));
    assert CompileChar(s[0]) == [CompileChar(s[0])[0]];
  }

  lemma FlatBrace(s: string)
    requires s != "" && s[0] == '{' && BraceEnd(s) < |s|
    ensures var cs := Choices(s[1..BraceEnd(s)]);
            FlatText(s) <==> (forall i | 0 <= i < |cs| :: FlatText(cs[i])) && FlatText(s[BraceEnd(s) + 1..])
  {
    hide Choices, BraceEnd;
  }

  lemma FlatChoices(body: string)
    ensures Flat(Choice(CompileChoices(Split(body, ',')))) <==>
            forall i | 0 <= i < |Choices(body)| :: FlatSeq(Compile(Choices(body)[i]))
  {
    hide Compile, FlatSeq;
    var cs, node := Choices(body), Choice(CompileChoices(Split(body, ',')));
    assert |node.alts| == |cs|;
    forall i | 0 <= i < |cs| ensures node.alts[i] == Cat(Compile(cs[i])) {
      ChoiceAt(body, i);
    }
    assert Flat(node) <==> FlatSeq(node.alts);
    FlatCats(node.alts, cs);
  }

  lemma ChoiceAt(body: string, i: nat)
    requires i < |Choices(body)|
    ensures Choice(CompileChoices(Split(body, ','))).alts[i] == Cat(Compile(Choices(body)[i]))
  {
    if Split(body, ',') != [] {
      CompileChoicesAt(Choices(body), i);
    }
  }

  lemma FlatCats(ns: seq<Node>, cs: seq<string>)
    requires |ns| == |cs| && forall i | 0 <= i < |cs| :: ns[i] == Cat(Compile(cs[i]))
    ensures FlatSeq(ns) <==> forall i | 0 <= i < |cs| :: FlatSeq(Compile(cs[i]))
  {
    hide Compile;
    if FlatSeq(ns) {
      forall i | 0 <= i < |cs| ensures FlatSeq(Compile(cs[i])) { assert Flat(ns[i]); }
    }
  }
}
