/** Brace lists of cheap shapes, and the theorem for every pattern. */
module GlobLists {
  import opened Wrappers
  import opened Paths
  import opened Regex
  import opened GlobSplit
  import opened GlobCompile
  import opened GlobReference
  import opened GlobWildcard
  import opened GlobMeaning
  import opened GlobShapes
  import opened GlobParsed
  import opened GlobParse
  import opened GlobFast

  // ---------- what a brace list answers ----------

  lemma {:induction false} NotNullCovers(ps: seq<Parsed>, p: Parsed)
    ensures p in NotNull(ps) <==> p in ps && !p.Null?
  {
    if ps != [] {
      NotNullCovers(ps[1..], p);
    }
  }

  lemma NotNullHits(ps: seq<Parsed>, path: string, basename: string)
    ensures AnyHit(NotNull(ps), path, basename) <==> AnyHit(ps, path, basename)
  {
    if i :| 0 <= i < |NotNull(ps)| && Hit(NotNull(ps)[i], path, basename) {
      NotNullCovers(ps, NotNull(ps)[i]);
    }
    if i :| 0 <= i < |ps| && Hit(ps[i], path, basename) {
      NotNullCovers(ps, ps[i]);
    }
  }

  lemma NotNullSound(ps: seq<Parsed>)
    requires AllSound(ps)
    ensures AllSound(NotNull(ps))
  {
    forall i | 0 <= i < |NotNull(ps)| ensures Sound(NotNull(ps)[i]) {
      NotNullCovers(ps, NotNull(ps)[i]);
    }
  }

  lemma AnyOfHit(ps: seq<Parsed>, pattern: string, path: string, basename: string)
    requires pattern != ""
    ensures Hit(AnyOf(ps, pattern), path, basename) <==> AnyHit(ps, path, basename)
  {
    if path == "" {
      forall i | 0 <= i < |ps| ensures !Hit(ps[i], path, basename) { EmptyPath(ps[i], basename); }
    }
  }

  /** The merged, reduced matcher of a list matches iff a member does. */
  lemma ListMeaning(members: seq<Parsed>, pattern: string, path: string, basename: string)
    requires AllSound(members) && pattern != ""
    ensures Sound(Trivia3(members, pattern))
    ensures Hit(Trivia3(members, pattern), path, basename) <==> AnyHit(members, path, basename)
  {
    var ps := AggregateBasenameMatches(NotNull(members), pattern);
    NotNullSound(members);
    NotNullHits(members, path, basename);
    AggregateSound(NotNull(members), pattern);
    AggregationPreserves(NotNull(members), pattern, path, basename);
    AnyOfHit(ps, pattern, path, basename);
    EmptyPath(Null, basename);
  }

  /** Parsing yields sound matchers only. */
  lemma {:induction false} ParseSound(p: string, o: Options)
    ensures Sound(Parse(p, o))
    decreases |p|
  {
    hide TrimForExclusions, Compile, SplitOn;
    if IsT1(p) {
    } else if MatchT2(TrimForExclusions(p, o)).Some? {
      WordIsPlain(MatchT2(TrimForExclusions(p, o)).value);
    } else if IsT3(p, o.trimForExclusions) {
      hide MatchT2, MatchT4, MatchT5, IsT1, IsMember, Trivia3;
      var ms := SplitOn(Inner(p), ',');
      var members := ParseMembers(ms, o, |p| - 1);
      forall i | 0 <= i < |members| ensures Sound(members[i]) {
        ParseSound(Trim(ms[i]), o);
      }
      ListMeaning(members, p, "", "");
    }
  }

  // ---------- the expression of a brace list ----------

  lemma StemText(r: string)
    requires Word(r) || (r != "" && r[0] == '*' && Word(r[1..]))
    ensures r != "" && Plain(r) && Lacks(r, ',') && !Blank(r[|r| - 1])
  {
    var w := if Word(r) then r else r[1..];
    WordIsPlain(w);
    assert WordChar(w[|w| - 1]);
    assert r == w || r == "*" + w;
  }

  lemma TailText(t: string, trimming: bool)
    ensures var r := DropTail(t, trimming); t == r || t == r + "/" || t == r + "/**"
  {
  }

  lemma TextAround(r: string, tail: string)
    requires r != "" && Plain(r) && Lacks(r, ',') && !Blank(r[|r| - 1]) && (tail == "" || tail == "/" || tail == "/**")
    ensures var m := "**/" + (r + tail); Plain(m) && Lacks(m, ',') && Trim(m) == m && m != ""
  {
    PlainConcat(r, tail);
    LacksConcat(r, tail, ',');
    PlainConcat("**/", r + tail);
    LacksConcat("**/", r + tail, ',');
  }

  lemma MemberText(m: string, trimming: bool)
    requires IsMember(m, trimming)
    ensures Plain(m) && Lacks(m, ',') && Trim(m) == m && m != ""
  {
    var r := DropTail(m[3..], trimming);
    assert m == "**/" + m[3..];
    StemText(r);
    TailText(m[3..], trimming);
    assert r + "" == r;
    TextAround(r, "");
    TextAround(r, "/");
    TextAround(r, "/**");
  }

  lemma {:induction false} ProtectedInBraces(s: string, m: Mode)
    requires Plain(s) && m.braces
    ensures Whole(s + "}", '/', m)
    decreases |s|
  {
    if s != "" {
      assert (s + "}")[1..] == s[1..] + "}";
      ProtectedInBraces(s[1..], NextMode(s[0], '/', m));
    } else {
      assert (s + "}")[1..] == "";
    }
  }

  lemma {:induction false} PlainJoin(ns: seq<string>, sep: char)
    requires PlainChar(sep) && forall i | 0 <= i < |ns| :: Plain(ns[i])
    ensures Plain(JoinBy(ns, sep))
  {
    if |ns| > 1 {
      PlainJoin(ns[1..], sep);
      PlainConcat(ns[0], [sep]);
      PlainConcat(ns[0] + [sep], JoinBy(ns[1..], sep));
    }
  }

  lemma IndexFromUnique(s: string, c: char, from: nat, k: nat)
    requires from <= k < |s| && s[k] == c && forall j | from <= j < k :: s[j] != c
    ensures IndexFrom(s, c, from) == k
  {
  }

  lemma BraceIsOneSegment(p: string, inner: string)
    requires p == "{" + inner + "}" && Plain(inner)
    ensures Compile(p) == CompileSeg(p)
  {
    assert p[1..] == inner + "}";
    ProtectedInBraces(inner, Mode(true, false));
    assert Whole(p, '/', OUTSIDE);
    WholeSplits(p, '/', "", OUTSIDE);
    assert "" + p == p;
    assert Split(p, '/') == [p] && p != STARSTAR;
    assert CompileSegs([p], false) == CompileSeg(p);
  }

  lemma CompiledBrace(p: string, inner: string)
    requires p == "{" + inner + "}" && Plain(inner)
    ensures CompileSeg(p) == [Choice(CompileChoices(Split(inner, ',')))]
  {
    forall j | 1 <= j < |p| - 1 ensures p[j] != '}' { assert PlainChar(inner[j - 1]); }
    IndexFromUnique(p, '}', 1, |p| - 1);
    CompileBrace(p);
    assert p[1..|p| - 1] == inner && p[|p|..] == "";
  }

  /** The expression of a brace list accepts what the expression of some member accepts. */
  lemma CompiledList(p: string, trimming: bool, path: string)
    requires IsT3(p, trimming)
    ensures ValidSeq(Compile(p))
    ensures MatchSeq(Compile(p), path) <==>
            exists i | 0 <= i < |SplitOn(Inner(p), ',')| :: MatchSeq(Compile(SplitOn(Inner(p), ',')[i]), path)
  {
    var inner := Inner(p);
    var ms := SplitOn(inner, ',');
    forall i | 0 <= i < |ms| ensures Plain(ms[i]) && Lacks(ms[i], ',') && ms[i] != "" {
      assert ms[i] in ms;
      MemberText(ms[i], trimming);
    }
    JoinSplitOn(inner, ',');
    PlainJoin(ms, ',');
    SplitJoin(ms, ',');
    assert p == "{" + inner + "}";
    BraceIsOneSegment(p, inner);
    CompiledBrace(p, inner);
    ListAccepts(ms, inner, path);
    var alts := CompileChoices(ms);
    forall i | 0 <= i < |alts| ensures ValidNode(alts[i]) {
      CompileChoicesAt(ms, i);
      PlainValid(ms[i]);
    }
  }

  lemma ListAccepts(ms: seq<string>, inner: string, path: string)
    requires Split(inner, ',') == ms && ms != []
    ensures MatchSeq([Choice(CompileChoices(ms))], path) <==> exists i | 0 <= i < |ms| :: MatchSeq(Compile(ms[i]), path)
  {
    ChoiceThen(inner, [], path);
    assert Choices(inner) == ms;
    assert [Choice(CompileChoices(ms))] + [] == [Choice(CompileChoices(ms))];
    forall i | 0 <= i < |ms|
      ensures MatchSeq(Compile(ms[i]) + [], path) == MatchSeq(Compile(ms[i]), path)
    {
      assert Compile(ms[i]) + [] == Compile(ms[i]);
    }
    if i :| 0 <= i < |ms| && MatchSeq(Compile(ms[i]), path) {
      assert MatchSeq(Compile(Choices(inner)[i]) + [], path);
    }
  }

  // ---------- every pattern ----------

  /** A list, given that its members agree. */
  lemma FastT3(p: string, o: Options, path: string, basename: string)
    requires IsT3(p, false) && path != ""
    requires forall i | 0 <= i < |SplitOn(Inner(p), ',')| ::
               Hit(Parse(SplitOn(Inner(p), ',')[i], o), path, basename) <==>
                 Slow(SplitOn(Inner(p), ',')[i], path, basename)
    ensures Hit(Trivia3(ParseMembers(SplitOn(Inner(p), ','), o, |p| - 1), p), path, basename) <==>
            Slow(p, path, basename)
  {
    var ms := SplitOn(Inner(p), ',');
    var members := ParseMembers(ms, o, |p| - 1);
    forall i | 0 <= i < |ms|
      ensures Sound(members[i]) && (Hit(members[i], path, basename) <==> MatchSeq(Compile(ms[i]), path))
    {
      assert ms[i] in ms;
      MemberText(ms[i], false);
      ParseSound(ms[i], o);
      PlainValid(ms[i]);
      SlowIsMatch(ms[i], path, basename);
    }
    ListMeaning(members, p, path, basename);
    CompiledList(p, false, path);
    SlowIsMatch(p, path, basename);
  }

  /** The part of a path that the matcher of a pattern compares with text that has separators. */
  function ComparedPart(p: string, path: string): string {
    if IsT1(p) || MatchT2(p).Some? || IsT3(p, false) then ""
    else if MatchT4(p).Some? then LastChars(path, |MatchT4(p).value| + 1)
    else if MatchT5(p).Some? then path
    else ""
  }

  lemma MemberComparesNothing(m: string, path: string)
    requires IsMember(m, false)
    ensures ComparedPart(m, path) == ""
  {
    var r := DropSlash(m[3..]);
    assert m[..3][0] == '*' && DropSlash(m)[0] == '*';
    assert r != "";
  }

  /** Whatever shape a pattern has, on a normalised path its matcher answers like the regular expression of
      the pattern, except that text with separators is compared as if the path had native ones only. */
  lemma {:induction false} FastForms(p: string, o: Options, path: string, basename: string)
    requires !o.trimForExclusions && NamedPath(path, basename, o)
    ensures Hit(Parse(p, o), path, basename) <==>
            Slow(p, path, basename) && OnlySep(ComparedPart(p, path), o.nativeSep)
    decreases |p|
  {
    hide Names, Compile, Run, Trivia3, Trivia4And5;
    if IsT1(p) {
      FastT1(p, path, basename);
    } else if MatchT2(p).Some? {
      FastT2(p, o, path, basename);
    } else if IsT3(p, false) {
      var ms := SplitOn(Inner(p), ',');
      forall i | 0 <= i < |ms|
        ensures Hit(Parse(ms[i], o), path, basename) <==> Slow(ms[i], path, basename)
      {
        FastForms(ms[i], o, path, basename);
        assert ms[i] in ms;
        MemberComparesNothing(ms[i], path);
      }
      FastT3(p, o, path, basename);
    } else if MatchT4(p).Some? {
      FastT4(p, o, path, basename);
    } else if MatchT5(p).Some? {
      FastT5(p, o, path, basename);
    }
  }

  /** The path that a matcher gets to see, if any. */
  function Seen(arg: Pattern, path: string, relative: (string, string) -> Option<string>): Option<string> {
    match arg
    case Text(_) => Some(path)
    case RelativePattern(base, _) => relative(base, path)
  }

  /** A parsed pattern matches, from its base folder on, what its segments mean. */
  lemma MatcherMeaning(arg: Pattern, o: Options, path: string, basename: string,
      relative: (string, string) -> Option<string>)
    requires !o.trimForExclusions && Plain(Trim(arg.text)) && Trim(arg.text) != ""
    requires Seen(arg, path, relative).Some? ==> NamedPath(Seen(arg, path, relative).value, basename, o)
    ensures var segs, seen := Split(Trim(arg.text), '/'), Seen(arg, path, relative);
            RunMatcher(Meaning(arg, o), path, basename, relative) !in {None, Some("")} <==>
            && seen.Some? && GlobMatch(WildMatch, segs, Names(seen.value))
            && !EndsDoubled(segs) && (AllGlobstar(segs) ==> OneLine(seen.value))
            && OnlySep(ComparedPart(Trim(arg.text), seen.value), o.nativeSep)
  {
    hide Parse, Split, GlobMatch, AllGlobstar, EndsDoubled, OneLine, ComparedPart, OnlySep, LastName, Names;
    var p, seen := Trim(arg.text), Seen(arg, path, relative);
    if seen.Some? {
      FastForms(p, o, seen.value, basename);
      PlainValid(p);
      SlowIsMatch(p, seen.value, basename);
      PlainGlobMeaning(p, seen.value);
    }
  }
}
