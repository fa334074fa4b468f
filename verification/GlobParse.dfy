/** Parsing a pattern into a matcher: first the cheap shapes, then the regular expression. */
module GlobParse {
  import opened Wrappers
  import opened Paths
  import opened Regex
  import opened GlobCompile
  import opened GlobShapes
  import opened GlobParsed

  datatype Options = Options(trimForExclusions: bool, nativeSep: char)

  function TrimForExclusions(p: string, o: Options): (r: string)
    ensures |r| <= |p|
  {
    if o.trimForExclusions && EndsWith(p, "/**") then p[..|p| - 2] else p
  }

  /** Slashes become native separators. */
  function Native(path: string, o: Options): (r: string)
    ensures |r| == |path| && forall i | 0 <= i < |r| :: r[i] == if path[i] == '/' then o.nativeSep else path[i]
  {
    seq(|path|, i requires 0 <= i < |path| => if path[i] == '/' then o.nativeSep else path[i])
  }

  /** Every range of a class goes upwards; otherwise there is no such regular expression. */
  predicate InOrder(toks: seq<Tok>) {
    if toks == [] then true
    else if |toks| >= 3 && toks[1] == Dash then TokChar(toks[0]) <= TokChar(toks[2]) && InOrder(toks[3..])
    else InOrder(toks[1..])
  }

  predicate ValidNode(n: Node) {
    match n
    case One(Class(toks)) => InOrder(if toks != [] && toks[0] == Caret then toks[1..] else toks)
    case One(_) => true
    case Cat(ns) => ValidSeq(ns)
    case Alt(alts) => ValidSeq(alts)
    case Star(body) => ValidNode(body)
  }

  predicate ValidSeq(ns: seq<Node>) {
    forall i | 0 <= i < |ns| :: ValidNode(ns[i])
  }

  function ToRegExp(pattern: string): Parsed {
    if ValidSeq(Compile(pattern)) then Expression(Compile(pattern), pattern) else Null
  }

  function Trivia4And5(path: string, pattern: string, matchPathEnds: bool, o: Options): Parsed {
    var native := Native(path, o);
    if matchPathEnds then PathEnd(native, [o.nativeSep] + native, pattern) else PathIs(native, pattern)
  }

  function NotNull(ps: seq<Parsed>): seq<Parsed> {
    if ps == [] then [] else (if ps[0].Null? then [] else [ps[0]]) + NotNull(ps[1..])
  }

  /** The matcher of a brace list, from the matchers of its members. */
  function Trivia3(members: seq<Parsed>, pattern: string): Parsed {
    var ps := AggregateBasenameMatches(NotNull(members), pattern);
    if ps == [] then Null else if |ps| == 1 then ps[0] else AnyOf(ps, pattern)
  }

  /** What parsing a trimmed pattern yields, without any cache. */
  function Parse(pattern: string, o: Options): Parsed
    decreases |pattern|, 2
  {
    if IsT1(pattern) then EndMatch(pattern[4..], pattern)
    else if MatchT2(TrimForExclusions(pattern, o)).Some? then
      NameMatch(MatchT2(TrimForExclusions(pattern, o)).value, pattern)
    else if IsT3(pattern, o.trimForExclusions) then
      Trivia3(ParseMembers(SplitOn(Inner(pattern), ','), o, |pattern| - 1), pattern)
    else if MatchT4(TrimForExclusions(pattern, o)).Some? then
      Trivia4And5(MatchT4(TrimForExclusions(pattern, o)).value, pattern, true, o)
    else if MatchT5(TrimForExclusions(pattern, o)).Some? then
      Trivia4And5(MatchT5(TrimForExclusions(pattern, o)).value, pattern, false, o)
    else ToRegExp(pattern)
  }

  function ParseText(text: string, o: Options): Parsed
    decreases |text|, 3
  {
    if text == "" then Null else Parse(Trim(text), o)
  }

  function ParseMembers(ms: seq<string>, o: Options, ghost bound: nat): (ps: seq<Parsed>)
    requires forall i | 0 <= i < |ms| :: |ms[i]| <= bound
    ensures |ps| == |ms| && forall i | 0 <= i < |ms| :: ps[i] == ParseText(ms[i], o)
    decreases bound, 4, |ms|
  {
    if ms == [] then [] else [ParseText(ms[0], o)] + ParseMembers(ms[1..], o, bound)
  }

  // ---------- the cached parser ----------

  /** A pattern as given: text, or text to be matched below a base folder. */
  datatype Pattern = Text(text: string) | RelativePattern(base: string, text: string)

  datatype Matcher = Anywhere(parsed: Parsed) | Below(base: string, parsed: Parsed)

  function Wrap(p: Parsed, arg: Pattern): Matcher {
    match arg
    case Text(_) => Anywhere(p)
    case RelativePattern(base, _) => Below(base, p)
  }

  /** What a pattern means by itself. */
  function Meaning(arg: Pattern, o: Options): Matcher {
    if arg == Text("") then Anywhere(Null) else Wrap(Parse(Trim(arg.text), o), arg)
  }

  /** White space around a pattern has no effect; a pattern of white space only is the empty pattern. */
  lemma PaddingIgnored(l: string, x: string, r: string, base: string, o: Options)
    requires AllBlank(l) && AllBlank(r) && Bare(x) && x != ""
    ensures Meaning(Text(l + x + r), o) == Meaning(Text(x), o) == Anywhere(Parse(x, o))
    ensures Meaning(RelativePattern(base, l + x + r), o) == Meaning(RelativePattern(base, x), o) ==
            Below(base, Parse(x, o))
  {
    hide Trim, Parse;
    TrimDrops(l, x, r);
    TrimDrops("", x, "");
    assert "" + x + "" == x;
  }

  /** Below a base, the matcher sees the path relative to it; relative gives no path for anything outside. */
  function RunMatcher(m: Matcher, path: string, basename: string,
      relative: (string, string) -> Option<string>): Option<string> {
    match m
    case Anywhere(p) => Run(p, path, basename)
    case Below(base, p) => if relative(base, path).None? then None else Run(p, relative(base, path).value, basename)
  }

  function Key(pattern: string, trimForExclusions: bool): string {
    pattern + if trimForExclusions then "_true" else "_false"
  }

  lemma KeyInjective(p: string, t: bool, q: string, u: bool)
    requires Key(p, t) == Key(q, u)
    ensures p == q && t == u
  {
    var k := Key(p, t);
    assert k[|k| - 5] == (if t then '_' else 'f') && k[|k| - 5] == if u then '_' else 'f';
    assert p == k[..|p|] && q == k[..|q|];
  }

  class PatternParser {
    const nativeSep: char
    var cache: map<string, Parsed>

    constructor (nativeSep: char)
      ensures Valid() && this.nativeSep == nativeSep && cache == map[]
    {
      this.nativeSep := nativeSep;
      cache := map[];
    }

    /** Every entry holds what parsing its pattern without a cache yields; no entry is wrapped. */
    ghost predicate Valid()
      reads this
    {
      forall p, t {:trigger Key(p, t)} :: Key(p, t) in cache ==> cache[Key(p, t)] == Parse(p, Options(t, nativeSep))
    }

    /** The result does not depend on the history, and no entry is ever lost or changed. */
    method ParsePattern(arg: Pattern, trimForExclusions: bool) returns (r: Matcher)
      requires Valid()
      modifies this
      ensures Valid() && r == Meaning(arg, Options(trimForExclusions, nativeSep))
      ensures old(cache).Keys <= cache.Keys && forall k | k in old(cache) :: cache[k] == old(cache)[k]
      ensures arg != Text("") ==> Key(Trim(arg.text), trimForExclusions) in cache
      decreases |arg.text|, 1
    {
      hide Compile, ParseMembers, TrimForExclusions, MatchT2, MatchT4, MatchT5, Trivia3, Trivia4And5, Trim, SplitOn;
      if arg == Text("") {
        return Anywhere(Null);
      }
      var o := Options(trimForExclusions, nativeSep);
      var pattern := Trim(arg.text);
      var patternKey := Key(pattern, trimForExclusions);
      if patternKey in cache {
        return Wrap(cache[patternKey], arg);
      }
      var parsed: Parsed;
      if IsT1(pattern) {
        parsed := EndMatch(pattern[4..], pattern);
      } else if MatchT2(TrimForExclusions(pattern, o)).Some? {
        parsed := NameMatch(MatchT2(TrimForExclusions(pattern, o)).value, pattern);
      } else if IsT3(pattern, trimForExclusions) {
        parsed := ParseList(pattern, trimForExclusions);
      } else if MatchT4(TrimForExclusions(pattern, o)).Some? {
        parsed := Trivia4And5(MatchT4(TrimForExclusions(pattern, o)).value, pattern, true, o);
      } else if MatchT5(TrimForExclusions(pattern, o)).Some? {
        parsed := Trivia4And5(MatchT5(TrimForExclusions(pattern, o)).value, pattern, false, o);
      } else {
        var regEx := ParseRegExp(pattern);
        parsed := if ValidSeq(regEx) then Expression(regEx, pattern) else Null;
      }
      assert parsed == Parse(pattern, o);
      forall p, t {:trigger Key(p, t)} | Key(p, t) == patternKey
        ensures parsed == Parse(p, Options(t, nativeSep))
      {
        KeyInjective(p, t, pattern, trimForExclusions);
      }
      cache := cache[patternKey := parsed];
      return Wrap(parsed, arg);
    }

    /** A brace list: its members are parsed through the same cache. */
    method ParseList(pattern: string, trimForExclusions: bool) returns (r: Parsed)
      requires Valid() && |pattern| >= 2
      modifies this
      ensures Valid()
      ensures var o := Options(trimForExclusions, nativeSep);
              r == Trivia3(ParseMembers(SplitOn(Inner(pattern), ','), o, |pattern| - 1), pattern)
      ensures old(cache).Keys <= cache.Keys && forall k | k in old(cache) :: cache[k] == old(cache)[k]
      decreases |pattern|, 0
    {
      hide Parse, AggregateBasenameMatches, SplitOn;
      var texts := SplitOn(Inner(pattern), ',');
      var members: seq<Parsed> := [];
      for i := 0 to |texts|
        invariant Valid() && |members| == i
        invariant forall j | 0 <= j < i :: members[j] == ParseText(texts[j], Options(trimForExclusions, nativeSep))
        invariant old(cache).Keys <= cache.Keys && forall k | k in old(cache) :: cache[k] == old(cache)[k]
      {
        var m := ParsePattern(Text(texts[i]), trimForExclusions);
        assert m.parsed == ParseText(texts[i], Options(trimForExclusions, nativeSep));
        members := members + [m.parsed];
      }
      assert members == ParseMembers(texts, Options(trimForExclusions, nativeSep), |pattern| - 1);
      var parsedPatterns := Aggregate(NotNull(members), pattern);
      if |parsedPatterns| == 0 {
        return Null;
      }
      if |parsedPatterns| == 1 {
        return parsedPatterns[0];
      }
      r := AnyOf(parsedPatterns, pattern);
    }
  }
}
