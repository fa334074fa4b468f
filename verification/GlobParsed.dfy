/** Parsed patterns: what each kind of matcher answers for a path, and how basename matchers are merged. */
module GlobParsed {
  import opened Wrappers
  import opened Paths
  import opened Regex
  import opened GlobShapes

  /** One constructor for each closure that the parser builds; an absent basename is the empty string. */
  datatype Parsed =
    | Null
    | EndMatch(base: string, pattern: string)
    | NameMatch(base: string, pattern: string)
    | NameList(basenames: seq<string>, patterns: seq<string>)
    | AnyOf(members: seq<Parsed>, pattern: string)
    | PathEnd(path: string, ending: string, pattern: string)
    | PathIs(path: string, pattern: string)
    | Expression(regEx: seq<Node>, pattern: string)
    | When(matcher: Parsed, pattern: string, clause: string)

  function Found(b: bool, pattern: string): Option<string> {
    if b then Some(pattern) else None
  }

  /** The index of the first b, or the length. */
  function IndexOf(bs: seq<string>, b: string): (i: nat)
    ensures i <= |bs| && (i < |bs| ==> bs[i] == b) && forall j | 0 <= j < i :: bs[j] != b
  {
    if bs == [] || bs[0] == b then 0 else 1 + IndexOf(bs[1..], b)
  }

  /** The answer of a matcher: the pattern that matched, if any. A sibling clause alone matches nothing. */
  function Run(p: Parsed, path: string, basename: string): Option<string>
    decreases p, 0
  {
    if path == "" then None else
    match p
    case Null => None
    case EndMatch(base, pattern) => Found(EndsWith(path, base), pattern)
    case NameMatch(base, pattern) =>
      if basename != "" then Found(basename == base, pattern)
      else Found(path == base || EndsWith(path, "/" + base) || EndsWith(path, "\\" + base), pattern)
    case NameList(basenames, patterns) =>
      var i := IndexOf(basenames, if basename == "" then LastName(path) else basename);
      if i < |basenames| && i < |patterns| then Some(patterns[i]) else None
    case AnyOf(members, pattern) => Found(exists i | 0 <= i < |members| :: Hit(members[i], path, basename), pattern)
    case PathEnd(end, ending, pattern) => Found(path == end || EndsWith(path, ending), pattern)
    case PathIs(whole, pattern) => Found(path == whole, pattern)
    case Expression(regEx, pattern) => Found(MatchSeq(regEx, path), pattern)
    case When(_, _, _) => None
  }

  /** The answer counts as a match: it is there and it is not the empty string. */
  predicate Hit(p: Parsed, path: string, basename: string)
    decreases p, 1
  {
    Run(p, path, basename).Some? && Run(p, path, basename).value != ""
  }

  predicate AnyHit(ps: seq<Parsed>, path: string, basename: string) {
    exists i | 0 <= i < |ps| :: Hit(ps[i], path, basename)
  }

  /** The backwards scan for the last slash or backslash. */
  method ScanBasename(path: string) returns (basename: string)
    ensures basename == LastName(path)
  {
    var i := |path|;
    while i > 0
      invariant 0 <= i <= |path| && SepFree(path[i..])
    {
      var ch := path[i - 1];
      if ch == '/' || ch == '\\' {
        break;
      }
      assert path[i - 1..] == [ch] + path[i..];
      i := i - 1;
    }
    basename := path[i..];
    LastNameUnique(path, basename);
  }

  /** Calling a matcher. */
  method Call(p: Parsed, path: string, basename: string) returns (r: Option<string>)
    ensures r == Run(p, path, basename)
    decreases p
  {
    if path == "" {
      return None;
    }
    match p {
      case NameList(basenames, patterns) =>
        var name := basename;
        if name == "" {
          name := ScanBasename(path);
        }
        var i := IndexOf(basenames, name);
        r := if i < |basenames| && i < |patterns| then Some(patterns[i]) else None;
      case AnyOf(members, pattern) =>
        for i := 0 to |members|
          invariant forall j | 0 <= j < i :: !Hit(members[j], path, basename)
        {
          var m := Call(members[i], path, basename);
          if m.Some? && m.value != "" {
            return Some(pattern);
          }
        }
        r := None;
      case EndMatch(base, pattern) =>
        r := if EndsWith(path, base) then Some(pattern) else None;
      case NameMatch(base, pattern) =>
        if basename != "" {
          r := if basename == base then Some(pattern) else None;
        } else {
          var slashBase, backslashBase := "/" + base, "\\" + base;
          var found := path == base || EndsWith(path, slashBase) || EndsWith(path, backslashBase);
          r := if found then Some(pattern) else None;
        }
      case PathEnd(nativePath, nativePathEnd, pattern) =>
        r := if path == nativePath || EndsWith(path, nativePathEnd) then Some(pattern) else None;
      case PathIs(nativePath, pattern) =>
        r := if path == nativePath then Some(pattern) else None;
      case Expression(regEx, pattern) =>
        r := if MatchSeq(regEx, path) then Some(pattern) else None;
      case Null =>
        r := None;
      case When(_, _, _) =>
        r := None;
    }
  }

  // ---------- aggregation ----------

  predicate HasBasenames(p: Parsed) {
    p.NameMatch? || p.NameList?
  }

  function BasenamesOf(p: Parsed): seq<string> {
    match p
    case NameMatch(base, _) => [base]
    case NameList(basenames, _) => basenames
    case _ => []
  }

  function PatternsOf(p: Parsed): seq<string> {
    match p
    case NameMatch(_, pattern) => [pattern]
    case NameList(_, patterns) => patterns
    case _ => []
  }

  function Filter(ps: seq<Parsed>, keep: bool): seq<Parsed> {
    if ps == [] then [] else (if HasBasenames(ps[0]) == keep then [ps[0]] else []) + Filter(ps[1..], keep)
  }

  function AllBasenames(ps: seq<Parsed>): seq<string> {
    if ps == [] then [] else BasenamesOf(ps[0]) + AllBasenames(ps[1..])
  }

  function AllPatterns(ps: seq<Parsed>): seq<string> {
    if ps == [] then [] else PatternsOf(ps[0]) + AllPatterns(ps[1..])
  }

  function Repeat(s: string, n: nat): (r: seq<string>)
    ensures |r| == n && forall i | 0 <= i < n :: r[i] == s
  {
    seq(n, _ => s)
  }

  /** One matcher in place of all basename matchers; a given result replaces their patterns. */
  function Merged(ps: seq<Parsed>, result: string): Parsed {
    var basenames := AllBasenames(Filter(ps, true));
    NameList(basenames, if result != "" then Repeat(result, |basenames|) else AllPatterns(Filter(ps, true)))
  }

  function AggregateBasenameMatches(ps: seq<Parsed>, result: string): seq<Parsed> {
    if |Filter(ps, true)| < 2 then ps else Filter(ps, false) + [Merged(ps, result)]
  }

  /** Basenames and patterns go in pairs, basenames are single names, and no pattern is empty. */
  predicate Sound(p: Parsed) {
    match p
    case NameMatch(base, pattern) => base != "" && SepFree(base) && pattern != ""
    case NameList(basenames, patterns) =>
      |basenames| == |patterns| &&
      (forall i | 0 <= i < |basenames| :: basenames[i] != "" && SepFree(basenames[i]) && patterns[i] != "")
    case AnyOf(members, pattern) => pattern != "" && forall i | 0 <= i < |members| :: Sound(members[i])
    case When(matcher, pattern, _) => pattern != "" && Sound(matcher)
    case _ => true
  }

  predicate AllSound(ps: seq<Parsed>) {
    forall i | 0 <= i < |ps| :: Sound(ps[i])
  }

  function BasenameFor(path: string, basename: string): string {
    if basename == "" then LastName(path) else basename
  }

  /** Text that is a whole path or follows its last separator. */
  lemma EndsAtName(path: string, base: string)
    requires SepFree(base)
    ensures path == base || EndsWith(path, "/" + base) || EndsWith(path, "\\" + base) <==> LastName(path) == base
  {
    if path == base {
      assert path[|path| - |base|..] == base;
      LastNameUnique(path, base);
    }
    forall sep | sep == '/' || sep == '\\'
      ensures EndsWith(path, [sep] + base) ==> LastName(path) == base
    {
      if EndsWith(path, [sep] + base) {
        var k := |path| - |base|;
        assert path[k - 1..] == [sep] + base && path[k..] == path[k - 1..][1..];
        assert path[k - 1] == path[k - 1..][0];
        LastNameUnique(path, base);
      }
    }
    if LastName(path) == base && |base| < |path| {
      var k := |path| - |base|;
      assert path[k - 1..] == [path[k - 1]] + path[k..];
    }
  }

  lemma EmptyPath(p: Parsed, basename: string)
    ensures !Hit(p, "", basename)
  {
  }

  lemma EndHit(base: string, pattern: string, path: string, basename: string)
    requires pattern != ""
    ensures Hit(EndMatch(base, pattern), path, basename) <==> path != "" && EndsWith(path, base)
  {
  }

  lemma PathHit(whole: string, ending: string, pattern: string, path: string, basename: string)
    requires pattern != ""
    ensures Hit(PathIs(whole, pattern), path, basename) <==> path != "" && path == whole
    ensures Hit(PathEnd(whole, ending, pattern), path, basename) <==>
            path != "" && (path == whole || EndsWith(path, ending))
  {
  }

  lemma ExpressionHit(regEx: seq<Node>, pattern: string, path: string, basename: string)
    requires pattern != ""
    ensures Hit(Expression(regEx, pattern), path, basename) <==> path != "" && MatchSeq(regEx, path)
  {
  }

  lemma NameHit(base: string, pattern: string, path: string, basename: string)
    requires SepFree(base) && pattern != ""
    ensures Hit(NameMatch(base, pattern), path, basename) <==> path != "" && BasenameFor(path, basename) == base
  {
    NameRun(base, pattern, path, basename);
    hide Run, EndsWith, SepFree, LastName;
    EndsAtName(path, base);
  }

  lemma NameRun(base: string, pattern: string, path: string, basename: string)
    ensures Run(NameMatch(base, pattern), path, basename) ==
            if path == "" then None
            else if basename != "" then Found(basename == base, pattern)
            else Found(path == base || EndsWith(path, "/" + base) || EndsWith(path, "\\" + base), pattern)
  {
    hide EndsWith;
  }

  lemma ListHit(basenames: seq<string>, patterns: seq<string>, path: string, basename: string)
    requires |basenames| == |patterns| && forall i | 0 <= i < |patterns| :: patterns[i] != ""
    ensures Hit(NameList(basenames, patterns), path, basename) <==>
            path != "" && BasenameFor(path, basename) in basenames
  {
    var b := BasenameFor(path, basename);
    var i := IndexOf(basenames, b);
    assert path != "" ==> Run(NameList(basenames, patterns), path, basename) ==
                          if i < |basenames| then Some(patterns[i]) else None;
  }

  /** A basename matcher matches iff the basename is one of its own. */
  lemma BasenameHit(p: Parsed, path: string, basename: string)
    requires Sound(p) && HasBasenames(p)
    ensures Hit(p, path, basename) <==> path != "" && BasenameFor(path, basename) in BasenamesOf(p)
  {
    match p
    case NameMatch(base, pattern) => NameHit(base, pattern, path, basename);
    case NameList(basenames, patterns) => ListHit(basenames, patterns, path, basename);
  }

  lemma {:induction false} FilterCovers(ps: seq<Parsed>, p: Parsed)
    ensures p in ps <==> p in Filter(ps, true) || p in Filter(ps, false)
    ensures p in Filter(ps, true) ==> HasBasenames(p)
    ensures p in Filter(ps, false) ==> !HasBasenames(p)
  {
    if ps != [] {
      FilterCovers(ps[1..], p);
    }
  }

  lemma {:induction false} BasenameListed(ps: seq<Parsed>, b: string)
    ensures b in AllBasenames(ps) <==> exists i | 0 <= i < |ps| :: b in BasenamesOf(ps[i])
  {
    if ps != [] {
      BasenameListed(ps[1..], b);
      if i :| 0 <= i < |ps| && b in BasenamesOf(ps[i]) {
        assert i > 0 ==> ps[1..][i - 1] == ps[i];
      }
      if i :| 0 <= i < |ps[1..]| && b in BasenamesOf(ps[1..][i]) {
        assert ps[i + 1] == ps[1..][i];
      }
    }
  }

  lemma {:induction false} ListsPair(ps: seq<Parsed>)
    requires AllSound(ps)
    ensures |AllBasenames(ps)| == |AllPatterns(ps)|
    ensures forall i | 0 <= i < |AllBasenames(ps)| ::
              AllBasenames(ps)[i] != "" && SepFree(AllBasenames(ps)[i]) && AllPatterns(ps)[i] != ""
  {
    if ps != [] {
      ListsPair(ps[1..]);
      var bs, cs := BasenamesOf(ps[0]), AllBasenames(ps[1..]);
      forall i | 0 <= i < |bs| + |cs|
        ensures (bs + cs)[i] != "" && SepFree((bs + cs)[i]) && (PatternsOf(ps[0]) + AllPatterns(ps[1..]))[i] != ""
      {
        if i >= |bs| {
          assert (bs + cs)[i] == cs[i - |bs|];
        }
      }
    }
  }

  lemma FilterSound(ps: seq<Parsed>, keep: bool)
    requires AllSound(ps)
    ensures AllSound(Filter(ps, keep))
  {
    forall i | 0 <= i < |Filter(ps, keep)| ensures Sound(Filter(ps, keep)[i]) {
      FilterCovers(ps, Filter(ps, keep)[i]);
    }
  }

  /** The merged list is sound again, so that it may be merged once more. */
  lemma AggregateSound(ps: seq<Parsed>, result: string)
    requires AllSound(ps)
    ensures AllSound(AggregateBasenameMatches(ps, result))
  {
    FilterSound(ps, true);
    FilterSound(ps, false);
    ListsPair(Filter(ps, true));
  }

  lemma MergedHit(ps: seq<Parsed>, result: string, path: string, basename: string)
    requires AllSound(ps)
    ensures Sound(Merged(ps, result))
    ensures Hit(Merged(ps, result), path, basename) <==>
            exists i | 0 <= i < |ps| :: HasBasenames(ps[i]) && Hit(ps[i], path, basename)
  {
    var bs := Filter(ps, true);
    FilterSound(ps, true);
    ListsPair(bs);
    var b := BasenameFor(path, basename);
    BasenameHit(Merged(ps, result), path, basename);
    BasenameListed(bs, b);
    if path != "" {
      if i :| 0 <= i < |bs| && b in BasenamesOf(bs[i]) {
        FilterCovers(ps, bs[i]);
        var j :| 0 <= j < |ps| && ps[j] == bs[i];
        BasenameHit(ps[j], path, basename);
      }
    }
    if i :| 0 <= i < |ps| && HasBasenames(ps[i]) && Hit(ps[i], path, basename) {
      FilterCovers(ps, ps[i]);
      BasenameHit(ps[i], path, basename);
      var j :| 0 <= j < |bs| && bs[j] == ps[i];
    }
  }

  /** Merging basename matchers does not change which paths are matched. */
  lemma AggregationPreserves(ps: seq<Parsed>, result: string, path: string, basename: string)
    requires AllSound(ps)
    ensures AnyHit(AggregateBasenameMatches(ps, result), path, basename) <==> AnyHit(ps, path, basename)
  {
    hide Run, Filter, AllBasenames, AllPatterns, Sound;
    if |Filter(ps, true)| >= 2 {
      var rest := Filter(ps, false);
      var all := rest + [Merged(ps, result)];
      MergedHit(ps, result, path, basename);
      assert all[|rest|] == Merged(ps, result);
      if i :| 0 <= i < |all| && Hit(all[i], path, basename) {
        if i < |rest| {
          FilterCovers(ps, rest[i]);
          assert rest[i] in ps;
        }
      }
      if i :| 0 <= i < |ps| && Hit(ps[i], path, basename) {
        FilterCovers(ps, ps[i]);
        if !HasBasenames(ps[i]) {
          var j :| 0 <= j < |rest| && rest[j] == ps[i];
          assert Hit(all[j], path, basename);
        }
      }
    }
  }

  /** The basename matchers of a list, or the others. */
  method FilterBasenames(parsedPatterns: seq<Parsed>, keep: bool) returns (r: seq<Parsed>)
    ensures r == Filter(parsedPatterns, keep)
  {
    r := [];
    for i := 0 to |parsedPatterns|
      invariant r + Filter(parsedPatterns[i..], keep) == Filter(parsedPatterns, keep)
    {
      FilterRound(parsedPatterns, keep, i, r);
      hide Filter, HasBasenames;
      if HasBasenames(parsedPatterns[i]) == keep {
        r := r + [parsedPatterns[i]];
      }
    }
    assert parsedPatterns[|parsedPatterns|..] == [];
  }

  lemma FilterRound(ps: seq<Parsed>, keep: bool, i: nat, r: seq<Parsed>)
    requires i < |ps|
    ensures r + Filter(ps[i..], keep) ==
            (if HasBasenames(ps[i]) == keep then r + [ps[i]] else r) + Filter(ps[i + 1..], keep)
  {
    var kept := if HasBasenames(ps[i]) == keep then [ps[i]] else [];
    assert ps[i..][0] == ps[i] && ps[i..][1..] == ps[i + 1..];
    assert Filter(ps[i..], keep) == kept + Filter(ps[i + 1..], keep);
  }

  /** All basenames and all patterns of basename matchers. */
  method Concatenate(basenamePatterns: seq<Parsed>) returns (basenames: seq<string>, patterns: seq<string>)
    ensures basenames == AllBasenames(basenamePatterns) && patterns == AllPatterns(basenamePatterns)
  {
    basenames, patterns := [], [];
    for i := 0 to |basenamePatterns|
      invariant basenames + AllBasenames(basenamePatterns[i..]) == AllBasenames(basenamePatterns)
      invariant patterns + AllPatterns(basenamePatterns[i..]) == AllPatterns(basenamePatterns)
    {
      ConcatenateRound(basenamePatterns, i, basenames, patterns);
      hide BasenamesOf, PatternsOf, AllBasenames, AllPatterns;
      basenames := basenames + BasenamesOf(basenamePatterns[i]);
      patterns := patterns + PatternsOf(basenamePatterns[i]);
    }
    assert basenamePatterns[|basenamePatterns|..] == [];
  }

  lemma ConcatenateRound(ps: seq<Parsed>, i: nat, bs: seq<string>, rs: seq<string>)
    requires i < |ps|
    ensures bs + AllBasenames(ps[i..]) == (bs + BasenamesOf(ps[i])) + AllBasenames(ps[i + 1..])
    ensures rs + AllPatterns(ps[i..]) == (rs + PatternsOf(ps[i])) + AllPatterns(ps[i + 1..])
  {
    hide BasenamesOf, PatternsOf;
    assert ps[i..][0] == ps[i] && ps[i..][1..] == ps[i + 1..];
    assert AllBasenames(ps[i..]) == BasenamesOf(ps[i]) + AllBasenames(ps[i + 1..]);
    assert AllPatterns(ps[i..]) == PatternsOf(ps[i]) + AllPatterns(ps[i + 1..]);
  }

  /** The aggregation as written, with its loops. */
  method Aggregate(parsedPatterns: seq<Parsed>, result: string) returns (r: seq<Parsed>)
    ensures r == AggregateBasenameMatches(parsedPatterns, result)
  {
    var basenamePatterns := FilterBasenames(parsedPatterns, true);
    if |basenamePatterns| < 2 {
      return parsedPatterns;
    }
    var basenames, patterns := Concatenate(basenamePatterns);
    if result != "" {
      patterns := [];
      for i := 0 to |basenames|
        invariant patterns == Repeat(result, i)
      {
        patterns := patterns + [result];
      }
    }
    var aggregatedPatterns := FilterBasenames(parsedPatterns, false);
    r := aggregatedPatterns + [NameList(basenames, patterns)];
  }
}
