/** The basename that accompanies a path: what a parsed pattern makes of it, and of a wrong one. */
module GlobBasenames {
  import opened Paths
  import opened GlobShapes
  import opened GlobCompile
  import opened GlobParsed
  import opened GlobParse
  import opened GlobLists

  /** Every basename that the matcher compares is a word. */
  predicate WordNames(p: Parsed) {
    match p
    case NameMatch(base, _) => Word(base)
    case NameList(basenames, _) => forall i | 0 <= i < |basenames| :: Word(basenames[i])
    case AnyOf(members, _) => forall i | 0 <= i < |members| :: WordNames(members[i])
    case When(matcher, _, _) => WordNames(matcher)
    case _ => true
  }

  predicate AllWordNames(ps: seq<Parsed>) {
    forall i | 0 <= i < |ps| :: WordNames(ps[i])
  }

  lemma NotNullWordNames(ps: seq<Parsed>)
    requires AllWordNames(ps)
    ensures AllWordNames(NotNull(ps))
  {
    forall i | 0 <= i < |NotNull(ps)| ensures WordNames(NotNull(ps)[i]) {
      NotNullCovers(ps, NotNull(ps)[i]);
    }
  }

  lemma AggregateWordNames(ps: seq<Parsed>, result: string)
    requires AllWordNames(ps)
    ensures AllWordNames(AggregateBasenameMatches(ps, result))
  {
    forall keep: bool, i | 0 <= i < |Filter(ps, keep)| ensures WordNames(Filter(ps, keep)[i]) {
      FilterCovers(ps, Filter(ps, keep)[i]);
    }
    var bs := Filter(ps, true);
    forall i | 0 <= i < |AllBasenames(bs)| ensures Word(AllBasenames(bs)[i]) {
      BasenameListed(bs, AllBasenames(bs)[i]);
    }
  }

  lemma {:induction false} ParseWordNames(p: string, o: Options)
    ensures WordNames(Parse(p, o))
    decreases |p|
  {
    hide TrimForExclusions, SplitOn, Trim, Compile, NotNull, AggregateBasenameMatches;
    if IsT1(p) {
    } else if MatchT2(TrimForExclusions(p, o)).Some? {
    } else if IsT3(p, o.trimForExclusions) {
      var ms := SplitOn(Inner(p), ',');
      var members := ParseMembers(ms, o, |p| - 1);
      forall i | 0 <= i < |members| ensures WordNames(members[i]) {
        ParseWordNames(Trim(ms[i]), o);
      }
      NotNullWordNames(members);
      AggregateWordNames(NotNull(members), p);
    }
  }

  /** The basename plays no role beyond being the last name of the path. */
  lemma {:induction false} BasenameIrrelevant(p: Parsed, path: string, b: string, c: string)
    requires Sound(p) && BasenameFor(path, b) == BasenameFor(path, c)
    ensures Hit(p, path, b) <==> Hit(p, path, c)
  {
    if HasBasenames(p) {
      BasenameHit(p, path, b);
      BasenameHit(p, path, c);
    } else if p.AnyOf? {
      forall i | 0 <= i < |p.members| ensures Hit(p.members[i], path, b) <==> Hit(p.members[i], path, c) {
        BasenameIrrelevant(p.members[i], path, b, c);
      }
    }
  }

  /** A match with a basename that is no word owes nothing to the basename. */
  lemma {:induction false} ForeignBasename(p: Parsed, path: string, b: string, c: string)
    requires Sound(p) && WordNames(p) && !Word(BasenameFor(path, b)) && Hit(p, path, b)
    ensures Hit(p, path, c)
  {
    if HasBasenames(p) {
      BasenameHit(p, path, b);
      assert false;
    } else if p.AnyOf? {
      var i :| 0 <= i < |p.members| && Hit(p.members[i], path, b);
      ForeignBasename(p.members[i], path, b, c);
    }
  }

  /** Parsed patterns cannot tell the two basenames apart: they are the same or both no words. */
  predicate Agree(path: string, b: string, c: string) {
    var x, y := BasenameFor(path, b), BasenameFor(path, c);
    x == y || (!Word(x) && !Word(y))
  }

  lemma BasenamesAgree(p: Parsed, path: string, b: string, c: string)
    requires Sound(p) && WordNames(p) && Agree(path, b, c)
    ensures Hit(p, path, b) <==> Hit(p, path, c)
  {
    if BasenameFor(path, b) == BasenameFor(path, c) {
      BasenameIrrelevant(p, path, b, c);
    } else if Hit(p, path, b) {
      ForeignBasename(p, path, b, c);
    } else if Hit(p, path, c) {
      ForeignBasename(p, path, c, b);
    }
  }
}
