/** The pattern that an expression returns for a path matches that path when it is parsed again. */
module GlobReturned {
  import opened Wrappers
  import opened Paths
  import opened GlobCompile
  import opened GlobShapes
  import opened GlobParsed
  import opened GlobParse
  import opened GlobLists
  import opened GlobBasenames
  import opened GlobExpression

  /** Parsed again, the pattern matches the path. */
  predicate Rematches(r: string, o: Options, path: string, basename: string) {
    Hit(ParseText(r, o), path, basename)
  }

  /** Every pattern listed for a basename matches the paths that have that basename. */
  predicate PairsRematch(bs: seq<string>, rs: seq<string>, o: Options, path: string, basename: string) {
    |bs| == |rs| &&
    forall i | 0 <= i < |bs| :: path != "" && bs[i] == BasenameFor(path, basename) ==>
      Rematches(rs[i], o, path, basename)
  }

  lemma PairsConcat(bs: seq<string>, rs: seq<string>, cs: seq<string>, ss: seq<string>, o: Options, path: string,
      basename: string)
    requires PairsRematch(bs, rs, o, path, basename) && PairsRematch(cs, ss, o, path, basename)
    ensures PairsRematch(bs + cs, rs + ss, o, path, basename)
  {
    hide Rematches, BasenameFor;
    forall i | 0 <= i < |bs| + |cs| && path != "" && (bs + cs)[i] == BasenameFor(path, basename)
      ensures Rematches((rs + ss)[i], o, path, basename)
    {
      if i >= |bs| {
        assert (bs + cs)[i] == cs[i - |bs|] && (rs + ss)[i] == ss[i - |bs|];
      }
    }
  }

  predicate ItemPairs(p: Parsed, o: Options, path: string, basename: string) {
    PairsRematch(BasenamesOf(p), PatternsOf(p), o, path, basename)
  }

  lemma {:induction false} AllPairs(ps: seq<Parsed>, o: Options, path: string, basename: string)
    requires forall i | 0 <= i < |ps| :: ItemPairs(ps[i], o, path, basename)
    ensures PairsRematch(AllBasenames(ps), AllPatterns(ps), o, path, basename)
  {
    if ps != [] {
      AllPairs(ps[1..], o, path, basename);
      var rest := ps[1..];
      PairsConcat(BasenamesOf(ps[0]), PatternsOf(ps[0]), AllBasenames(rest), AllPatterns(rest), o, path, basename);
    }
  }

  /** A list whose merged matcher answers with the list itself. */
  predicate AnswersFor(p: Parsed, pattern: string) {
    match p
    case Null => true
    case NameList(_, rs) => forall i | 0 <= i < |rs| :: rs[i] == pattern
    case EndMatch(_, r) => r == pattern
    case NameMatch(_, r) => r == pattern
    case AnyOf(_, r) => r == pattern
    case PathEnd(_, _, r) => r == pattern
    case PathIs(_, r) => r == pattern
    case Expression(_, r) => r == pattern
    case When(_, r, _) => r == pattern
  }

  /** A parsed pattern answers with its own text, or it is the matcher of one shorter member. */
  lemma ListAnswers(members: seq<Parsed>, pattern: string)
    requires pattern != ""
    ensures AnswersFor(Trivia3(members, pattern), pattern) || Trivia3(members, pattern) in members
  {
    var qs := NotNull(members);
    var ps := AggregateBasenameMatches(qs, pattern);
    if |ps| == 1 {
      if |Filter(qs, true)| < 2 {
        NotNullCovers(members, ps[0]);
      } else {
        assert ps == [Merged(qs, pattern)];
      }
    }
  }

  lemma AnswerIsPattern(p: Parsed, pattern: string, path: string, basename: string)
    requires AnswersFor(p, pattern) && Run(p, path, basename).Some?
    ensures Run(p, path, basename).value == pattern
  {
  }

  /** The answer of a parsed pattern matches again. */
  lemma {:induction false} AnswerRematches(p: string, o: Options, path: string, basename: string)
    requires p != "" && Trim(p) == p && Hit(Parse(p, o), path, basename)
    ensures Rematches(Run(Parse(p, o), path, basename).value, o, path, basename)
    decreases |p|
  {
    var parsed := Parse(p, o);
    if AnswersFor(parsed, p) {
      AnswerIsPattern(parsed, p, path, basename);
    } else {
      var m := OneMember(p, o);
      AnswerRematches(m, o, path, basename);
    }
  }

  lemma NoListAnswers(p: string, o: Options)
    requires !IsT3(p, o.trimForExclusions)
    ensures AnswersFor(Parse(p, o), p)
  {
    hide IsT3, Compile, EndsWith, TrimForExclusions, MatchT2, MatchT4, MatchT5, IsT1;
  }

  /** A key that is no brace list answers with its own text, without the white space around it. */
  lemma OwnText(key: string, o: Options, path: string, basename: string)
    requires Hit(ParseText(key, o), path, basename) && !IsT3(Trim(key), o.trimForExclusions)
    ensures Run(ParseText(key, o), path, basename) == Some(Trim(key))
  {
    hide AnswersFor, Parse, Trim;
    NoListAnswers(Trim(key), o);
    AnswerIsPattern(Parse(Trim(key), o), Trim(key), path, basename);
  }

  lemma OneMember(p: string, o: Options) returns (m: string)
    requires p != "" && !AnswersFor(Parse(p, o), p)
    ensures |m| < |p| && m != "" && Trim(m) == m && Parse(m, o) == Parse(p, o)
  {
    assert !IsT1(p) && MatchT2(TrimForExclusions(p, o)).None? && IsT3(p, o.trimForExclusions);
    var ms := SplitOn(Inner(p), ',');
    var members := ParseMembers(ms, o, |p| - 1);
    ListAnswers(members, p);
    var i :| 0 <= i < |members| && members[i] == Parse(p, o);
    assert ms[i] in ms;
    MemberText(ms[i], o.trimForExclusions);
    m := ms[i];
  }

  lemma {:induction false} ParsedPairs(p: string, o: Options, path: string, basename: string)
    requires p != "" && Trim(p) == p
    ensures ItemPairs(Parse(p, o), o, path, basename)
    decreases |p|
  {
    var parsed := Parse(p, o);
    ParseSound(p, o);
    if AnswersFor(parsed, p) {
      if HasBasenames(parsed) && path != "" && BasenameFor(path, basename) in BasenamesOf(parsed) {
        BasenameHit(parsed, path, basename);
        assert forall i | 0 <= i < |PatternsOf(parsed)| :: PatternsOf(parsed)[i] == p;
      }
    } else {
      var m := OneMember(p, o);
      ParsedPairs(m, o, path, basename);
    }
  }

  /** An item that stems from an entry: its answer matches again. */
  lemma EntryAnswer(e: Entry, o: Options, path: string, b: string, n: string, siblings: Siblings)
    requires ItemHit(ParseEntry(e, o), path, b, n, siblings)
    ensures Rematches(RunItem(ParseEntry(e, o), path, b, n, siblings).value, o, path, b)
  {
    var p, k := ParseText(e.key, o), Trim(e.key);
    TrimTwice(e.key);
    if !ParseEntry(e, o).When? {
      assert ParseEntry(e, o) == p == Parse(k, o);
      EmptyKey(o, path, b);
      AnswerRematches(k, o, path, b);
    } else if e.value.Sibling? && ParseEntry(e, o) == When(p, e.key, e.value.clause) {
    } else {
      ParsedIsNotWhen(k, o);
    }
  }

  /** A blank pattern matches no path. */
  lemma EmptyKey(o: Options, path: string, basename: string)
    ensures !Hit(Parse("", o), path, basename)
  {
    assert TrimForExclusions("", o) == "";
    assert !IsT3("", o.trimForExclusions) && MatchT5("").None?;
  }

  /** The loop's answer is the answer of one item, given the caller's basename or the one filled in. */
  lemma {:induction false} LoopAnswer(ps: seq<Parsed>, path: string, basename: string, name: string, siblings: Siblings)
    returns (i: nat, b: string, n: string)
    requires Truthy(RunFrom(ps, path, basename, name, siblings))
    ensures i < |ps|
    ensures b == basename || (basename == "" && b == LibBasename(path) && siblings.Some? && NeedsSiblings(ps))
    ensures RunItem(ps[i], path, b, n, siblings) == RunFrom(ps, path, basename, name, siblings)
  {
    hide RunItem, Stem, LibBasename, LastName;
    var fill := ps[0].When? && siblings.Some?;
    var c := if fill && basename == "" then LibBasename(path) else basename;
    var m := if fill && name == "" then Stem(c, path) else name;
    if Truthy(RunItem(ps[0], path, c, m, siblings)) {
      i, b, n := 0, c, m;
    } else {
      var j;
      j, b, n := LoopAnswer(ps[1..], path, c, m, siblings);
      i := j + 1;
      assert ps[i] == ps[1..][j];
    }
  }

  lemma MergedAnswer(qs: seq<Parsed>, o: Options, path: string, b: string)
    requires forall i | 0 <= i < |qs| :: ItemPairs(qs[i], o, path, b)
    requires Hit(Merged(qs, ""), path, b)
    ensures Rematches(Run(Merged(qs, ""), path, b).value, o, path, b)
  {
    var bs := Filter(qs, true);
    forall i | 0 <= i < |bs| ensures ItemPairs(bs[i], o, path, b) {
      FilterCovers(qs, bs[i]);
    }
    AllPairs(bs, o, path, b);
    var i := IndexOf(AllBasenames(bs), BasenameFor(path, b));
    assert Run(Merged(qs, ""), path, b) == Some(AllPatterns(bs)[i]);
  }

  lemma EntryPairs(e: Entry, o: Options, path: string, b: string)
    ensures ItemPairs(ParseEntry(e, o), o, path, b)
  {
    var k := Trim(e.key);
    TrimTwice(e.key);
    if k == "" {
      assert TrimForExclusions("", o) == "" && !IsT3("", o.trimForExclusions) && MatchT5("").None?;
      assert !HasBasenames(Parse("", o));
      assert BasenamesOf(ParseEntry(e, o)) == [] && PatternsOf(ParseEntry(e, o)) == [];
    } else {
      ParsedPairs(k, o, path, b);
    }
  }

  /** The answer of any item of a parsed expression matches again. */
  lemma ItemAnswer(es: seq<Entry>, o: Options, i: nat, path: string, b: string, n: string, siblings: Siblings)
    requires i < |ParseExpression(es, o)| && ItemHit(ParseExpression(es, o)[i], path, b, n, siblings)
    ensures Rematches(RunItem(ParseExpression(es, o)[i], path, b, n, siblings).value, o, path, b)
  {
    var ps := ParseEntries(es, o);
    var qs := NotNull(ps);
    var item := ParseExpression(es, o)[i];
    if |Filter(qs, true)| >= 2 && i == |Filter(qs, false)| {
      forall j | 0 <= j < |qs| ensures ItemPairs(qs[j], o, path, b) {
        NotNullCovers(ps, qs[j]);
        var k :| 0 <= k < |ps| && ps[k] == qs[j];
        EntryPairs(es[k], o, path, b);
      }
      MergedAnswer(qs, o, path, b);
    } else {
      if |Filter(qs, true)| >= 2 {
        FilterCovers(qs, item);
      }
      NotNullCovers(ps, item);
      var k :| 0 <= k < |ps| && ps[k] == item;
      EntryAnswer(es[k], o, path, b, n, siblings);
    }
  }

  lemma RematchesAnyway(r: string, o: Options, path: string, b: string, c: string)
    requires Rematches(r, o, path, b) && (BasenameFor(path, b) == BasenameFor(path, c) || !Word(BasenameFor(path, b)))
    ensures Rematches(r, o, path, c)
  {
    var p := ParseText(r, o);
    ParseSound(Trim(r), o);
    ParseWordNames(Trim(r), o);
    if BasenameFor(path, b) == BasenameFor(path, c) {
      BasenameIrrelevant(p, path, b, c);
    } else {
      ForeignBasename(p, path, b, c);
    }
  }

  /** No name can match only because the library basename was filled in. */
  predicate NoNewName(path: string) {
    LibBasename(path) == LastName(path) || !Word(LibBasename(path))
  }

  /** Whatever pattern the expression returns for the path, that pattern matches the path. */
  predicate Confirmed(es: seq<Entry>, o: Options, path: string, basename: string, siblings: Siblings) {
    var r := RunExpression(ParseExpression(es, o), path, basename, siblings);
    Truthy(r) ==> Rematches(r.value, o, path, basename)
  }

  lemma ReturnedPatternMatches(es: seq<Entry>, o: Options, path: string, basename: string, siblings: Siblings)
    requires basename != "" || siblings.None? || !HasClause(es) || NoNewName(path)
    ensures Confirmed(es, o, path, basename, siblings)
  {
    hide ParseExpression, RunItem, LibBasename, LastName, Rematches;
    var rs := ParseExpression(es, o);
    if Truthy(RunExpression(rs, path, basename, siblings)) {
      if |rs| == 1 && !NeedsSiblings(rs) {
        SingleAnswer(es, o, path, basename, siblings);
      } else {
        var i, b, n := LoopAnswer(rs, path, basename, "", siblings);
        ItemAnswer(es, o, i, path, b, n, siblings);
        if b != basename {
          NoClauseNoItem(es, o);
        }
        RematchesAnyway(RunItem(rs[i], path, b, n, siblings).value, o, path, b, basename);
      }
    }
  }

  lemma SingleAnswer(es: seq<Entry>, o: Options, path: string, basename: string, siblings: Siblings)
    requires var rs := ParseExpression(es, o); |rs| == 1 && !NeedsSiblings(rs) && Truthy(Run(rs[0], path, basename))
    ensures Confirmed(es, o, path, basename, siblings)
  {
    hide ParseExpression, Rematches;
    ItemAnswer(es, o, 0, path, basename, "", siblings);
  }

  /** Without a basename and with a sibling test: the returned patterns of all expressions match the path
      iff filling in its library basename adds no name. */
  lemma ConfirmedExactly(o: Options, path: string, f: string -> bool)
    ensures (forall es :: Confirmed(es, o, path, "", Some(f))) <==> NoNewName(path)
  {
    hide LastName, LibBasename, Confirmed;
    if NoNewName(path) {
      forall es ensures Confirmed(es, o, path, "", Some(f)) {
        ReturnedPatternMatches(es, o, path, "", Some(f));
      }
    } else {
      NotConfirmed(LibBasename(path), o, path, f);
    }
  }

  lemma NotConfirmed(w: string, o: Options, path: string, f: string -> bool)
    requires Word(w) && w == LibBasename(path) != LastName(path)
    ensures !Confirmed(ClauseThenName(w), o, path, "", Some(f))
  {
    hide ParseExpression, RunExpression, Parse, Trim, EntryMatches, Run;
    assert path != "" && path != "x" && w != "";
    hide LibBasename, LastName;
    ClauseFillsBasename(w, o, path, f);
    ParsedName(w, o);
    WordIsSepFree(w);
    NameHit(w, "**/" + w, path, "");
  }
}
