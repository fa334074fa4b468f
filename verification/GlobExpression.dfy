/** Expressions: several keyed patterns, some of which ask for a sibling file. */
module GlobExpression {
  import opened Wrappers
  import opened Paths
  import opened GlobShapes
  import opened GlobParsed
  import opened GlobParse
  import opened GlobLists
  import opened GlobBasenames
  import opened GlobFast

  // ---------- the path helpers used for siblings ----------

  /** The last index of c, or -1. */
  function LastIndexOf(s: string, c: char): (i: int)
    ensures -1 <= i < |s| && (i >= 0 ==> s[i] == c) && forall j | i < j < |s| :: s[j] != c
  {
    if s == "" then -1 else if s[|s| - 1] == c then |s| - 1 else LastIndexOf(s[..|s| - 1], c)
  }

  /** Slashes win over backslashes, and trailing separators are dropped one by one. */
  function LibBasename(path: string): string
    decreases |path|
  {
    var i := LastIndexOf(path, '/');
    var j := if i >= 0 then i else LastIndexOf(path, '\\');
    if j < 0 then path else if j == |path| - 1 then LibBasename(path[..|path| - 1]) else path[j + 1..]
  }

  function LibExtname(path: string): string {
    var b := LibBasename(path);
    var i := LastIndexOf(b, '.');
    if i < 0 then "" else b[i..]
  }

  /** The basename without the extension of the path. */
  function Stem(basename: string, path: string): string {
    var n := |basename| - |LibExtname(path)|;
    if n < 0 then "" else basename[..n]
  }

  const PLACEHOLDER := "$(basename)"

  /** The replacement text of a string replacement: `$` is special before some characters. */
  function Expand(name: string, before: string, after: string): string {
    if name == "" then ""
    else if |name| >= 2 && name[0] == '$' && name[1] == '$' then "$" + Expand(name[2..], before, after)
    else if |name| >= 2 && name[0] == '$' && name[1] == '&' then PLACEHOLDER + Expand(name[2..], before, after)
    else if |name| >= 2 && name[0] == '$' && name[1] == '`' then before + Expand(name[2..], before, after)
    else if |name| >= 2 && name[0] == '$' && name[1] == '\'' then after + Expand(name[2..], before, after)
    else [name[0]] + Expand(name[1..], before, after)
  }

  /** Where the placeholder first occurs at or after i, or the length. */
  function PlaceholderFrom(clause: string, i: nat): (k: nat)
    requires i <= |clause|
    ensures i <= k <= |clause|
    ensures k < |clause| ==> k + |PLACEHOLDER| <= |clause| && clause[k..k + |PLACEHOLDER|] == PLACEHOLDER
    decreases |clause| - i
  {
    if i + |PLACEHOLDER| > |clause| then |clause|
    else if clause[i..i + |PLACEHOLDER|] == PLACEHOLDER then i
    else PlaceholderFrom(clause, i + 1)
  }

  /** The sibling that a clause names: its first placeholder is replaced. */
  function Substitute(clause: string, name: string): string {
    var k := PlaceholderFrom(clause, 0);
    if k == |clause| then clause else
      var before, after := clause[..k], clause[k + |PLACEHOLDER|..];
      before + Expand(name, before, after) + after
  }

  // ---------- parsing ----------

  datatype Value = Disabled | Enabled | Sibling(clause: string) | Anything

  datatype Entry = Entry(key: string, value: Value)

  function ParseEntry(e: Entry, o: Options): Parsed {
    if e.value == Disabled then Null else
      var p := ParseText(e.key, o);
      if p.Null? then Null else if e.value.Sibling? then When(p, e.key, e.value.clause) else p
  }

  function ParseEntries(es: seq<Entry>, o: Options): (ps: seq<Parsed>)
    ensures |ps| == |es| && forall i | 0 <= i < |es| :: ps[i] == ParseEntry(es[i], o)
  {
    if es == [] then [] else [ParseEntry(es[0], o)] + ParseEntries(es[1..], o)
  }

  function ParseExpression(es: seq<Entry>, o: Options): seq<Parsed> {
    AggregateBasenameMatches(NotNull(ParseEntries(es, o)), "")
  }

  /** The parser as written: each key goes through the cache. */
  method BuildExpression(parser: PatternParser, es: seq<Entry>, trimForExclusions: bool) returns (r: seq<Parsed>)
    requires parser.Valid()
    modifies parser
    ensures parser.Valid() && r == ParseExpression(es, Options(trimForExclusions, parser.nativeSep))
  {
    hide Parse, AggregateBasenameMatches, NotNull;
    var o := Options(trimForExclusions, parser.nativeSep);
    var ps: seq<Parsed> := [];
    for i := 0 to |es|
      invariant parser.Valid() && |ps| == i && forall j | 0 <= j < i :: ps[j] == ParseEntry(es[j], o)
    {
      var p := Null;
      if es[i].value != Disabled {
        var m := parser.ParsePattern(Text(es[i].key), trimForExclusions);
        p := m.parsed;
        if !p.Null? && es[i].value.Sibling? {
          p := When(p, es[i].key, es[i].value.clause);
        }
      }
      ps := ps + [p];
    }
    assert ps == ParseEntries(es, o);
    r := Aggregate(NotNull(ps), "");
  }

  // ---------- evaluation ----------

  /** A synchronous sibling test, if there is one. */
  type Siblings = Option<string -> bool>

  function RunItem(p: Parsed, path: string, basename: string, name: string, siblings: Siblings): Option<string> {
    if !p.When? then Run(p, path, basename)
    else if siblings.None? || !Hit(p.matcher, path, basename) then None
    else Found(siblings.value(Substitute(p.clause, name)), p.pattern)
  }

  predicate Truthy(r: Option<string>) {
    r.Some? && r.value != ""
  }

  predicate NeedsSiblings(ps: seq<Parsed>) {
    exists i | 0 <= i < |ps| :: ps[i].When?
  }

  /** The names are filled in when the first sibling clause is reached, and kept from then on. */
  function RunFrom(ps: seq<Parsed>, path: string, basename: string, name: string, siblings: Siblings): Option<string> {
    if ps == [] then None else
      var fill := ps[0].When? && siblings.Some?;
      var b := if fill && basename == "" then LibBasename(path) else basename;
      var n := if fill && name == "" then Stem(b, path) else name;
      var r := RunItem(ps[0], path, b, n, siblings);
      if Truthy(r) then r else RunFrom(ps[1..], path, b, n, siblings)
  }

  function RunExpression(ps: seq<Parsed>, path: string, basename: string, siblings: Siblings): Option<string> {
    if |ps| == 1 && !NeedsSiblings(ps) then Run(ps[0], path, basename) else RunFrom(ps, path, basename, "", siblings)
  }

  /** The evaluation loop as written. */
  method Evaluate(ps: seq<Parsed>, path: string, givenBasename: string, siblings: Siblings) returns (r: Option<string>)
    ensures r == RunExpression(ps, path, givenBasename, siblings)
  {
    if |ps| == 1 && !NeedsSiblings(ps) {
      r := Call(ps[0], path, givenBasename);
      return;
    }
    var basename, name := givenBasename, "";
    for i := 0 to |ps|
      invariant RunFrom(ps[i..], path, basename, name, siblings) == RunFrom(ps, path, givenBasename, "", siblings)
    {
      assert ps[i..][1..] == ps[i + 1..];
      if ps[i].When? && siblings.Some? {
        if basename == "" {
          basename := LibBasename(path);
        }
        if name == "" {
          name := Stem(basename, path);
        }
      }
      var result := RunItem(ps[i], path, basename, name, siblings);
      if Truthy(result) {
        return result;
      }
    }
    r := None;
  }

  // ---------- what an expression matches ----------

  /** The basename from which a sibling's name is made. */
  function NamedAfter(path: string, basename: string): string {
    if basename == "" then LibBasename(path) else basename
  }

  /** Filling in the library basename makes no difference: it is the last name, or neither is a word. */
  predicate SameName(path: string) {
    LibBasename(path) == LastName(path) || (!Word(LibBasename(path)) && !Word(LastName(path)))
  }

  lemma FilledAgrees(path: string)
    requires SameName(path)
    ensures Agree(path, LibBasename(path), "")
  {
  }

  /** The item matches when it is given this basename and this name. */
  predicate ItemHit(p: Parsed, path: string, b: string, n: string, siblings: Siblings) {
    Truthy(RunItem(p, path, b, n, siblings))
  }

  predicate AnyItem(ps: seq<Parsed>, path: string, b: string, n: string, siblings: Siblings) {
    exists i | 0 <= i < |ps| :: ItemHit(ps[i], path, b, n, siblings)
  }

  lemma AnyItemCons(ps: seq<Parsed>, path: string, b: string, n: string, siblings: Siblings)
    requires ps != []
    ensures AnyItem(ps, path, b, n, siblings) <==>
            ItemHit(ps[0], path, b, n, siblings) || AnyItem(ps[1..], path, b, n, siblings)
  {
    if i :| 0 <= i < |ps| && ItemHit(ps[i], path, b, n, siblings) {
      assert i > 0 ==> ps[1..][i - 1] == ps[i];
    }
    if i :| 0 <= i < |ps[1..]| && ItemHit(ps[1..][i], path, b, n, siblings) {
      assert ps[i + 1] == ps[1..][i];
    }
  }

  lemma ItemIrrelevant(p: Parsed, path: string, b: string, c: string, n: string, m: string, siblings: Siblings)
    requires Sound(p) && WordNames(p) && Agree(path, b, c) && (p.When? && siblings.Some? ==> n == m)
    ensures ItemHit(p, path, b, n, siblings) <==> ItemHit(p, path, c, m, siblings)
  {
    BasenamesAgree(if p.When? then p.matcher else p, path, b, c);
  }

  /** The loop, started with the given basename and perhaps with the library basename filled in since. */
  lemma {:induction false} RunFromHits(ps: seq<Parsed>, path: string, given: string, basename: string, name: string,
      siblings: Siblings)
    requires AllSound(ps) && AllWordNames(ps)
    requires given != "" || siblings.None? || !NeedsSiblings(ps) || SameName(path)
    requires basename == given || (given == "" && basename == LibBasename(path) && SameName(path))
    requires name == "" || name == Stem(NamedAfter(path, given), path)
    ensures Truthy(RunFrom(ps, path, basename, name, siblings)) <==>
            AnyItem(ps, path, given, Stem(NamedAfter(path, given), path), siblings)
  {
    if ps != [] {
      hide Stem, LibBasename, LastName, WordNames, Sound, Word, RunItem;
      var m := Stem(NamedAfter(path, given), path);
      var fill := ps[0].When? && siblings.Some?;
      var b := if fill && basename == "" then LibBasename(path) else basename;
      var n := if fill && name == "" then Stem(b, path) else name;
      if b != given {
        FilledAgrees(path);
      }
      ItemIrrelevant(ps[0], path, b, given, n, m, siblings);
      RunFromHits(ps[1..], path, given, b, n, siblings);
      AnyItemCons(ps, path, given, m, siblings);
    }
  }

  lemma ItemAfterMerging(ps: seq<Parsed>, path: string, b: string, n: string, siblings: Siblings, i: nat)
    requires AllSound(ps) && i < |ps| && ItemHit(ps[i], path, b, n, siblings)
    ensures AnyItem(Filter(ps, false) + [Merged(ps, "")], path, b, n, siblings)
  {
    hide Run, Filter, AllBasenames, AllPatterns, Sound;
    var rest, merged := Filter(ps, false), Merged(ps, "");
    var all := rest + [merged];
    FilterCovers(ps, ps[i]);
    if HasBasenames(ps[i]) {
      MergedHit(ps, "", path, b);
      assert ItemHit(all[|rest|], path, b, n, siblings);
    } else {
      var j :| 0 <= j < |rest| && rest[j] == ps[i];
      assert ItemHit(all[j], path, b, n, siblings);
    }
  }

  lemma ItemBeforeMerging(ps: seq<Parsed>, path: string, b: string, n: string, siblings: Siblings)
    requires AllSound(ps) && AnyItem(Filter(ps, false) + [Merged(ps, "")], path, b, n, siblings)
    ensures AnyItem(ps, path, b, n, siblings)
  {
    hide Run, Filter, AllBasenames, AllPatterns, Sound;
    var rest, merged := Filter(ps, false), Merged(ps, "");
    var i :| 0 <= i < |rest + [merged]| && ItemHit((rest + [merged])[i], path, b, n, siblings);
    if i < |rest| {
      FilterCovers(ps, rest[i]);
      var j :| 0 <= j < |ps| && ps[j] == rest[i];
      assert ItemHit(ps[j], path, b, n, siblings);
    } else {
      MergedHit(ps, "", path, b);
      var j :| 0 <= j < |ps| && HasBasenames(ps[j]) && Hit(ps[j], path, b);
      assert ItemHit(ps[j], path, b, n, siblings);
    }
  }

  /** Merging and reordering does not change whether some item matches. */
  lemma AggregationKeepsItems(ps: seq<Parsed>, path: string, b: string, n: string, siblings: Siblings)
    requires AllSound(ps)
    ensures AnyItem(AggregateBasenameMatches(ps, ""), path, b, n, siblings) <==> AnyItem(ps, path, b, n, siblings)
  {
    if |Filter(ps, true)| >= 2 {
      if AnyItem(Filter(ps, false) + [Merged(ps, "")], path, b, n, siblings) {
        ItemBeforeMerging(ps, path, b, n, siblings);
      }
      if i :| 0 <= i < |ps| && ItemHit(ps[i], path, b, n, siblings) {
        ItemAfterMerging(ps, path, b, n, siblings, i);
      }
    }
  }

  lemma NotNullKeepsItems(ps: seq<Parsed>, path: string, b: string, n: string, siblings: Siblings)
    ensures AnyItem(NotNull(ps), path, b, n, siblings) <==> AnyItem(ps, path, b, n, siblings)
  {
    var qs := NotNull(ps);
    if i :| 0 <= i < |qs| && ItemHit(qs[i], path, b, n, siblings) {
      NotNullCovers(ps, qs[i]);
      var j :| 0 <= j < |ps| && ps[j] == qs[i];
      assert ItemHit(ps[j], path, b, n, siblings);
    }
    if i :| 0 <= i < |ps| && ItemHit(ps[i], path, b, n, siblings) {
      NotNullCovers(ps, ps[i]);
      var j :| 0 <= j < |qs| && qs[j] == ps[i];
      assert ItemHit(qs[j], path, b, n, siblings);
    }
  }

  lemma EntriesSound(es: seq<Entry>, o: Options)
    ensures AllSound(NotNull(ParseEntries(es, o))) && AllSound(ParseExpression(es, o)) &&
            AllWordNames(ParseExpression(es, o))
  {
    hide AggregateBasenameMatches;
    var ps := ParseEntries(es, o);
    forall i | 0 <= i < |es| ensures Sound(ps[i]) && WordNames(ps[i]) {
      ParseSound(Trim(es[i].key), o);
      ParseWordNames(Trim(es[i].key), o);
    }
    NotNullSound(ps);
    NotNullWordNames(ps);
    AggregateSound(NotNull(ps), "");
    AggregateWordNames(NotNull(ps), "");
  }

  /** An entry by itself: not disabled, its key matches, and its sibling, if it asks for one, is there. */
  predicate EntryMatches(e: Entry, o: Options, path: string, basename: string, siblings: Siblings) {
    && e.value != Disabled
    && Hit(ParseText(e.key, o), path, basename)
    && (e.value.Sibling? ==>
          siblings.Some? && siblings.value(Substitute(e.value.clause, Stem(NamedAfter(path, basename), path))))
  }

  lemma EntryIsItem(e: Entry, o: Options, path: string, basename: string, siblings: Siblings)
    ensures ItemHit(ParseEntry(e, o), path, basename, Stem(NamedAfter(path, basename), path), siblings) <==>
            EntryMatches(e, o, path, basename, siblings)
  {
    hide Stem, Parse, Substitute, TrimForExclusions, LibBasename;
    var p := ParseText(e.key, o);
    if e.value == Disabled || p.Null? {
      assert ParseEntry(e, o) == Null;
    } else if e.value.Sibling? {
      assert ParseEntry(e, o) == When(p, e.key, e.value.clause) && e.key != "";
    } else {
      ParsedIsNotWhen(Trim(e.key), o);
      assert ParseEntry(e, o) == p;
    }
  }

  /** Patterns alone never ask for siblings. */
  lemma {:induction false} ParsedIsNotWhen(p: string, o: Options)
    ensures !Parse(p, o).When?
    decreases |p|
  {
    if !IsT1(p) && MatchT2(TrimForExclusions(p, o)).None? && IsT3(p, o.trimForExclusions) {
      var ms := SplitOn(Inner(p), ',');
      var members := ParseMembers(ms, o, |p| - 1);
      forall i | 0 <= i < |members| ensures !members[i].When? {
        ParsedIsNotWhen(Trim(ms[i]), o);
      }
      forall q | q in NotNull(members) ensures !q.When? {
        NotNullCovers(members, q);
      }
    }
  }

  /** Some entry has a sibling clause. */
  predicate HasClause(es: seq<Entry>) {
    exists i | 0 <= i < |es| :: es[i].value.Sibling?
  }

  lemma NoClauseNoItem(es: seq<Entry>, o: Options)
    requires NeedsSiblings(ParseExpression(es, o))
    ensures HasClause(es)
  {
    var ps, rs := ParseEntries(es, o), ParseExpression(es, o);
    var i :| 0 <= i < |rs| && rs[i].When?;
    FilterCovers(NotNull(ps), rs[i]);
    NotNullCovers(ps, rs[i]);
    var j :| 0 <= j < |ps| && ps[j] == rs[i];
    ParsedIsNotWhen(Trim(es[j].key), o);
  }

  /** The loop keeps to the given basename, or filling one in makes no difference. */
  predicate Undisturbed(es: seq<Entry>, path: string, basename: string, siblings: Siblings) {
    basename != "" || siblings.None? || !HasClause(es) || SameName(path)
  }

  /** The expression matches a path iff one of its entries does by itself. */
  predicate IsUnion(es: seq<Entry>, o: Options, path: string, basename: string, siblings: Siblings) {
    Truthy(RunExpression(ParseExpression(es, o), path, basename, siblings)) <==>
    exists i | 0 <= i < |es| :: EntryMatches(es[i], o, path, basename, siblings)
  }

  lemma ExpressionIsUnion(es: seq<Entry>, o: Options, path: string, basename: string, siblings: Siblings)
    requires Undisturbed(es, path, basename, siblings)
    ensures IsUnion(es, o, path, basename, siblings)
  {
    hide ParseExpression, ParseEntries, RunExpression, Stem, SameName, EntryMatches, LibBasename;
    var n := Stem(NamedAfter(path, basename), path);
    EntriesSound(es, o);
    ResultHits(es, o, path, basename, siblings);
    KeptItems(es, o, path, basename, n, siblings);
    EntriesAreItems(es, o, path, basename, siblings);
  }

  lemma KeptItems(es: seq<Entry>, o: Options, path: string, b: string, n: string, siblings: Siblings)
    ensures AnyItem(ParseExpression(es, o), path, b, n, siblings) <==>
            AnyItem(ParseEntries(es, o), path, b, n, siblings)
  {
    hide AnyItem;
    EntriesSound(es, o);
    AggregationKeepsItems(NotNull(ParseEntries(es, o)), path, b, n, siblings);
    NotNullKeepsItems(ParseEntries(es, o), path, b, n, siblings);
  }

  lemma EntriesAreItems(es: seq<Entry>, o: Options, path: string, basename: string, siblings: Siblings)
    ensures AnyItem(ParseEntries(es, o), path, basename, Stem(NamedAfter(path, basename), path), siblings) <==>
            exists i | 0 <= i < |es| :: EntryMatches(es[i], o, path, basename, siblings)
  {
    hide EntryMatches, ItemHit, ParseEntry, Stem, NamedAfter;
    var ps, n := ParseEntries(es, o), Stem(NamedAfter(path, basename), path);
    if i :| 0 <= i < |ps| && ItemHit(ps[i], path, basename, n, siblings) {
      EntryIsItem(es[i], o, path, basename, siblings);
    }
    if i :| 0 <= i < |es| && EntryMatches(es[i], o, path, basename, siblings) {
      EntryIsItem(es[i], o, path, basename, siblings);
      assert ItemHit(ps[i], path, basename, n, siblings);
    }
  }

  lemma ResultHits(es: seq<Entry>, o: Options, path: string, basename: string, siblings: Siblings)
    requires Undisturbed(es, path, basename, siblings)
    ensures Truthy(RunExpression(ParseExpression(es, o), path, basename, siblings)) <==>
            AnyItem(ParseExpression(es, o), path, basename, Stem(NamedAfter(path, basename), path), siblings)
  {
    hide ParseExpression, Stem, SameName, LibBasename;
    var rs, n := ParseExpression(es, o), Stem(NamedAfter(path, basename), path);
    if NeedsSiblings(rs) {
      NoClauseNoItem(es, o);
    }
    if |rs| == 1 && !NeedsSiblings(rs) {
      assert ItemHit(rs[0], path, basename, n, siblings) == Truthy(Run(rs[0], path, basename));
    } else {
      EntriesSound(es, o);
      RunFromHits(rs, path, basename, basename, "", siblings);
    }
  }

  // ---------- when a basename is filled in ----------

  lemma EmptyLibBasename(path: string)
    requires LibBasename(path) == ""
    ensures LastName(path) == ""
  {
  }

  /** A clause whose key does not match, and a name below a globstar. */
  function ClauseThenName(w: string): seq<Entry> {
    [Entry("x", Sibling("y")), Entry("**/" + w, Enabled)]
  }

  lemma ParsedX(o: Options)
    ensures Parse("x", o) == PathIs("x", "x") && Trim("x") == "x"
  {
    assert "x"[0] == 'x' && DropSlash("x") == "x";
    assert TrimForExclusions("x", o) == "x";
    assert Word("x");
    assert MatchT5("x") == Some("x");
    assert Native("x", o) == "x";
  }

  lemma ParsedName(w: string, o: Options)
    requires Word(w)
    ensures Parse("**/" + w, o) == NameMatch(w, "**/" + w) && Trim("**/" + w) == "**/" + w
  {
    var p := "**/" + w;
    assert p[3..] == w && WordChar(w[0]) && WordChar(w[|w| - 1]) && p[|p| - 1] == w[|w| - 1] && p[3] == w[0];
    assert TrimForExclusions(p, o) == p;
    assert DropSlash(w) == w;
    assert |p| > 5 ==> p[..5][3] == p[3] != "**/*."[3];
  }

  /** The name is compared with the library basename, since the clause before it filled that in. */
  lemma ClauseFillsBasename(w: string, o: Options, path: string, f: string -> bool)
    requires Word(w) && path != "x"
    ensures Truthy(RunExpression(ParseExpression(ClauseThenName(w), o), path, "", Some(f))) <==>
            path != "" && BasenameFor(path, LibBasename(path)) == w
    ensures Truthy(RunExpression(ParseExpression(ClauseThenName(w), o), path, "", Some(f))) ==>
            RunExpression(ParseExpression(ClauseThenName(w), o), path, "", Some(f)) == Some("**/" + w)
    ensures (exists i | 0 <= i < |ClauseThenName(w)| :: EntryMatches(ClauseThenName(w)[i], o, path, "", Some(f))) <==>
            path != "" && LastName(path) == w
  {
    hide Parse, ParseExpression, LibBasename, LastName, Stem, Substitute, EntryMatches;
    var es := ClauseThenName(w);
    var first, second := When(PathIs("x", "x"), "x", "y"), NameMatch(w, "**/" + w);
    TwoItems(w, o);
    assert [first, second][1..] == [second] && [second][1..] == [];
    var lib := LibBasename(path);
    assert Run(PathIs("x", "x"), path, lib) == None;
    assert RunFrom([first, second], path, "", "", Some(f)) == RunFrom([second], path, lib, Stem(lib, path), Some(f));
    LastItem(second, path, lib, Stem(lib, path), Some(f));
    WordIsSepFree(w);
    NameHit(w, "**/" + w, path, lib);
    NameHit(w, "**/" + w, path, "");
    XOnlyMatchesItself(o, path, f);
    NameByItself(w, o, path, f);
    assert es[0] == Entry("x", Sibling("y")) && es[1] == Entry("**/" + w, Enabled);
    assert Hit(second, path, "") ==> EntryMatches(es[1], o, path, "", Some(f));
  }

  lemma LastItem(p: Parsed, path: string, b: string, n: string, siblings: Siblings)
    requires !p.When?
    ensures RunFrom([p], path, b, n, siblings) == if Hit(p, path, b) then Run(p, path, b) else None
  {
    assert [p][1..] == [];
  }

  lemma TwoItems(w: string, o: Options)
    requires Word(w)
    ensures ParseExpression(ClauseThenName(w), o) == [When(PathIs("x", "x"), "x", "y"), NameMatch(w, "**/" + w)]
  {
    hide Parse, Trim;
    var es, first, second := ClauseThenName(w), When(PathIs("x", "x"), "x", "y"), NameMatch(w, "**/" + w);
    ParsedX(o);
    ParsedName(w, o);
    assert ParseEntry(es[0], o) == first && ParseEntry(es[1], o) == second;
    assert ParseEntries(es, o) == [first, second];
    PairKept(first, second);
  }

  lemma PairKept(a: Parsed, b: Parsed)
    requires !a.Null? && !b.Null? && !HasBasenames(a)
    ensures NotNull([a, b]) == [a, b] && AggregateBasenameMatches([a, b], "") == [a, b]
  {
    var ps := [a, b];
    assert ps[1..] == [b] && [b][1..] == [];
    assert NotNull([b]) == [b] + NotNull([]);
    assert NotNull(ps) == [a] + NotNull([b]);
    assert Filter([b], true) == (if HasBasenames(b) then [b] else []) + Filter([], true);
    assert Filter(ps, true) == [] + Filter([b], true);
  }

  lemma XOnlyMatchesItself(o: Options, path: string, f: string -> bool)
    requires path != "x"
    ensures !EntryMatches(Entry("x", Sibling("y")), o, path, "", Some(f))
  {
    ParsedX(o);
  }

  lemma NameByItself(w: string, o: Options, path: string, f: string -> bool)
    requires Word(w)
    ensures EntryMatches(Entry("**/" + w, Enabled), o, path, "", Some(f)) <==> Hit(NameMatch(w, "**/" + w), path, "")
  {
    hide Parse, Trim;
    ParsedName(w, o);
  }

  lemma WordIsSepFree(w: string)
    requires Word(w)
    ensures SepFree(w)
  {
  }

  /** Without a basename and with a sibling test: all expressions are the union of their entries on a
      path iff filling in its library basename makes no difference. */
  lemma UnionExactly(o: Options, path: string, f: string -> bool)
    ensures (forall es :: IsUnion(es, o, path, "", Some(f))) <==> SameName(path)
  {
    hide IsUnion, LastName, LibBasename;
    if SameName(path) {
      forall es ensures IsUnion(es, o, path, "", Some(f)) {
        ExpressionIsUnion(es, o, path, "", Some(f));
      }
    } else {
      var w := if Word(LastName(path)) then LastName(path) else LibBasename(path);
      UnionFailsFor(w, o, path, f);
    }
  }

  lemma UnionFailsFor(w: string, o: Options, path: string, f: string -> bool)
    requires Word(w) && LibBasename(path) != LastName(path) && (w == LastName(path) || w == LibBasename(path))
    ensures !IsUnion(ClauseThenName(w), o, path, "", Some(f))
  {
    hide Truthy, EntryMatches, ParseExpression, RunExpression;
    assert path != "" && path != "x";
    if LibBasename(path) == "" {
      EmptyLibBasename(path);
    }
    ClauseFillsBasename(w, o, path, f);
  }

  /** A path with both separators: the name below a globstar matches by itself, but not after a clause. */
  lemma UnionFails(o: Options, f: string -> bool)
    ensures var es, path := [Entry("x", Sibling("y")), Entry("**/c", Enabled)], "a/b\\c";
            && EntryMatches(es[1], o, path, "", Some(f))
            && !Truthy(RunExpression(ParseExpression(es, o), path, "", Some(f)))
  {
    hide EntryMatches, ParseExpression, RunExpression;
    var path := "a/b\\c";
    assert path[..4][3] == '\\';
    assert path[1] == '/' && path[2] != '/' && path[3] != '/' && path[4] != '/';
    assert LastIndexOf(path, '/') == 1;
    assert LibBasename(path) == "b\\c";
    assert LastName(path[..4]) == "";
    assert LastName(path) == "c";
    ClauseFillsBasename("c", o, path, f);
    assert "**/" + "c" == "**/c";
    var es := ClauseThenName("c");
    var i :| 0 <= i < |es| && EntryMatches(es[i], o, path, "", Some(f));
    if i == 0 {
      XOnlyMatchesItself(o, path, f);
    }
  }

  /** On normalised native paths the library basename is the last name. */
  lemma NativeBasename(path: string, o: Options)
    requires NativePath(path, "", o)
    ensures LibBasename(path) == LastName(path)
  {
    hide LastName, FirstSepFrom, Names;
    var other := if o.nativeSep == '/' then '\\' else '/';
    assert LastIndexOf(path, other) < 0;
    var j := LastIndexOf(path, o.nativeSep);
    var b := path[j + 1..];
    assert forall i | 0 <= i < |b| :: b[i] == path[j + 1 + i];
    assert path[|path| - |b|..] == b;
    LastNameUnique(path, b);
  }
}
