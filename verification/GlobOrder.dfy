/** Which entry of an expression answers when several match: the first one, with merged basename patterns
    behind all others. */
module GlobOrder {
  import opened Wrappers
  import opened Paths
  import opened GlobShapes
  import opened GlobParsed
  import opened GlobParse
  import opened GlobLists
  import opened GlobBasenames
  import opened GlobExpression

  /** The answer of the first item that matches. */
  function FirstAnswer(ps: seq<Parsed>, path: string, b: string, n: string, siblings: Siblings): Option<string> {
    if ps == [] then None
    else if ItemHit(ps[0], path, b, n, siblings) then RunItem(ps[0], path, b, n, siblings)
    else FirstAnswer(ps[1..], path, b, n, siblings)
  }

  // ---------- the loop answers with the first item ----------

  /** Two basenames that parsed patterns cannot tell apart give the same answer. */
  lemma SameAnswer(p: Parsed, path: string, b: string, c: string)
    requires Sound(p) && WordNames(p) && Agree(path, b, c) && Hit(p, path, b)
    ensures Run(p, path, c) == Run(p, path, b)
  {
    BasenamesAgree(p, path, b, c);
    if HasBasenames(p) {
      BasenameHit(p, path, b);
      BasenameHit(p, path, c);
    }
  }

  lemma SameItemAnswer(p: Parsed, path: string, b: string, c: string, n: string, m: string, siblings: Siblings)
    requires Sound(p) && WordNames(p) && Agree(path, b, c) && (p.When? && siblings.Some? ==> n == m)
    ensures ItemHit(p, path, b, n, siblings) <==> ItemHit(p, path, c, m, siblings)
    ensures ItemHit(p, path, b, n, siblings) ==> RunItem(p, path, b, n, siblings) == RunItem(p, path, c, m, siblings)
  {
    hide Sound, WordNames, Agree, Run, BasenameFor;
    ItemIrrelevant(p, path, b, c, n, m, siblings);
    if ItemHit(p, path, b, n, siblings) && !p.When? {
      SameAnswer(p, path, b, c);
    }
  }

  lemma {:induction false} LoopIsFirst(ps: seq<Parsed>, path: string, given: string, basename: string, name: string,
      siblings: Siblings)
    requires AllSound(ps) && AllWordNames(ps)
    requires given != "" || siblings.None? || !NeedsSiblings(ps) || SameName(path)
    requires basename == given || (given == "" && basename == LibBasename(path) && SameName(path))
    requires name == "" || name == Stem(NamedAfter(path, given), path)
    ensures RunFrom(ps, path, basename, name, siblings) ==
            FirstAnswer(ps, path, given, Stem(NamedAfter(path, given), path), siblings)
  {
    if ps != [] {
      hide Stem, LibBasename, LastName, WordNames, Sound, Word, RunItem;
      var m := Stem(NamedAfter(path, given), path);
      var fill := ps[0].When? && siblings.Some?;
      var b := if fill && basename == "" then LibBasename(path) else basename;
      var n := if fill && name == "" then Stem(b, path) else name;
      if b != given {
        FilledAgrees(path);
      }
      SameItemAnswer(ps[0], path, b, given, n, m, siblings);
      LoopIsFirst(ps[1..], path, given, b, n, siblings);
    }
  }

  // ---------- merging keeps the first answers ----------

  lemma HeadAnswers(p: Parsed, ps: seq<Parsed>, path: string, b: string, n: string, siblings: Siblings)
    ensures FirstAnswer([p] + ps, path, b, n, siblings) ==
            if ItemHit(p, path, b, n, siblings) then RunItem(p, path, b, n, siblings)
            else FirstAnswer(ps, path, b, n, siblings)
    ensures p.Null? ==> !ItemHit(p, path, b, n, siblings) && !HasBasenames(p)
  {
    assert ([p] + ps)[1..] == ps;
  }

  lemma {:induction false} FirstConcat(ps: seq<Parsed>, qs: seq<Parsed>, path: string, b: string, n: string,
      siblings: Siblings)
    ensures FirstAnswer(ps + qs, path, b, n, siblings) ==
            if AnyItem(ps, path, b, n, siblings) then FirstAnswer(ps, path, b, n, siblings)
            else FirstAnswer(qs, path, b, n, siblings)
  {
    if ps == [] {
      assert ps + qs == qs;
    } else {
      assert (ps + qs)[1..] == ps[1..] + qs;
      AnyItemCons(ps, path, b, n, siblings);
      FirstConcat(ps[1..], qs, path, b, n, siblings);
    }
  }

  lemma IndexConcat(a: seq<string>, c: seq<string>, b: string)
    ensures IndexOf(a + c, b) == if b in a then IndexOf(a, b) else |a| + IndexOf(c, b)
  {
    var i := if b in a then IndexOf(a, b) else |a| + IndexOf(c, b);
    var k := IndexOf(a + c, b);
    assert b in a ==> IndexOf(a, b) < |a|;
    assert i < |a + c| ==> (a + c)[i] == b;
    assert forall j | 0 <= j < i :: (a + c)[j] != b;
    assert k < |a + c| ==> (a + c)[k] == b;
  }

  lemma PatternConcat(a: seq<string>, c: seq<string>, x: seq<string>, y: seq<string>, b: string)
    requires |a| == |x| && |c| == |y| && b in a + c
    ensures IndexOf(a + c, b) < |x + y|
    ensures b in a ==> IndexOf(a, b) < |x| && (x + y)[IndexOf(a + c, b)] == x[IndexOf(a, b)]
    ensures b !in a ==> b in c && IndexOf(c, b) < |y| && (x + y)[IndexOf(a + c, b)] == y[IndexOf(c, b)]
  {
    IndexConcat(a, c, b);
  }

  lemma ListsCons(bs: seq<Parsed>)
    requires bs != [] && AllSound(bs)
    ensures AllBasenames(bs) == BasenamesOf(bs[0]) + AllBasenames(bs[1..])
    ensures AllPatterns(bs) == PatternsOf(bs[0]) + AllPatterns(bs[1..])
    ensures |BasenamesOf(bs[0])| == |PatternsOf(bs[0])| && |AllBasenames(bs[1..])| == |AllPatterns(bs[1..])|
  {
    ListsPair(bs[1..]);
    assert Sound(bs[0]);
  }

  /** The first listed pattern for a basename is the answer of the first matcher that lists the basename. */
  lemma {:induction false} ListAnswersFirst(bs: seq<Parsed>, path: string, b: string, n: string, siblings: Siblings)
    requires AllSound(bs) && forall i | 0 <= i < |bs| :: HasBasenames(bs[i])
    requires path != "" && BasenameFor(path, b) in AllBasenames(bs)
    ensures |AllBasenames(bs)| == |AllPatterns(bs)|
    ensures FirstAnswer(bs, path, b, n, siblings) ==
            Some(AllPatterns(bs)[IndexOf(AllBasenames(bs), BasenameFor(path, b))])
  {
    var name, first, rest := BasenameFor(path, b), bs[0], bs[1..];
    assert Sound(first) && HasBasenames(first) && !first.When?;
    ListsCons(bs);
    BasenameHit(first, path, b);
    assert bs == [first] + rest;
    hide AllBasenames, AllPatterns, BasenamesOf, PatternsOf, FirstAnswer, BasenameFor, Sound, HasBasenames, Run;
    HeadAnswers(first, rest, path, b, n, siblings);
    PatternConcat(BasenamesOf(first), AllBasenames(rest), PatternsOf(first), AllPatterns(rest), name);
    if name in BasenamesOf(first) {
      OwnAnswer(first, path, b);
    } else {
      ListAnswersFirst(rest, path, b, n, siblings);
    }
  }

  lemma OwnAnswer(p: Parsed, path: string, b: string)
    requires Sound(p) && HasBasenames(p) && path != "" && BasenameFor(path, b) in BasenamesOf(p)
    ensures |BasenamesOf(p)| == |PatternsOf(p)|
    ensures Run(p, path, b) == Some(PatternsOf(p)[IndexOf(BasenamesOf(p), BasenameFor(path, b))])
  {
    BasenameHit(p, path, b);
  }

  lemma MergedIsFirst(ps: seq<Parsed>, path: string, b: string, n: string, siblings: Siblings)
    requires AllSound(ps)
    ensures FirstAnswer([Merged(ps, "")], path, b, n, siblings) ==
            FirstAnswer(Filter(ps, true), path, b, n, siblings)
  {
    var bs, m := Filter(ps, true), Merged(ps, "");
    FilterSound(ps, true);
    forall i | 0 <= i < |bs| ensures HasBasenames(bs[i]) { FilterCovers(ps, bs[i]); }
    MergedHit(ps, "", path, b);
    BasenameHit(m, path, b);
    assert [m][1..] == [];
    if Hit(m, path, b) {
      ListAnswersFirst(bs, path, b, n, siblings);
      OwnAnswer(m, path, b);
    } else {
      assert FirstAnswer([m], path, b, n, siblings) == None;
      NoneAnswers(bs, path, b, n, siblings);
    }
  }

  lemma {:induction false} NoneAnswers(bs: seq<Parsed>, path: string, b: string, n: string, siblings: Siblings)
    requires AllSound(bs) && forall i | 0 <= i < |bs| :: HasBasenames(bs[i])
    requires path == "" || BasenameFor(path, b) !in AllBasenames(bs)
    ensures FirstAnswer(bs, path, b, n, siblings) == None
  {
    if bs != [] {
      BasenameHit(bs[0], path, b);
      NoneAnswers(bs[1..], path, b, n, siblings);
    }
  }

  /** The items in the order in which they answer: with several basename matchers, those come last. */
  function InOrder(ps: seq<Parsed>): seq<Parsed> {
    if |Filter(ps, true)| < 2 then ps else Filter(ps, false) + Filter(ps, true)
  }

  lemma AggregatedFirst(ps: seq<Parsed>, path: string, b: string, n: string, siblings: Siblings)
    requires AllSound(ps)
    ensures FirstAnswer(AggregateBasenameMatches(ps, ""), path, b, n, siblings) ==
            FirstAnswer(InOrder(ps), path, b, n, siblings)
  {
    hide FirstAnswer;
    MergedIsFirst(ps, path, b, n, siblings);
    FirstConcat(Filter(ps, false), [Merged(ps, "")], path, b, n, siblings);
    FirstConcat(Filter(ps, false), Filter(ps, true), path, b, n, siblings);
  }

  // ---------- by index ----------

  lemma {:induction false} LeastAnswers(ps: seq<Parsed>, path: string, b: string, n: string, siblings: Siblings, i: nat)
    requires i < |ps| && ItemHit(ps[i], path, b, n, siblings)
    requires forall j | 0 <= j < i :: !ItemHit(ps[j], path, b, n, siblings)
    ensures FirstAnswer(ps, path, b, n, siblings) == RunItem(ps[i], path, b, n, siblings)
  {
    hide ItemHit, RunItem;
    if i > 0 {
      LeastAnswers(ps[1..], path, b, n, siblings, i - 1);
    }
  }

  lemma {:induction false} LeastOfKind(ps: seq<Parsed>, keep: bool, path: string, b: string, n: string,
      siblings: Siblings, i: nat)
    requires i < |ps| && HasBasenames(ps[i]) == keep && ItemHit(ps[i], path, b, n, siblings)
    requires forall j | 0 <= j < i && HasBasenames(ps[j]) == keep :: !ItemHit(ps[j], path, b, n, siblings)
    ensures FirstAnswer(Filter(ps, keep), path, b, n, siblings) == RunItem(ps[i], path, b, n, siblings)
    ensures AnyItem(Filter(ps, keep), path, b, n, siblings)
  {
    hide ItemHit, RunItem, HasBasenames;
    var rest := Filter(ps[1..], keep);
    assert ([ps[0]] + rest)[1..] == rest;
    if i > 0 {
      LeastOfKind(ps[1..], keep, path, b, n, siblings, i - 1);
      AnyItemCons([ps[0]] + rest, path, b, n, siblings);
      assert [] + rest == rest;
    } else {
      assert ItemHit(Filter(ps, keep)[0], path, b, n, siblings);
    }
  }

  lemma NoneOfKind(ps: seq<Parsed>, keep: bool, path: string, b: string, n: string, siblings: Siblings)
    requires forall j | 0 <= j < |ps| && HasBasenames(ps[j]) == keep :: !ItemHit(ps[j], path, b, n, siblings)
    ensures !AnyItem(Filter(ps, keep), path, b, n, siblings)
  {
    forall k | 0 <= k < |Filter(ps, keep)| ensures !ItemHit(Filter(ps, keep)[k], path, b, n, siblings) {
      FilterCovers(ps, Filter(ps, keep)[k]);
    }
  }

  predicate OneNamed(ps: seq<Parsed>, i: nat) {
    i < |ps| && HasBasenames(ps[i])
  }

  predicate TwoNamed(ps: seq<Parsed>, i: nat, j: nat) {
    i < j && OneNamed(ps, i) && OneNamed(ps, j)
  }

  /** Several basename matchers are merged, a single one is not. */
  lemma {:induction false} NamedCount(ps: seq<Parsed>)
    ensures |Filter(ps, true)| >= 1 <==> exists i: nat :: OneNamed(ps, i)
    ensures |Filter(ps, true)| >= 2 <==> exists i: nat, j: nat :: TwoNamed(ps, i, j)
  {
    hide HasBasenames;
    if ps != [] {
      var rest := ps[1..];
      NamedCount(rest);
      if i: nat :| OneNamed(rest, i) {
        assert OneNamed(ps, i + 1);
        if HasBasenames(ps[0]) {
          assert TwoNamed(ps, 0, i + 1);
        }
      }
      if i: nat, j: nat :| TwoNamed(rest, i, j) {
        assert TwoNamed(ps, i + 1, j + 1);
      }
      if i: nat :| OneNamed(ps, i) {
        assert i > 0 ==> OneNamed(rest, i - 1);
        assert i == 0 ==> HasBasenames(ps[0]);
      }
      if i: nat, j: nat :| TwoNamed(ps, i, j) {
        assert OneNamed(rest, j - 1);
        assert i > 0 ==> TwoNamed(rest, i - 1, j - 1);
        assert i == 0 ==> HasBasenames(ps[0]);
      }
      assert HasBasenames(ps[0]) ==> OneNamed(ps, 0);
    }
  }

  // ---------- disabled and empty entries ----------

  lemma FilterHead(p: Parsed, ps: seq<Parsed>, keep: bool)
    ensures Filter([p] + ps, keep) == if HasBasenames(p) == keep then [p] + Filter(ps, keep) else Filter(ps, keep)
    ensures NotNull([p] + ps) == if p.Null? then NotNull(ps) else [p] + NotNull(ps)
  {
    assert ([p] + ps)[1..] == ps;
    assert [] + Filter(ps, keep) == Filter(ps, keep) && [] + NotNull(ps) == NotNull(ps);
  }

  lemma {:induction false} NullsAside(ps: seq<Parsed>, path: string, b: string, n: string, siblings: Siblings)
    ensures FirstAnswer(NotNull(ps), path, b, n, siblings) == FirstAnswer(ps, path, b, n, siblings)
    ensures Filter(NotNull(ps), true) == Filter(ps, true)
    ensures FirstAnswer(Filter(NotNull(ps), false), path, b, n, siblings) ==
            FirstAnswer(Filter(ps, false), path, b, n, siblings)
  {
    if ps != [] {
      var p, rest := ps[0], ps[1..];
      assert ps == [p] + rest;
      NullsAside(rest, path, b, n, siblings);
      hide FirstAnswer, Filter, NotNull, ItemHit, RunItem, HasBasenames;
      FilterHead(p, rest, true);
      FilterHead(p, rest, false);
      FilterHead(p, NotNull(rest), true);
      FilterHead(p, NotNull(rest), false);
      HeadAnswers(p, rest, path, b, n, siblings);
      HeadAnswers(p, NotNull(rest), path, b, n, siblings);
      HeadAnswers(p, Filter(rest, false), path, b, n, siblings);
      HeadAnswers(p, Filter(NotNull(rest), false), path, b, n, siblings);
    }
  }

  /** The entry compares basenames. */
  predicate ByName(e: Entry, o: Options) {
    HasBasenames(ParseEntry(e, o))
  }

  /** It is answered behind all others that are not: a basename pattern that is merged with another one. */
  predicate Late(es: seq<Entry>, o: Options, i: nat)
    requires i < |es|
  {
    ByName(es[i], o) && exists j: nat | j < |es| :: j != i && ByName(es[j], o)
  }

  predicate Before(es: seq<Entry>, o: Options, i: nat, j: nat)
    requires i < |es| && j < |es|
  {
    if Late(es, o, i) == Late(es, o, j) then i < j else Late(es, o, j)
  }

  /** Of all matching entries this is the first in order. */
  predicate FirstMatch(es: seq<Entry>, o: Options, path: string, basename: string, siblings: Siblings, i: nat) {
    && i < |es| && EntryMatches(es[i], o, path, basename, siblings)
    && forall j: nat | j < |es| && EntryMatches(es[j], o, path, basename, siblings) :: j == i || Before(es, o, i, j)
  }

  lemma EntryAnswers(e: Entry, o: Options, path: string, basename: string, siblings: Siblings)
    requires EntryMatches(e, o, path, basename, siblings)
    ensures RunItem(ParseEntry(e, o), path, basename, Stem(NamedAfter(path, basename), path), siblings) ==
            if e.value.Sibling? then Some(e.key) else Run(ParseText(e.key, o), path, basename)
  {
    hide Stem, Parse, Substitute, TrimForExclusions, LibBasename;
    if !e.value.Sibling? {
      ParsedIsNotWhen(Trim(e.key), o);
    }
  }

  lemma FirstOfItems(ps: seq<Parsed>, path: string, b: string, n: string, siblings: Siblings, i: nat)
    requires i < |ps| && ItemHit(ps[i], path, b, n, siblings)
    requires |Filter(ps, true)| < 2 ==> forall j | 0 <= j < i :: !ItemHit(ps[j], path, b, n, siblings)
    requires |Filter(ps, true)| >= 2 ==>
               (forall j | 0 <= j < i && HasBasenames(ps[j]) == HasBasenames(ps[i]) ::
                  !ItemHit(ps[j], path, b, n, siblings)) &&
               (HasBasenames(ps[i]) ==>
                  forall j | 0 <= j < |ps| && !HasBasenames(ps[j]) :: !ItemHit(ps[j], path, b, n, siblings))
    ensures FirstAnswer(InOrder(ps), path, b, n, siblings) == RunItem(ps[i], path, b, n, siblings)
  {
    hide ItemHit, RunItem, HasBasenames, FirstAnswer, AnyItem;
    if |Filter(ps, true)| < 2 {
      LeastAnswers(ps, path, b, n, siblings, i);
    } else {
      LeastOfKind(ps, HasBasenames(ps[i]), path, b, n, siblings, i);
      FirstConcat(Filter(ps, false), Filter(ps, true), path, b, n, siblings);
      if HasBasenames(ps[i]) {
        NoneOfKind(ps, false, path, b, n, siblings);
      }
    }
  }

  lemma OrderWithoutNulls(ps: seq<Parsed>, path: string, b: string, n: string, siblings: Siblings)
    ensures FirstAnswer(InOrder(NotNull(ps)), path, b, n, siblings) ==
            FirstAnswer(InOrder(ps), path, b, n, siblings)
  {
    hide FirstAnswer, AnyItem;
    NullsAside(ps, path, b, n, siblings);
    FirstConcat(Filter(ps, false), Filter(ps, true), path, b, n, siblings);
    FirstConcat(Filter(NotNull(ps), false), Filter(ps, true), path, b, n, siblings);
    SameItems(ps, path, b, n, siblings);
  }

  lemma SameItems(ps: seq<Parsed>, path: string, b: string, n: string, siblings: Siblings)
    ensures AnyItem(Filter(NotNull(ps), false), path, b, n, siblings) <==>
            AnyItem(Filter(ps, false), path, b, n, siblings)
  {
    var qs, rs := Filter(NotNull(ps), false), Filter(ps, false);
    forall p ensures p in qs <==> p in rs && !p.Null? {
      FilterCovers(ps, p);
      FilterCovers(NotNull(ps), p);
      NotNullCovers(ps, p);
    }
    if k :| 0 <= k < |qs| && ItemHit(qs[k], path, b, n, siblings) {
      assert qs[k] in rs;
    }
    if k :| 0 <= k < |rs| && ItemHit(rs[k], path, b, n, siblings) {
      assert rs[k] in qs;
    }
  }

  /** The expression answers with its first matching entry: with the key if that asks for a sibling, otherwise
      with what the key by itself answers. */
  lemma FirstMatchWins(es: seq<Entry>, o: Options, path: string, basename: string, siblings: Siblings, i: nat)
    requires Undisturbed(es, path, basename, siblings) && FirstMatch(es, o, path, basename, siblings, i)
    ensures RunExpression(ParseExpression(es, o), path, basename, siblings) ==
            if es[i].value.Sibling? then Some(es[i].key) else Run(ParseText(es[i].key, o), path, basename)
  {
    hide ParseEntry, EntryMatches, RunExpression, Stem, LibBasename, NamedAfter, SameName, RunItem, FirstAnswer,
      InOrder, AggregateBasenameMatches, AllWordNames, AllSound;
    var ps, n := ParseEntries(es, o), Stem(NamedAfter(path, basename), path);
    forall j: nat | j < |es|
      ensures ItemHit(ps[j], path, basename, n, siblings) <==> EntryMatches(es[j], o, path, basename, siblings)
    {
      EntryIsItem(es[j], o, path, basename, siblings);
    }
    OrderedItems(es, o, path, basename, n, siblings, i);
    OrderWithoutNulls(ps, path, basename, n, siblings);
    EntriesSound(es, o);
    AggregatedFirst(NotNull(ps), path, basename, n, siblings);
    EntryAnswers(es[i], o, path, basename, siblings);
    assert es[i] == es[i] && ps[i] == ParseEntry(es[i], o);
    ResultIsFirst(es, o, path, basename, siblings);
  }

  lemma OrderedItems(es: seq<Entry>, o: Options, path: string, b: string, n: string, siblings: Siblings, i: nat)
    requires i < |es| && ItemHit(ParseEntry(es[i], o), path, b, n, siblings)
    requires forall j: nat | j < |es| && ItemHit(ParseEntry(es[j], o), path, b, n, siblings) ::
               j == i || Before(es, o, i, j)
    ensures FirstAnswer(InOrder(ParseEntries(es, o)), path, b, n, siblings) ==
            RunItem(ParseEntry(es[i], o), path, b, n, siblings)
  {
    var ps := ParseEntries(es, o);
    hide ParseEntry, ItemHit, RunItem, FirstAnswer, InOrder, Late, Filter;
    if |Filter(ps, true)| < 2 {
      NotLate(es, o, i);
      forall j: nat | j < i ensures !ItemHit(ps[j], path, b, n, siblings) {
        NotLate(es, o, j);
      }
    } else {
      LateIfNamed(es, o, i);
      forall j: nat | j < |es| ensures Late(es, o, j) <==> HasBasenames(ps[j]) {
        LateIfNamed(es, o, j);
      }
    }
    hide HasBasenames;
    FirstOfItems(ps, path, b, n, siblings, i);
  }

  lemma NotLate(es: seq<Entry>, o: Options, j: nat)
    requires j < |es| && |Filter(ParseEntries(es, o), true)| < 2
    ensures !Late(es, o, j)
  {
    hide ParseEntry;
    var ps := ParseEntries(es, o);
    NamedCount(ps);
    forall k: nat | k < |es| && k != j ensures !(ByName(es[k], o) && ByName(es[j], o)) {
      assert !TwoNamed(ps, j, k) && !TwoNamed(ps, k, j);
    }
  }

  lemma LateIfNamed(es: seq<Entry>, o: Options, j: nat)
    requires j < |es| && |Filter(ParseEntries(es, o), true)| >= 2
    ensures Late(es, o, j) <==> HasBasenames(ParseEntries(es, o)[j])
  {
    hide ParseEntry;
    var ps := ParseEntries(es, o);
    NamedCount(ps);
    var k: nat, l: nat :| TwoNamed(ps, k, l);
    assert ByName(es[k], o) && ByName(es[l], o);
  }

  lemma ResultIsFirst(es: seq<Entry>, o: Options, path: string, basename: string, siblings: Siblings)
    requires Undisturbed(es, path, basename, siblings)
    ensures var rs, n := ParseExpression(es, o), Stem(NamedAfter(path, basename), path);
            Truthy(FirstAnswer(rs, path, basename, n, siblings)) ==>
            RunExpression(rs, path, basename, siblings) == FirstAnswer(rs, path, basename, n, siblings)
  {
    hide ParseExpression, Stem, SameName, LibBasename, NamedAfter;
    var rs, n := ParseExpression(es, o), Stem(NamedAfter(path, basename), path);
    if NeedsSiblings(rs) {
      NoClauseNoItem(es, o);
    }
    if |rs| == 1 && !NeedsSiblings(rs) {
      assert rs[1..] == [];
    } else {
      EntriesSound(es, o);
      LoopIsFirst(rs, path, basename, basename, "", siblings);
    }
  }

  /** Where some entry matches there is a first one. */
  lemma FirstMatchExists(es: seq<Entry>, o: Options, path: string, basename: string, siblings: Siblings, k: nat)
    returns (i: nat)
    requires k < |es| && EntryMatches(es[k], o, path, basename, siblings)
    ensures FirstMatch(es, o, path, basename, siblings, i)
  {
    hide EntryMatches, Late;
    i := k;
    for j := 0 to |es|
      invariant i < |es| && EntryMatches(es[i], o, path, basename, siblings)
      invariant forall l: nat | l < j && EntryMatches(es[l], o, path, basename, siblings) ::
                  l == i || Before(es, o, i, l)
    {
      if EntryMatches(es[j], o, path, basename, siblings) && Before(es, o, j, i) {
        i := j;
      }
    }
  }
}
