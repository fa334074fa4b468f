/** Exclusion filters: testing folders on the way down with the trimmed pattern finds exactly the
    paths that the full pattern excludes. */
module GlobPruning {
  import opened Wrappers
  import opened Paths
  import opened Regex
  import opened GlobSplit
  import opened GlobCompile
  import opened GlobReference
  import opened GlobWildcard
  import opened GlobMeaning
  import opened GlobShapes
  import opened GlobParsed
  import opened GlobParse
  import opened GlobFast

  /** The folder that holds the first k names of a path; with all names it is the path itself. */
  function Ancestor(path: string, k: nat): string
    requires k <= |Names(path)|
  {
    var e := FirstSep(path);
    if k == 0 then "" else if k == 1 then path[..e] else path[..e + 1] + Ancestor(path[e + 1..], k - 1)
  }

  /** It is a beginning of the path that ends with a name. */
  lemma {:induction false} AncestorNames(path: string, k: nat)
    requires Normal(path) && 1 <= k <= |Names(path)|
    ensures var a := Ancestor(path, k);
            0 < |a| <= |path| && a == path[..|a|] && !IsSep(a[|a| - 1]) && Names(a) == Names(path)[..k]
    decreases k
  {
    hide Names, Ancestor, FirstSep, Normal;
    if k == 1 {
      FirstFolder(path);
    } else {
      var e := FirstSep(path);
      FirstNames(path, k);
      TailIsNormal(path, e);
      AncestorNames(path[e + 1..], k - 1);
      NextFolder(path, k, e);
    }
  }

  lemma FirstFolder(path: string)
    requires Normal(path)
    ensures var a := Ancestor(path, 1);
            0 < |a| <= |path| && a == path[..|a|] && !IsSep(a[|a| - 1]) && Names(a) == Names(path)[..1]
  {
    FirstNames(path, 1);
    AncestorUnfolds(path, 1);
    hide Names, Ancestor, FirstSep, Normal;
    assert Names(path)[..1] == [Names(path)[0]];
  }

  lemma NextFolder(path: string, k: nat, e: nat)
    requires Normal(path) && 1 < k <= |Names(path)| && e == FirstSep(path) < |path|
    requires k - 1 <= |Names(path[e + 1..])|
    requires var rest := path[e + 1..];
             var b := Ancestor(rest, k - 1);
             0 < |b| <= |rest| && b == rest[..|b|] && !IsSep(b[|b| - 1]) && Names(b) == Names(rest)[..k - 1]
    ensures var a := Ancestor(path, k);
            0 < |a| <= |path| && a == path[..|a|] && !IsSep(a[|a| - 1]) && Names(a) == Names(path)[..k]
  {
    FirstNames(path, k);
    AncestorUnfolds(path, k);
    hide Names, Ancestor, FirstSep, Normal;
    OneMoreName(path, e, Ancestor(path[e + 1..], k - 1));
  }

  lemma FirstNames(path: string, k: nat)
    requires Normal(path) && 1 <= k <= |Names(path)|
    ensures var e := FirstSep(path);
            && 0 < e <= |path| && !IsSep(path[e - 1]) && Names(path[..e]) == [path[..e]]
            && Names(path)[0] == path[..e]
            && (k > 1 ==> e < |path| && k - 1 <= |Names(path[e + 1..])|
                          && Names(path)[..k] == [path[..e]] + Names(path[e + 1..])[..k - 1])
  {
    var e := FirstSep(path);
    FirstSepUnique(path[..e], e) by { assert path[..e][..e] == path[..e]; }
    assert e > 0 ==> path[..e][e - 1] == path[e - 1];
    if k > 1 {
      var rest := Names(path[e + 1..]);
      assert Names(path) == [path[..e]] + rest;
      hide Names;
      assert ([path[..e]] + rest)[..k] == [path[..e]] + rest[..k - 1];
    }
  }

  lemma OneMoreName(path: string, e: nat, a: string)
    requires e < |path| && SepFree(path[..e]) && IsSep(path[e])
    requires 0 < |a| <= |path| - e - 1 && a == path[e + 1..][..|a|] && !IsSep(a[|a| - 1])
    ensures var more := path[..e + 1] + a;
            && |more| <= |path| && more == path[..|more|] && !IsSep(more[|more| - 1])
            && Names(more) == [path[..e]] + Names(a)
  {
    var more := path[..e + 1] + a;
    FirstSepUnique(more, e) by { assert more[..e] == path[..e]; }
    assert more[..e] == path[..e] && more[e + 1..] == a;
  }

  lemma AncestorPath(path: string, k: nat, o: Options, withBasename: bool)
    requires NamedPath(path, "", o) && 1 <= k <= |Names(path)|
    ensures Names(Ancestor(path, k)) == Names(path)[..k]
    ensures NamedPath(Ancestor(path, k), BasenameToGive(path, k, withBasename), o)
    ensures OnlySep(path, o.nativeSep) ==> OnlySep(Ancestor(path, k), o.nativeSep)
  {
    hide Ancestor, Names, LastName;
    AncestorNames(path, k);
    NoDoubledSlice(path, 0, |Ancestor(path, k)|);
  }

  /** A walker gives the basename of each folder, or none. */
  function BasenameToGive(path: string, k: nat, withBasename: bool): string
    requires k <= |Names(path)|
  {
    if withBasename then LastName(Ancestor(path, k)) else ""
  }

  predicate Pruned(p: string, o: Options, path: string, k: nat, withBasename: bool)
    requires k <= |Names(path)|
  {
    Hit(Parse(p, o), Ancestor(path, k), BasenameToGive(path, k, withBasename))
  }

  /** Some folder on the way to the path, or the path itself, is excluded. */
  predicate PrunedSomewhere(p: string, o: Options, path: string, withBasename: bool) {
    exists k | 1 <= k <= |Names(path)| :: Pruned(p, o, path, k, withBasename)
  }

  /** The folders on the way to a folder on the way are folders on the way. */
  lemma {:induction false} AncestorTwice(path: string, k: nat, j: nat)
    requires Normal(path) && 1 <= j <= k <= |Names(path)|
    ensures j <= |Names(Ancestor(path, k))| && Ancestor(Ancestor(path, k), j) == Ancestor(path, j)
    decreases k
  {
    hide Ancestor, Names, FirstSep, Normal;
    AncestorNames(path, k);
    if j == 1 {
      FirstAncestor(path, k);
    } else {
      var e := FirstSep(path);
      FirstNames(path, k);
      TailIsNormal(path, e);
      AncestorTwice(path[e + 1..], k - 1, j - 1);
      LaterAncestor(path, k, j, e);
    }
  }

  lemma FirstAncestor(path: string, k: nat)
    requires Normal(path) && 1 <= k <= |Names(path)|
    ensures Ancestor(Ancestor(path, k), 1) == Ancestor(path, 1)
  {
    FirstNames(path, k);
    AncestorHead(path, k, FirstSep(path));
    hide Ancestor, Names, FirstSep;
    AncestorUnfolds(Ancestor(path, k), 1);
    AncestorUnfolds(path, 1);
  }

  lemma LaterAncestor(path: string, k: nat, j: nat, e: nat)
    requires Normal(path) && 1 < j <= k <= |Names(path)|
    requires e == FirstSep(path) < |path| && k - 1 <= |Names(path[e + 1..])|
    requires j <= |Names(Ancestor(path, k))|
    requires var rest := path[e + 1..];
             j - 1 <= |Names(Ancestor(rest, k - 1))| && Ancestor(Ancestor(rest, k - 1), j - 1) == Ancestor(rest, j - 1)
    ensures Ancestor(Ancestor(path, k), j) == Ancestor(path, j)
  {
    AncestorHead(path, k, e);
    hide Ancestor, Names, FirstSep, Normal;
    AncestorUnfolds(Ancestor(path, k), j);
    AncestorUnfolds(path, j);
  }

  lemma TailIsNormal(path: string, e: nat)
    requires Normal(path) && e == FirstSep(path) < |path|
    ensures Normal(path[e + 1..])
  {
    NormalTail(path);
  }

  lemma AncestorUnfolds(path: string, j: nat)
    requires 1 <= j <= |Names(path)|
    ensures var e := FirstSep(path);
            && (j == 1 ==> Ancestor(path, j) == path[..e])
            && (j > 1 ==> e < |path| && j - 1 <= |Names(path[e + 1..])|
                          && Ancestor(path, j) == path[..e + 1] + Ancestor(path[e + 1..], j - 1))
  {
  }

  lemma AncestorHead(path: string, k: nat, e: nat)
    requires Normal(path) && 1 <= k <= |Names(path)| && e == FirstSep(path) && (k > 1 ==> e < |path|)
    requires k > 1 ==> k - 1 <= |Names(path[e + 1..])|
    ensures var a := Ancestor(path, k);
            && FirstSep(a) == e <= |a| && a[..e] == path[..e]
            && (k > 1 ==> e < |a| && a[..e + 1] == path[..e + 1] && a[e + 1..] == Ancestor(path[e + 1..], k - 1))
  {
    hide Names;
    var a := Ancestor(path, k);
    assert a[..e] == path[..e];
    FirstSepUnique(a, e);
    if k > 1 {
      assert a == path[..e + 1] + Ancestor(path[e + 1..], k - 1);
    }
  }

  lemma {:induction false} AncestorWhole(path: string)
    requires Normal(path)
    ensures Ancestor(path, |Names(path)|) == path
    decreases |path|
  {
    var e, n := FirstSep(path), |Names(path)|;
    AncestorUnfolds(path, n);
    FirstNames(path, n);
    if n > 1 {
      NormalTail(path);
      assert |Names(path)[..n]| == 1 + |Names(path[e + 1..])[..n - 1]|;
      NamesBeyond(path, e);
      hide Names, Ancestor, FirstSep, Normal;
      AncestorWhole(path[e + 1..]);
      assert path == path[..e + 1] + path[e + 1..];
    } else {
      LoneName(path, e);
    }
  }

  lemma NamesBeyond(path: string, e: nat)
    requires e == FirstSep(path) < |path|
    ensures |Names(path)| == 1 + |Names(path[e + 1..])|
  {
  }

  lemma LoneName(path: string, e: nat)
    requires e == FirstSep(path) && |Names(path)| == 1
    ensures path[..e] == path
  {
  }

  // ---------- the full pattern ----------

  lemma {:induction false} GlobOfPrefix(ws: seq<string>, names: seq<string>)
    requires forall i | 0 <= i < |ws| :: Word(ws[i])
    ensures GlobMatch(WildMatch, ws + [STARSTAR], names) <==> ws <= names
  {
    var segs := ws + [STARSTAR];
    if ws == [] {
      assert segs == [STARSTAR];
      GlobstarAlone(WildMatch, names);
    } else {
      WordIsPlain(ws[0]);
      assert segs[1..] == ws[1..] + [STARSTAR];
      if names != [] {
        WordMatchesItself(ws[0], names[0]);
        GlobOfPrefix(ws[1..], names[1..]);
        assert ws == [ws[0]] + ws[1..] && names == [names[0]] + names[1..];
      }
    }
  }

  predicate OccursEndingAt(names: seq<string>, ws: seq<string>, k: nat) {
    k <= |names| && EndsIn(names[..k], ws)
  }

  lemma {:induction false} GlobOfInfix(ws: seq<string>, names: seq<string>)
    requires AllWords(ws)
    ensures GlobMatch(WildMatch, [STARSTAR] + ws + [STARSTAR], names) <==> exists k: nat :: OccursEndingAt(names, ws, k)
    decreases |names|
  {
    var segs := [STARSTAR] + ws + [STARSTAR];
    assert segs[1..] == ws + [STARSTAR];
    GlobOfPrefix(ws, names);
    if ws <= names {
      assert names[..|ws|][0..] == ws;
      assert OccursEndingAt(names, ws, |ws|);
    }
    if names != [] {
      var rest := names[1..];
      GlobOfInfix(ws, rest);
      if k: nat :| OccursEndingAt(rest, ws, k) {
        OccursLater(names, ws, k);
      }
      if k: nat :| OccursEndingAt(names, ws, k) {
        if k == |ws| {
          assert names[..k][0..] == names[..k];
        } else {
          OccursSooner(names, ws, k);
        }
      }
    }
  }

  lemma OccursLater(names: seq<string>, ws: seq<string>, k: nat)
    requires names != [] && OccursEndingAt(names[1..], ws, k)
    ensures OccursEndingAt(names, ws, k + 1)
  {
    var head := names[..k + 1];
    assert names[1..][..k] == head[1..];
    assert head[1..][k - |ws|..] == head[k + 1 - |ws|..];
  }

  lemma OccursSooner(names: seq<string>, ws: seq<string>, k: nat)
    requires OccursEndingAt(names, ws, k) && |ws| < k
    ensures OccursEndingAt(names[1..], ws, k - 1)
  {
    var head := names[..k];
    assert names[1..][..k - 1] == head[1..];
    assert head[1..][k - 1 - |ws|..] == head[k - |ws|..];
  }

  lemma LastIsWord(segs: seq<string>, ws: seq<string>)
    requires AllWords(ws) && (segs == ws + [STARSTAR] || segs == [STARSTAR] + ws + [STARSTAR])
    ensures !AllGlobstar(segs) && !EndsDoubled(segs)
  {
    WordIsPlain(ws[|ws| - 1]);
    assert segs[|segs| - 2] == ws[|ws| - 1];
  }

  lemma SplitFull(s: string, p: string)
    requires Words(s)
    ensures p == s + "/**" ==> Split(p, '/') == Names(s) + [STARSTAR] && Plain(p)
    ensures p == "**/" + s + "/**" ==> Split(p, '/') == [STARSTAR] + Names(s) + [STARSTAR] && Plain(p)
  {
    hide Names, SplitFrom;
    WordsOf(s);
    WordsPlain(s);
    var ws := Names(s);
    forall i | 0 <= i < |ws| ensures Plain(ws[i]) && Lacks(ws[i], '/') { WordIsPlain(ws[i]); }
    var segs := ws + [STARSTAR];
    JoinConcat(ws, [STARSTAR], '/');
    assert s + ['/'] + STARSTAR == s + "/**";
    PlainConcat(s, "/**");
    SplitJoin(segs, '/');
    JoinCons(STARSTAR, segs, '/');
    assert "**/" + (s + "/**") == "**/" + s + "/**" && STARSTAR + ['/'] == "**/";
    PlainConcat("**/" + s, "/**");
    assert [STARSTAR] + segs == [STARSTAR] + ws + [STARSTAR];
    SplitJoin([STARSTAR] + segs, '/');
  }

  lemma FullPrefix(s: string, p: string, path: string)
    requires Words(s) && p == s + "/**" && Normal(path)
    ensures MatchSeq(Compile(p), path) <==> Names(s) <= Names(path)
  {
    SplitFull(s, p);
    WordsOf(s);
    PlainGlobMeaning(p, path);
    LastIsWord(Split(p, '/'), Names(s));
    GlobOfPrefix(Names(s), Names(path));
  }

  lemma FullInfix(s: string, p: string, path: string)
    requires Words(s) && p == "**/" + s + "/**" && Normal(path)
    ensures MatchSeq(Compile(p), path) <==> exists k: nat :: OccursEndingAt(Names(path), Names(s), k)
  {
    SplitFull(s, p);
    WordsOf(s);
    PlainGlobMeaning(p, path);
    LastIsWord(Split(p, '/'), Names(s));
    GlobOfInfix(Names(s), Names(path));
  }

  // ---------- the trimmed pattern ----------

  lemma WordEnds(p: string, i: nat)
    requires i < |p| && Word(p[i..])
    ensures WordChar(p[|p| - 1])
  {
    assert p[i..][|p| - i - 1] == p[|p| - 1];
  }

  lemma Trimmed(p: string, q: string, o: Options)
    requires o.trimForExclusions && p == q + "/**"
    ensures TrimForExclusions(p, o) == q + "/" && !IsT1(p)
  {
    assert p[|p| - 3..] == "/**";
    assert p[..|p| - 2] == q + "/";
    if IsT1(p) {
      WordEnds(p, 5);
    }
  }

  lemma TrimmedStar(s: string, p: string, o: Options)
    requires o.trimForExclusions && Words(s) && p == "**/" + s + "/**"
    ensures Parse(p, o) == if Word(s) then NameMatch(s, p) else Trivia4And5(s, p, true, o)
  {
    Trimmed(p, "**/" + s, o);
    var t := "**/" + s + "/";
    assert t[..3] == "**/" && t[3..] == s + "/" && DropSlash(s + "/") == s;
    assert p[0] == '*';
  }

  lemma TrimmedWhole(s: string, p: string, o: Options)
    requires o.trimForExclusions && Words(s) && p == s + "/**"
    ensures Parse(p, o) == Trivia4And5(s, p, false, o)
  {
    Trimmed(p, s, o);
    var t := s + "/";
    assert DropSlash(t) == s;
    assert t[0] == s[0] && WordChar(s[0]) && p[0] == s[0];
    assert |t| >= 3 ==> t[..3][0] == t[0];
    assert "**/"[0] == '*';
  }

  lemma PrunedStar(s: string, p: string, o: Options, path: string, k: nat, withBasename: bool)
    requires o.trimForExclusions && Words(s) && p == "**/" + s + "/**"
    requires NamedPath(path, "", o) && (Word(s) || OnlySep(path, o.nativeSep)) && 1 <= k <= |Names(path)|
    ensures Pruned(p, o, path, k, withBasename) <==> EndsIn(Names(path)[..k], Names(s))
  {
    hide Parse, Run, Names, LastName, Ancestor, Compile;
    var anc, b := Ancestor(path, k), BasenameToGive(path, k, withBasename);
    AncestorPath(path, k, o, withBasename);
    TrimmedStar(s, p, o);
    if Word(s) {
      WordIsWords(s);
      WordIsPlain(s);
      NameHit(s, p, anc, b);
      LastNameIsLast(anc);
      EndsInOne(Names(anc), s);
    } else {
      PathHit(Native(s, o), [o.nativeSep] + Native(s, o), p, anc, b);
      PathEndsInWords(s, anc, o);
    }
  }

  lemma PrunedWhole(s: string, p: string, o: Options, path: string, k: nat, withBasename: bool)
    requires o.trimForExclusions && Words(s) && p == s + "/**"
    requires NativePath(path, "", o) && 1 <= k <= |Names(path)|
    ensures Pruned(p, o, path, k, withBasename) <==> Names(path)[..k] == Names(s)
  {
    hide Parse, Run, Names, LastName, Ancestor, Compile;
    var anc, b := Ancestor(path, k), BasenameToGive(path, k, withBasename);
    AncestorPath(path, k, o, withBasename);
    TrimmedWhole(s, p, o);
    PathHit(Native(s, o), "", p, anc, b);
    PathIsWords(s, anc, o);
  }

  /** For one name between two globstars, or more on native paths: some folder on the way to the path, or the path
      itself, is accepted by the trimmed matcher iff the full pattern accepts the path. */
  lemma PruningExact(s: string, p: string, o: Options, path: string, withBasename: bool)
    requires o.trimForExclusions && Words(s) && p == "**/" + s + "/**"
    requires NamedPath(path, "", o) && (Word(s) || OnlySep(path, o.nativeSep))
    ensures PrunedSomewhere(p, o, path, withBasename) <==> MatchSeq(Compile(p), path)
  {
    FullInfix(s, p, path);
    WordsOf(s);
    forall k | 1 <= k <= |Names(path)|
      ensures Pruned(p, o, path, k, withBasename) <==> OccursEndingAt(Names(path), Names(s), k)
    {
      PrunedStar(s, p, o, path, k, withBasename);
    }
    if k: nat :| OccursEndingAt(Names(path), Names(s), k) {
      assert 1 <= k;
      assert Pruned(p, o, path, k, withBasename);
    }
  }

  /** The same for names followed by one globstar. */
  lemma PruningWholeExact(s: string, p: string, o: Options, path: string, withBasename: bool)
    requires o.trimForExclusions && Words(s) && p == s + "/**" && NativePath(path, "", o)
    ensures PrunedSomewhere(p, o, path, withBasename) <==> MatchSeq(Compile(p), path)
  {
    FullPrefix(s, p, path);
    WordsOf(s);
    forall k | 1 <= k <= |Names(path)|
      ensures Pruned(p, o, path, k, withBasename) <==> Names(path)[..k] == Names(s)
    {
      PrunedWhole(s, p, o, path, k, withBasename);
    }
    if Names(s) <= Names(path) {
      assert Pruned(p, o, path, |Names(s)|, withBasename);
    }
  }
}
