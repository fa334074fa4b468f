/** Exclusion filters given as a brace list whose members all end with a globstar. */
module GlobPrunedLists {
  import opened Paths
  import opened Regex
  import opened GlobSplit
  import opened GlobCompile
  import opened GlobReference
  import opened GlobWildcard
  import opened GlobMeaning
  import opened GlobShapes
  import opened GlobParsed
  import opened GlobParse
  import opened GlobFast
  import opened GlobLists
  import opened GlobPruning

  /** Between two globstars, a segment may take any name. */
  lemma {:induction false} GlobOfOne(seg: string, names: seq<string>)
    requires seg != STARSTAR
    ensures GlobMatch(WildMatch, [STARSTAR, seg, STARSTAR], names) <==>
            exists i | 0 <= i < |names| :: WildMatch(seg, names[i])
    decreases |names|
  {
    hide WildMatch;
    assert [STARSTAR, seg, STARSTAR][1..] == [seg, STARSTAR] && [seg, STARSTAR][1..] == [STARSTAR];
    if names != [] {
      GlobstarAlone(WildMatch, names[1..]);
      GlobOfOne(seg, names[1..]);
      if i :| 0 <= i < |names| && WildMatch(seg, names[i]) {
        assert i > 0 ==> WildMatch(seg, names[1..][i - 1]);
      }
    }
  }

  lemma StarredText(w: string, m: string)
    requires Word(w) && m == "**/*" + w + "/**"
    ensures Plain(m) && Split(m, '/') == [STARSTAR, "*" + w, STARSTAR]
  {
    WordIsPlain(w);
    PlainConcat("**/*", w);
    PlainConcat("**/*" + w, "/**");
    PlainConcat("*", w);
    LacksConcat("*", w, '/');
    var segs := [STARSTAR, "*" + w, STARSTAR];
    assert segs[1..] == ["*" + w, STARSTAR] && ["*" + w, STARSTAR][1..] == [STARSTAR];
    JoinCons(STARSTAR, segs[1..], '/');
    JoinCons("*" + w, [STARSTAR], '/');
    assert JoinBy(segs, '/') == STARSTAR + ['/'] + (("*" + w) + ['/'] + STARSTAR) == m;
    SplitJoin(segs, '/');
  }

  /** The full expression of a globstar, `*.something` and a globstar. */
  lemma FullStarred(w: string, m: string, path: string)
    requires Word(w) && m == "**/*" + w + "/**" && Normal(path)
    ensures MatchSeq(Compile(m), path) <==> exists i | 0 <= i < |Names(path)| :: WildMatch("*" + w, Names(path)[i])
  {
    hide Names, SplitFrom, WildMatch, Compile;
    StarredText(w, m);
    var seg := "*" + w;
    assert WordChar(w[0]);
    assert seg[1] == w[0];
    PlainGlobMeaning(m, path);
    GlobOfOne(seg, Names(path));
  }

  /** Such a member has no cheap form, not even when trimmed. */
  lemma ParsedStarred(w: string, m: string, o: Options)
    requires o.trimForExclusions && Word(w) && m == "**/*" + w + "/**"
    ensures Parse(m, o) == ToRegExp(m)
  {
    hide ToRegExp, Trivia3, ParseMembers, Trivia4And5, SplitOn;
    Trimmed(m, "**/*" + w, o);
    var t := "**/*" + w + "/";
    assert t[3..] == "*" + w + "/" && DropSlash(t[3..]) == "*" + w;
    assert ("*" + w)[0] == '*' && DropSlash(t)[0] == '*' && m[0] == '*';
  }

  lemma PrunedStarred(w: string, m: string, o: Options, path: string, k: nat, withBasename: bool)
    requires o.trimForExclusions && Word(w) && m == "**/*" + w + "/**"
    requires NamedPath(path, "", o) && 1 <= k <= |Names(path)|
    ensures Pruned(m, o, path, k, withBasename) <==> exists i | 0 <= i < k :: WildMatch("*" + w, Names(path)[i])
  {
    hide Parse, Run, Names, LastName, Ancestor, Compile, WildMatch;
    var anc, b := Ancestor(path, k), BasenameToGive(path, k, withBasename);
    AncestorPath(path, k, o, withBasename);
    ParsedStarred(w, m, o);
    StarredText(w, m);
    PlainValid(m);
    SlowIsMatch(m, anc, b);
    FullStarred(w, m, anc);
    var ns := Names(path);
    assert forall i | 0 <= i < k :: ns[..k][i] == ns[i];
  }

  lemma MemberShape(m: string, r: string)
    requires IsMember(m, true) && EndsWith(m, "/**") && r == DropTail(m[3..], true)
    ensures Word(r) ==> m == "**/" + r + "/**"
    ensures !Word(r) ==> r != "" && Word(r[1..]) && m == "**/*" + r[1..] + "/**"
  {
    assert m == "**/" + m[3..] && |m| >= 6;
    assert m[3..] == r + "/**";
    assert m == "**/" + r + "/**";
    if !Word(r) {
      assert r == "*" + r[1..];
    }
  }

  lemma MemberPruning(m: string, o: Options, path: string, withBasename: bool)
    requires o.trimForExclusions && IsMember(m, true) && EndsWith(m, "/**") && NamedPath(path, "", o)
    ensures PrunedSomewhere(m, o, path, withBasename) <==> MatchSeq(Compile(m), path)
  {
    hide Pruned, Names, Compile, WildMatch;
    var r := DropTail(m[3..], true);
    MemberShape(m, r);
    hide IsMember, DropTail, EndsWith;
    if Word(r) {
      WordIsWords(r);
      PruningExact(r, m, o, path, withBasename);
    } else {
      var w := r[1..];
      FullStarred(w, m, path);
      forall k | 1 <= k <= |Names(path)|
        ensures Pruned(m, o, path, k, withBasename) <==> exists i | 0 <= i < k :: WildMatch("*" + w, Names(path)[i])
      {
        PrunedStarred(w, m, o, path, k, withBasename);
      }
      assert Pruned(m, o, path, |Names(path)|, withBasename) <==> MatchSeq(Compile(m), path);
    }
  }

  lemma ParsedList(p: string, o: Options)
    requires o.trimForExclusions && IsT3(p, true)
    ensures Parse(p, o) == Trivia3(ParseMembers(SplitOn(Inner(p), ','), o, |p| - 1), p)
  {
    hide Trivia3, SplitOn;
    assert p[0] == '{' && p[|p| - 1] == '}' && TrimForExclusions(p, o) == p;
  }

  /** A folder is excluded by a list iff it is by some member. */
  lemma ListPruned(p: string, o: Options, path: string, k: nat, withBasename: bool)
    requires o.trimForExclusions && IsT3(p, true) && k <= |Names(path)|
    ensures var ms := SplitOn(Inner(p), ',');
            Pruned(p, o, path, k, withBasename) <==> exists i | 0 <= i < |ms| :: Pruned(ms[i], o, path, k, withBasename)
  {
    hide Run, Names, Compile, Trivia3, Parse;
    var ms := SplitOn(Inner(p), ',');
    var members := ParseMembers(ms, o, |p| - 1);
    forall i | 0 <= i < |ms| ensures members[i] == Parse(ms[i], o) && Sound(members[i]) {
      assert ms[i] in ms;
      MemberText(ms[i], true);
      ParseSound(ms[i], o);
    }
    ParsedList(p, o);
    ListMeaning(members, p, Ancestor(path, k), BasenameToGive(path, k, withBasename));
  }
}
