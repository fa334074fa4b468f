/** What exclusion filters do in general: a folder on the way is excluded iff the full expression accepts
    some folder on the way. */
module GlobPruningLaw {
  import opened Paths
  import opened Regex
  import opened GlobCompile
  import opened GlobShapes
  import opened GlobParsed
  import opened GlobParse
  import opened GlobFast
  import opened GlobLists
  import opened GlobPruning
  import opened GlobPrunedLists

  /** The full expression of the pattern accepts the folder of the first k names. */
  predicate Accepted(p: string, path: string, k: nat)
    requires k <= |Names(path)|
  {
    Slow(p, Ancestor(path, k), "")
  }

  predicate AcceptedSomewhere(p: string, path: string) {
    exists k | 1 <= k <= |Names(path)| :: Accepted(p, path, k)
  }

  lemma SlowIgnoresBasename(p: string, path: string, b: string, c: string)
    ensures Slow(p, path, b) == Slow(p, path, c)
  {
  }

  /** A pattern that is exact at every folder, by itself. */
  lemma ExactAtEach(p: string, o: Options, path: string, withBasename: bool)
    requires forall k | 1 <= k <= |Names(path)| :: Pruned(p, o, path, k, withBasename) <==> Accepted(p, path, k)
    ensures PrunedSomewhere(p, o, path, withBasename) <==> AcceptedSomewhere(p, path)
  {
    hide Pruned, Accepted;
    if k :| 1 <= k <= |Names(path)| && Pruned(p, o, path, k, withBasename) {
      assert Accepted(p, path, k);
    }
    if k :| 1 <= k <= |Names(path)| && Accepted(p, path, k) {
      assert Pruned(p, o, path, k, withBasename);
    }
  }

  /** A folder that is excluded below a folder on the way is excluded on the way. */
  lemma PrunedBelow(p: string, o: Options, path: string, k: nat, withBasename: bool)
    requires Normal(path) && 1 <= k <= |Names(path)| && PrunedSomewhere(p, o, Ancestor(path, k), withBasename)
    ensures PrunedSomewhere(p, o, path, withBasename)
  {
    hide Ancestor, Parse, Names;
    AncestorNames(path, k);
    var a := Ancestor(path, k);
    var j :| 1 <= j <= |Names(a)| && Pruned(p, o, a, j, withBasename);
    AncestorTwice(path, k, j);
    assert Pruned(p, o, path, j, withBasename);
  }

  /** A pattern that excludes some folder on the way to a path iff its full expression accepts the path. */
  lemma ExactAtPath(p: string, o: Options, path: string, withBasename: bool)
    requires Normal(path)
    requires forall k | 1 <= k <= |Names(path)| ::
               PrunedSomewhere(p, o, Ancestor(path, k), withBasename) <==> Accepted(p, path, k)
    ensures PrunedSomewhere(p, o, path, withBasename) <==> AcceptedSomewhere(p, path)
  {
    hide PrunedSomewhere, Ancestor, Names;
    AncestorWhole(path);
    var n := |Names(path)|;
    assert 1 <= n;
    if PrunedSomewhere(p, o, path, withBasename) {
      assert Accepted(p, path, n);
    }
    if k :| 1 <= k <= n && Accepted(p, path, k) {
      PrunedBelow(p, o, path, k, withBasename);
    }
  }

  // ---------- patterns that trimming does not touch ----------

  lemma MemberUntrimmed(m: string)
    ensures IsMember(m, false) ==> !EndsWith(m, "/**") && IsMember(m, true)
    ensures IsMember(m, true) && !EndsWith(m, "/**") ==> IsMember(m, false)
  {
    if EndsWith(m, "/**") && |m| > 3 && m[..3] == "**/" {
      assert m[|m| - 3..][2] == m[|m| - 1] == '*';
      assert DropSlash(m[3..]) == m[3..] && m[3..][|m| - 4] == '*';
    }
    if |m| > 3 && EndsWith(m[3..], "/**") {
      assert m[3..][|m| - 6..] == m[|m| - 3..];
    }
  }

  lemma ListUntrimmed(p: string)
    requires IsT3(p, false)
    ensures IsT3(p, true)
  {
    forall m | m in SplitOn(Inner(p), ',') ensures IsMember(m, true) {
      MemberUntrimmed(m);
    }
  }

  lemma ParsedUntrimmed(p: string, o: Options)
    requires o.trimForExclusions && !EndsWith(p, "/**") && !IsT3(p, true)
    ensures Parse(p, o) == Parse(p, o.(trimForExclusions := false)) && !IsT3(p, false)
  {
    hide IsT3, Trivia3, ParseMembers;
    if IsT3(p, false) {
      ListUntrimmed(p);
    }
    assert TrimForExclusions(p, o) == p;
  }

  lemma UntrimmedAt(p: string, o: Options, path: string, k: nat, withBasename: bool)
    requires o.trimForExclusions && !EndsWith(p, "/**") && !IsT3(p, true)
    requires NamedPath(path, "", o) && 1 <= k <= |Names(path)|
    requires OnlySep(path, o.nativeSep) || IsMember(p, false)
    ensures Pruned(p, o, path, k, withBasename) <==> Accepted(p, path, k)
  {
    hide Parse, Run, Names, LastName, Ancestor, Compile, Slow, IsT1, IsT3, IsMember, ComparedPart;
    var a, b := Ancestor(path, k), BasenameToGive(path, k, withBasename);
    AncestorPath(path, k, o, withBasename);
    ParsedUntrimmed(p, o);
    FastForms(p, o.(trimForExclusions := false), a, b);
    SlowIgnoresBasename(p, a, b, "");
    if IsMember(p, false) {
      MemberComparesNothing(p, a);
    } else {
      ComparedIsNative(p, a, o.nativeSep);
    }
  }

  lemma ComparedIsNative(p: string, path: string, sep: char)
    requires OnlySep(path, sep)
    ensures OnlySep(ComparedPart(p, path), sep)
  {
  }

  // ---------- members of lists ----------

  lemma MemberLaw(m: string, o: Options, path: string, withBasename: bool)
    requires o.trimForExclusions && IsMember(m, true) && NamedPath(path, "", o)
    ensures PrunedSomewhere(m, o, path, withBasename) <==> AcceptedSomewhere(m, path)
  {
    hide Pruned, PrunedSomewhere, Names, Accepted, Slow, Ancestor;
    MemberUntrimmed(m);
    assert !IsT3(m, true) by { assert m[..3][0] == m[0]; }
    if EndsWith(m, "/**") {
      forall k | 1 <= k <= |Names(path)|
        ensures PrunedSomewhere(m, o, Ancestor(path, k), withBasename) <==> Accepted(m, path, k)
      {
        FullMemberAt(m, o, path, k, withBasename);
      }
      ExactAtPath(m, o, path, withBasename);
    } else {
      forall k | 1 <= k <= |Names(path)| ensures Pruned(m, o, path, k, withBasename) <==> Accepted(m, path, k) {
        UntrimmedAt(m, o, path, k, withBasename);
      }
      ExactAtEach(m, o, path, withBasename);
    }
  }

  lemma FullMemberAt(m: string, o: Options, path: string, k: nat, withBasename: bool)
    requires o.trimForExclusions && IsMember(m, true) && EndsWith(m, "/**") && NamedPath(path, "", o)
    requires 1 <= k <= |Names(path)|
    ensures PrunedSomewhere(m, o, Ancestor(path, k), withBasename) <==> Accepted(m, path, k)
  {
    hide PrunedSomewhere, Names, Compile, Slow, Ancestor, IsMember;
    AncestorPath(path, k, o, withBasename);
    MemberPruning(m, o, Ancestor(path, k), withBasename);
    MemberText(m, true);
    PlainValid(m);
    SlowIsMatch(m, Ancestor(path, k), "");
  }

  /** The expression of a list accepts a folder iff the expression of some member does. */
  lemma ListAccepted(p: string, path: string, k: nat)
    requires IsT3(p, true) && Normal(path) && 1 <= k <= |Names(path)|
    ensures var ms := SplitOn(Inner(p), ',');
            Accepted(p, path, k) <==> exists i | 0 <= i < |ms| :: Accepted(ms[i], path, k)
  {
    hide Names, Compile, Slow, Ancestor, IsMember;
    var ms, a := SplitOn(Inner(p), ','), Ancestor(path, k);
    AncestorNames(path, k);
    CompiledList(p, true, a);
    SlowIsMatch(p, a, "");
    forall i | 0 <= i < |ms| ensures Accepted(ms[i], path, k) <==> MatchSeq(Compile(ms[i]), a) {
      assert ms[i] in ms;
      MemberText(ms[i], true);
      PlainValid(ms[i]);
      SlowIsMatch(ms[i], a, "");
    }
    if i :| 0 <= i < |ms| && MatchSeq(Compile(ms[i]), a) {
      assert Accepted(ms[i], path, k);
    }
  }

  lemma AtFolder(p: string, o: Options, path: string, k: nat, withBasename: bool)
    requires o.trimForExclusions && IsT3(p, true) && NamedPath(path, "", o) && 1 <= k <= |Names(path)|
    ensures var ms := SplitOn(Inner(p), ',');
            && (Pruned(p, o, path, k, withBasename) <==>
                exists i | 0 <= i < |ms| :: Pruned(ms[i], o, path, k, withBasename))
            && (Accepted(p, path, k) <==> exists i | 0 <= i < |ms| :: Accepted(ms[i], path, k))
  {
    hide Pruned, Names, Accepted, IsMember, SplitOn;
    ListPruned(p, o, path, k, withBasename);
    ListAccepted(p, path, k);
  }

  /** Every trimmed list, on every normalised path. */
  lemma PruningListLaw(p: string, o: Options, path: string, withBasename: bool)
    requires o.trimForExclusions && IsT3(p, true) && NamedPath(path, "", o)
    ensures PrunedSomewhere(p, o, path, withBasename) <==> AcceptedSomewhere(p, path)
  {
    hide Pruned, Names, Accepted, IsMember;
    var ms := SplitOn(Inner(p), ',');
    forall i | 0 <= i < |ms|
      ensures PrunedSomewhere(ms[i], o, path, withBasename) <==> AcceptedSomewhere(ms[i], path)
    {
      assert ms[i] in ms;
      MemberLaw(ms[i], o, path, withBasename);
    }
    hide SplitOn;
    if k :| 1 <= k <= |Names(path)| && Pruned(p, o, path, k, withBasename) {
      AtFolder(p, o, path, k, withBasename);
      var i :| 0 <= i < |ms| && Pruned(ms[i], o, path, k, withBasename);
      assert AcceptedSomewhere(ms[i], path);
      var j :| 1 <= j <= |Names(path)| && Accepted(ms[i], path, j);
      AtFolder(p, o, path, j, withBasename);
      assert Accepted(p, path, j);
    }
    if k :| 1 <= k <= |Names(path)| && Accepted(p, path, k) {
      AtFolder(p, o, path, k, withBasename);
      var i :| 0 <= i < |ms| && Accepted(ms[i], path, k);
      assert PrunedSomewhere(ms[i], o, path, withBasename);
      var j :| 1 <= j <= |Names(path)| && Pruned(ms[i], o, path, j, withBasename);
      AtFolder(p, o, path, j, withBasename);
      assert Pruned(p, o, path, j, withBasename);
    }
  }

  // ---------- every pattern ----------

  lemma FullStarAt(s: string, p: string, o: Options, path: string, k: nat, withBasename: bool)
    requires o.trimForExclusions && Words(s) && (p == "**/" + s + "/**" || p == s + "/**")
    requires NativePath(path, "", o) && 1 <= k <= |Names(path)|
    ensures PrunedSomewhere(p, o, Ancestor(path, k), withBasename) <==> Accepted(p, path, k)
  {
    hide PrunedSomewhere, Names, Compile, Slow, Ancestor;
    var a := Ancestor(path, k);
    AncestorPath(path, k, o, withBasename);
    if p == "**/" + s + "/**" {
      PruningExact(s, p, o, a, withBasename);
    } else {
      PruningWholeExact(s, p, o, a, withBasename);
    }
    SplitFull(s, p);
    PlainValid(p);
    SlowIsMatch(p, a, "");
  }

  /** The words of a pattern that trimming turns into one of the cheap shapes. */
  lemma TrimmedShape(p: string, o: Options) returns (s: string)
    requires o.trimForExclusions && EndsWith(p, "/**") && Parse(p, o) != ToRegExp(p)
    ensures Words(s) && (p == "**/" + s + "/**" || p == s + "/**")
  {
    hide Parse, Words, Word, ToRegExp, MatchT2, MatchT4, MatchT5;
    var q := p[..|p| - 3];
    assert p == q + "/**";
    ParsedTrimmed(p, q, o);
    s := ShapeWords(q);
    assert "**/" + s + "/" + "**" == "**/" + s + "/**" && q + "/" + "**" == q + "/**";
  }

  lemma ParsedTrimmed(p: string, q: string, o: Options)
    requires o.trimForExclusions && p == q + "/**" && Parse(p, o) != ToRegExp(p)
    ensures MatchT2(q + "/").Some? || MatchT4(q + "/").Some? || MatchT5(q + "/").Some?
  {
    hide ToRegExp, Trivia3, Trivia4And5, MatchT2, MatchT4, MatchT5, IsT1, TrimForExclusions;
    Trimmed(p, q, o);
    assert p[|p| - 1] == '*';
  }

  lemma ShapeWords(q: string) returns (s: string)
    requires MatchT2(q + "/").Some? || MatchT4(q + "/").Some? || MatchT5(q + "/").Some?
    ensures Words(s) && (q + "/" == "**/" + s + "/" || s == q)
  {
    hide Words, Word;
    var t := q + "/";
    assert DropSlash(t) == q;
    if MatchT2(t).Some? || MatchT4(t).Some? {
      s := DropSlash(t[3..]);
      WordWords(s);
      assert t[3..] == s + "/";
      assert t == t[..3] + t[3..];
    } else {
      s := q;
    }
  }

  lemma WordWords(w: string)
    ensures Word(w) ==> Words(w)
  {
    if Word(w) {
      WordIsWords(w);
    }
  }

  /** The pattern that is tested: what trimming leaves, if that has a cheap shape. */
  function Tested(p: string, o: Options): string {
    var q := TrimForExclusions(p, o);
    if q != p && (MatchT2(q).Some? || MatchT4(q).Some? || MatchT5(q).Some?) then q else p
  }

  /** The expression of the tested pattern accepts the folder, and where the test compares text with
      separators, the folder has native ones. */
  predicate TestedAt(p: string, o: Options, path: string, k: nat)
    requires k <= |Names(path)|
  {
    Accepted(Tested(p, o), path, k) && OnlySep(ComparedPart(Tested(p, o), Ancestor(path, k)), o.nativeSep)
  }

  lemma UntrimmedTest(p: string, o: Options, path: string, k: nat, withBasename: bool)
    requires o.trimForExclusions && !EndsWith(p, "/**") && !IsT3(p, true)
    requires NamedPath(path, "", o) && 1 <= k <= |Names(path)|
    ensures Pruned(p, o, path, k, withBasename) <==> TestedAt(p, o, path, k)
  {
    assert Tested(p, o) == p;
    hide Parse, Run, Names, LastName, Ancestor, Compile, Slow, IsT1, IsT3, ComparedPart, Tested;
    var a, b := Ancestor(path, k), BasenameToGive(path, k, withBasename);
    AncestorPath(path, k, o, withBasename);
    ParsedUntrimmed(p, o);
    FastForms(p, o.(trimForExclusions := false), a, b);
    SlowIgnoresBasename(p, a, b, "");
  }

  /** The trimmed pattern, parsed for itself, finds the same. */
  lemma TrimmedHit(p: string, q: string, o: Options, path: string, b: string)
    requires o.trimForExclusions && p == q + "/**"
    requires MatchT2(q + "/").Some? || MatchT4(q + "/").Some? || MatchT5(q + "/").Some?
    ensures Hit(Parse(p, o), path, b) <==> Hit(Parse(q + "/", o.(trimForExclusions := false)), path, b)
  {
    hide Run, MatchT2, MatchT4, MatchT5, Native;
    var t, u := q + "/", o.(trimForExclusions := false);
    ShapesParsed(p, q, o);
    hide Parse;
    if MatchT2(t).Some? {
      var w := MatchT2(t).value;
      assert SepFree(w) by { T2IsWord(t); }
      NameHit(w, p, path, b);
      NameHit(w, t, path, b);
    } else {
      var s := if MatchT4(t).Some? then MatchT4(t).value else MatchT5(t).value;
      PathHit(Native(s, o), [o.nativeSep] + Native(s, o), p, path, b);
      PathHit(Native(s, o), [o.nativeSep] + Native(s, o), t, path, b);
      SameNative(s, o, u);
    }
  }

  lemma T2IsWord(t: string)
    requires MatchT2(t).Some?
    ensures SepFree(MatchT2(t).value)
  {
    WordIsPlain(MatchT2(t).value);
  }

  lemma SameNative(s: string, o: Options, u: Options)
    requires o.nativeSep == u.nativeSep
    ensures Native(s, o) == Native(s, u)
  {
  }

  /** What both patterns are parsed to. */
  lemma ShapesParsed(p: string, q: string, o: Options)
    requires o.trimForExclusions && p == q + "/**"
    requires MatchT2(q + "/").Some? || MatchT4(q + "/").Some? || MatchT5(q + "/").Some?
    ensures var t, u := q + "/", o.(trimForExclusions := false);
            && (MatchT2(t).Some? ==>
                  && Parse(p, o) == NameMatch(MatchT2(t).value, p)
                  && Parse(t, u) == NameMatch(MatchT2(t).value, t))
            && (MatchT2(t).None? && MatchT4(t).Some? ==>
                  && Parse(p, o) == Trivia4And5(MatchT4(t).value, p, true, o)
                  && Parse(t, u) == Trivia4And5(MatchT4(t).value, t, true, u))
            && (MatchT2(t).None? && MatchT4(t).None? ==>
                  && Parse(p, o) == Trivia4And5(MatchT5(t).value, p, false, o)
                  && Parse(t, u) == Trivia4And5(MatchT5(t).value, t, false, u))
  {
    hide MatchT2, MatchT4, MatchT5, Trivia4And5, Trivia3, ParseMembers;
    var t, u := q + "/", o.(trimForExclusions := false);
    Trimmed(p, q, o);
    assert p[|p| - 1] == '*' && t[|t| - 1] == '/';
    assert TrimForExclusions(t, u) == t;
    SlashNotT1(t);
    hide IsT1, TrimForExclusions;
  }

  lemma SlashNotT1(t: string)
    requires t != "" && t[|t| - 1] == '/'
    ensures !IsT1(t)
  {
    if IsT1(t) {
      WordEnds(t, 5);
    }
  }

  lemma TrimmedTest(p: string, o: Options, path: string, k: nat, withBasename: bool)
    requires o.trimForExclusions && EndsWith(p, "/**") && NamedPath(path, "", o) && 1 <= k <= |Names(path)|
    ensures Pruned(p, o, path, k, withBasename) <==> TestedAt(p, o, path, k)
  {
    hide Run, Names, LastName, Ancestor, Compile, Slow, IsT1, IsT3, ComparedPart, MatchT2, MatchT4, MatchT5, Parse;
    var q := p[..|p| - 3];
    assert p == q + "/**";
    var a, b := Ancestor(path, k), BasenameToGive(path, k, withBasename);
    Trimmed(p, q, o);
    assert |q + "/"| != |p|;
    if MatchT2(q + "/").Some? || MatchT4(q + "/").Some? || MatchT5(q + "/").Some? {
      AncestorPath(path, k, o, withBasename);
      TrimmedHit(p, q, o, a, b);
      FastForms(q + "/", o.(trimForExclusions := false), a, b);
      SlowIgnoresBasename(q + "/", a, b, "");
    } else {
      if Parse(p, o) != ToRegExp(p) {
        ParsedTrimmed(p, q, o);
      }
      RegExpAt(p, o, path, k, withBasename);
      StarComparesNothing(p, a);
    }
  }

  lemma StarNotT1(p: string)
    requires p != "" && p[|p| - 1] == '*'
    ensures !IsT1(p)
  {
    if IsT1(p) {
      WordEnds(p, 5);
    }
  }

  lemma StarComparesNothing(p: string, path: string)
    requires EndsWith(p, "/**")
    ensures ComparedPart(p, path) == ""
  {
    var n := |p| - 1;
    assert p[|p| - 3..][2] == p[n] == '*';
    assert !IsT1(p) by { StarNotT1(p); }
    assert DropSlash(p) == p;
    if |p| > 3 {
      var q := p[3..];
      assert q[|q| - 1] == p[n] && DropSlash(q) == q;
    }
  }

  lemma ListComparesNothing(p: string, o: Options, path: string)
    requires IsT3(p, true)
    ensures Tested(p, o) == p && ComparedPart(p, path) == ""
  {
    hide IsMember, SplitOn;
    assert p[0] == '{' && p[|p| - 1] == '}';
    assert TrimForExclusions(p, o) == p;
    assert |p| > 3 ==> p[..3][0] == p[0];
    assert |p| > 5 ==> p[..5][0] == p[0];
    assert DropSlash(p) == p;
  }

  /** For every pattern, on every normalised path: testing the folders on the way down excludes some of them
      iff the expression of the tested pattern accepts one whose compared text has native separators. */
  lemma PruningLaw(p: string, o: Options, path: string, withBasename: bool)
    requires o.trimForExclusions && NamedPath(path, "", o)
    ensures PrunedSomewhere(p, o, path, withBasename) <==> exists k | 1 <= k <= |Names(path)| :: TestedAt(p, o, path, k)
  {
    hide Pruned, Names, Accepted, Slow, Ancestor, IsT3, Tested, ComparedPart;
    if IsT3(p, true) {
      PruningListLaw(p, o, path, withBasename);
      forall k | 1 <= k <= |Names(path)| ensures TestedAt(p, o, path, k) <==> Accepted(p, path, k) {
        ListComparesNothing(p, o, Ancestor(path, k));
      }
      if k :| 1 <= k <= |Names(path)| && Accepted(p, path, k) {
        assert TestedAt(p, o, path, k);
      }
    } else {
      forall k | 1 <= k <= |Names(path)| ensures Pruned(p, o, path, k, withBasename) <==> TestedAt(p, o, path, k) {
        if EndsWith(p, "/**") {
          TrimmedTest(p, o, path, k, withBasename);
        } else {
          UntrimmedTest(p, o, path, k, withBasename);
        }
      }
      hide TestedAt;
      if k :| 1 <= k <= |Names(path)| && Pruned(p, o, path, k, withBasename) {
        assert TestedAt(p, o, path, k);
      }
      if k :| 1 <= k <= |Names(path)| && TestedAt(p, o, path, k) {
        assert Pruned(p, o, path, k, withBasename);
      }
    }
  }

  /** On native paths it is the full expression itself that tells: some folder is excluded iff it accepts some
      folder, the path included. */
  lemma NativePruningLaw(p: string, o: Options, path: string, withBasename: bool)
    requires o.trimForExclusions && NativePath(path, "", o)
    ensures PrunedSomewhere(p, o, path, withBasename) <==> AcceptedSomewhere(p, path)
  {
    hide Pruned, PrunedSomewhere, Names, Accepted, Slow, Ancestor, Parse, Words;
    if IsT3(p, true) {
      PruningListLaw(p, o, path, withBasename);
    } else if !EndsWith(p, "/**") {
      forall k | 1 <= k <= |Names(path)| ensures Pruned(p, o, path, k, withBasename) <==> Accepted(p, path, k) {
        UntrimmedAt(p, o, path, k, withBasename);
      }
      ExactAtEach(p, o, path, withBasename);
    } else if Parse(p, o) == ToRegExp(p) {
      forall k | 1 <= k <= |Names(path)| ensures Pruned(p, o, path, k, withBasename) <==> Accepted(p, path, k) {
        RegExpAt(p, o, path, k, withBasename);
      }
      ExactAtEach(p, o, path, withBasename);
    } else {
      var s := TrimmedShape(p, o);
      forall k | 1 <= k <= |Names(path)|
        ensures PrunedSomewhere(p, o, Ancestor(path, k), withBasename) <==> Accepted(p, path, k)
      {
        FullStarAt(s, p, o, path, k, withBasename);
      }
      ExactAtPath(p, o, path, withBasename);
    }
  }

  lemma RegExpAt(p: string, o: Options, path: string, k: nat, withBasename: bool)
    requires Parse(p, o) == ToRegExp(p) && k <= |Names(path)|
    ensures Pruned(p, o, path, k, withBasename) <==> Accepted(p, path, k)
  {
    hide Parse;
    SlowIgnoresBasename(p, Ancestor(path, k), BasenameToGive(path, k, withBasename), "");
  }

  // ---------- lists of which every member ends with a globstar ----------

  /** What such a member accepts on the way, it accepts at the end. */
  lemma MemberReaches(m: string, o: Options, path: string, k: nat)
    requires o.trimForExclusions && IsMember(m, true) && EndsWith(m, "/**") && NamedPath(path, "", o)
    requires 1 <= k <= |Names(path)| && Accepted(m, path, k)
    ensures Slow(m, path, "")
  {
    hide Pruned, PrunedSomewhere, Names, Accepted, Slow, Ancestor, IsMember;
    FullMemberAt(m, o, path, k, false);
    PrunedBelow(m, o, path, k, false);
    AncestorWhole(path);
    FullMemberAt(m, o, path, |Names(path)|, false);
    assert Accepted(m, path, |Names(path)|);
    AcceptedWhole(m, path);
  }

  lemma AcceptedWhole(p: string, path: string)
    requires Normal(path)
    ensures Accepted(p, path, |Names(path)|) == Slow(p, path, "")
  {
    hide Slow;
    AncestorWhole(path);
  }

  /** For a list whose members all end with a globstar, the full pattern then accepts the path itself. */
  lemma PruningListExact(p: string, o: Options, path: string, withBasename: bool)
    requires o.trimForExclusions && IsT3(p, true) && NamedPath(path, "", o)
    requires forall m | m in SplitOn(Inner(p), ',') :: EndsWith(m, "/**")
    ensures PrunedSomewhere(p, o, path, withBasename) <==> MatchSeq(Compile(p), path)
  {
    hide PrunedSomewhere, Names, Accepted, Slow, Ancestor, IsMember, Compile;
    CompiledList(p, true, path);
    SlowIsMatch(p, path, "");
    var ms, n := SplitOn(Inner(p), ','), |Names(path)|;
    assert 1 <= n;
    PruningListLaw(p, o, path, withBasename);
    AcceptedWhole(p, path);
    if k :| 1 <= k <= n && Accepted(p, path, k) {
      ListAccepted(p, path, k);
      var i :| 0 <= i < |ms| && Accepted(ms[i], path, k);
      assert ms[i] in ms;
      MemberReaches(ms[i], o, path, k);
      AcceptedWhole(ms[i], path);
      ListAccepted(p, path, n);
    }
  }
}
