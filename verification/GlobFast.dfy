/** The cheap shapes agree with the regular expression of the same pattern. */
module GlobFast {
  import opened Wrappers
  import opened Paths
  import opened Regex
  import opened Globstar
  import opened GlobSplit
  import opened GlobCompile
  import opened GlobReference
  import opened GlobWildcard
  import opened GlobMeaning
  import opened GlobShapes
  import opened GlobParsed
  import opened GlobParse

  // ---------- words ----------

  predicate AllWords(ws: seq<string>) {
    ws != [] && forall i | 0 <= i < |ws| :: Word(ws[i])
  }

  lemma WordIsPlain(w: string)
    requires Word(w)
    ensures Plain(w) && SepFree(w) && Lacks(w, '/') && Lacks(w, ',') && w != STARSTAR
  {
    assert WordChar(w[0]) && !WordChar(STARSTAR[0]);
  }

  lemma {:induction false} WordMatchesItself(w: string, x: string)
    requires w == "" || Word(w)
    ensures WildMatch(w, x) <==> x == w
  {
    if w != "" {
      assert WordChar(w[0]);
      if x != "" {
        WordMatchesItself(w[1..], x[1..]);
        assert x == [x[0]] + x[1..] && w == [w[0]] + w[1..];
      }
    }
  }

  lemma {:induction false} NamesAreWords(s: string)
    requires forall i | 0 <= i < |s| :: WordChar(s[i]) || s[i] == '/'
    ensures forall i | 0 <= i < |Names(s)| :: Names(s)[i] == "" || Word(Names(s)[i])
    decreases |s|
  {
    var k := FirstSep(s);
    assert forall i | 0 <= i < k :: s[..k][i] == s[i];
    if k < |s| {
      NamesAreWords(s[k + 1..]);
      assert Names(s)[1..] == Names(s[k + 1..]);
    }
  }

  /** A string of words is its words, joined by slashes. */
  lemma WordsOf(s: string)
    requires Words(s)
    ensures AllWords(Names(s)) && JoinBy(Names(s), '/') == s
  {
    NamesAreWords(s);
    NormalNames(s);
    JoinNames(s, '/');
  }

  lemma WordIsWords(s: string)
    requires Word(s)
    ensures Words(s) && Names(s) == [s]
  {
    WordIsPlain(s);
    assert s[..|s|] == s;
    FirstSepUnique(s, |s|);
  }

  lemma {:induction false} GlobOfWords(ws: seq<string>, names: seq<string>)
    requires forall i | 0 <= i < |ws| :: Word(ws[i])
    ensures GlobMatch(WildMatch, ws, names) <==> names == ws
  {
    if ws != [] {
      WordIsPlain(ws[0]);
      if names != [] {
        WordMatchesItself(ws[0], names[0]);
        GlobOfWords(ws[1..], names[1..]);
        assert ws == [ws[0]] + ws[1..] && names == [names[0]] + names[1..];
      }
    }
  }

  predicate EndsIn(names: seq<string>, ws: seq<string>) {
    |ws| <= |names| && names[|names| - |ws|..] == ws
  }

  lemma {:induction false} GlobOfStarWords(ws: seq<string>, names: seq<string>)
    requires AllWords(ws)
    ensures GlobMatch(WildMatch, [STARSTAR] + ws, names) <==> EndsIn(names, ws)
    decreases |names|
  {
    GlobOfWords(ws, names);
    assert ([STARSTAR] + ws)[1..] == ws;
    if names != [] {
      GlobOfStarWords(ws, names[1..]);
      if |ws| < |names| {
        assert names[1..][|names| - 1 - |ws|..] == names[|names| - |ws|..];
      } else if |ws| == |names| {
        assert names[0..] == names;
      }
    }
  }

  // ---------- splitting and compiling patterns made of words ----------

  lemma JoinCons(w: string, ws: seq<string>, sep: char)
    requires ws != []
    ensures JoinBy([w] + ws, sep) == w + [sep] + JoinBy(ws, sep)
  {
    assert ([w] + ws)[1..] == ws;
  }

  lemma SplitSlashed(segs: seq<string>, p: string)
    requires segs != [] && forall i | 0 <= i < |segs| :: Plain(segs[i]) && Lacks(segs[i], '/') && segs[i] != ""
    requires p == JoinBy(segs, '/') || p == JoinBy(segs, '/') + "/"
    ensures Split(p, '/') == segs
  {
    SplitJoin(segs, '/');
    SplitJoinTail(segs, '/');
  }

  lemma SplitWords(s: string, p: string)
    requires Words(s) && (p == s || p == s + "/")
    ensures Split(p, '/') == Names(s)
  {
    WordsOf(s);
    forall i | 0 <= i < |Names(s)| ensures Plain(Names(s)[i]) && Lacks(Names(s)[i], '/') { WordIsPlain(Names(s)[i]); }
    SplitSlashed(Names(s), p);
  }

  lemma SplitStarWords(s: string, p: string)
    requires Words(s) && (p == "**/" + s || p == "**/" + s + "/")
    ensures Split(p, '/') == [STARSTAR] + Names(s)
  {
    WordsOf(s);
    var segs := [STARSTAR] + Names(s);
    forall i | 0 <= i < |segs| ensures Plain(segs[i]) && Lacks(segs[i], '/') && segs[i] != "" {
      if i > 0 { WordIsPlain(Names(s)[i - 1]); }
    }
    JoinCons(STARSTAR, Names(s), '/');
    assert STARSTAR + ['/'] == "**/";
    SplitSlashed(segs, p);
  }

  lemma DropSlashCases(s: string)
    ensures s == DropSlash(s) || s == DropSlash(s) + "/"
  {
  }

  lemma WordsNotGlobstars(segs: seq<string>, ws: seq<string>)
    requires AllWords(ws) && (segs == ws || segs == [STARSTAR] + ws)
    ensures !AllGlobstar(segs) && !EndsDoubled(segs)
  {
    WordIsPlain(ws[|ws| - 1]);
    assert segs[|segs| - 1] == ws[|ws| - 1];
  }

  lemma PlainConcat(a: string, b: string)
    requires Plain(a) && Plain(b)
    ensures Plain(a + b)
  {
  }

  lemma WordsPlain(s: string)
    requires Words(s)
    ensures Plain(s) && Plain(s + "/") && Plain("**/" + s) && Plain("**/" + s + "/")
  {
    PlainConcat(s, "/");
    PlainConcat("**/", s);
    PlainConcat("**/" + s, "/");
  }

  /** The expression of `a/b`, on normalised paths. */
  lemma CompiledWords(s: string, p: string, t: string)
    requires Words(s) && (p == s || p == s + "/") && Normal(t)
    ensures MatchSeq(Compile(p), t) <==> Names(t) == Names(s)
  {
    SplitWords(s, p);
    WordsOf(s);
    WordsPlain(s);
    PlainGlobMeaning(p, t);
    GlobOfWords(Names(s), Names(t));
    WordsNotGlobstars(Names(s), Names(s));
  }

  /** The expression of a globstar and `a/b`, on normalised paths. */
  lemma CompiledStarWords(s: string, p: string, t: string)
    requires Words(s) && (p == "**/" + s || p == "**/" + s + "/") && Normal(t)
    ensures MatchSeq(Compile(p), t) <==> EndsIn(Names(t), Names(s))
  {
    SplitStarWords(s, p);
    WordsOf(s);
    WordsPlain(s);
    PlainGlobMeaning(p, t);
    GlobOfStarWords(Names(s), Names(t));
    WordsNotGlobstars([STARSTAR] + Names(s), Names(s));
  }

  // ---------- validity of expressions without classes ----------

  lemma ValidConcat(a: seq<Node>, b: seq<Node>)
    requires ValidSeq(a) && ValidSeq(b)
    ensures ValidSeq(a + b)
  {
  }

  lemma ValidEmitted()
    ensures ValidNode(GLOBSTAR) && ValidNode(NAME_RUN) && ValidNode(ANYTHING)
  {
    assert ValidNode(One(NoSep)) && ValidNode(One(Sep)) && ValidNode(One(Dot));
    assert ValidNode(NAME_RUN);
    assert ValidNode(NAME_THEN_SEP) && ValidNode(SEP_THEN_NAME);
    assert ValidNode(GROUP);
  }

  lemma {:induction false} PlainSegmentValid(s: string)
    requires Plain(s)
    ensures ValidSeq(CompileSeg(s))
  {
    if s != "" {
      PlainSegmentValid(s[1..]);
      ValidEmitted();
      assert ValidSeq(CompileChar(s[0]));
      ValidConcat(CompileChar(s[0]), CompileSeg(s[1..]));
    }
  }

  lemma {:induction false} PlainSegsValid(segs: seq<string>, prev: bool)
    requires forall i | 0 <= i < |segs| :: Plain(segs[i])
    ensures ValidSeq(CompileSegs(segs, prev))
  {
    if segs != [] {
      PlainSegsValid(segs[1..], segs[0] == STARSTAR);
      ValidEmitted();
      PlainSegmentValid(segs[0]);
      ValidConcat(CompileSeg(segs[0]), TailSep(segs));
      ValidConcat(SegmentEmits(segs, prev), CompileSegs(segs[1..], segs[0] == STARSTAR));
    }
  }

  lemma PlainValid(p: string)
    requires Plain(p)
    ensures ValidSeq(Compile(p))
  {
    PlainSegments(p);
    ValidEmitted();
    PlainSegsValid(Split(p, '/'), false);
  }

  // ---------- string checks on native paths ----------

  lemma {:induction false} NamesConcat(x: string, sep: char, y: string)
    requires IsSep(sep)
    ensures Names(x + [sep] + y) == Names(x) + Names(y)
    decreases |x|
  {
    var s, k := x + [sep] + y, FirstSep(x);
    assert s[..k] == x[..k];
    FirstSepUnique(s, k);
    if k == |x| {
      assert s[k + 1..] == y && x[..k] == x;
    } else {
      assert s[k + 1..] == x[k + 1..] + [sep] + y;
      NamesConcat(x[k + 1..], sep, y);
    }
  }

  lemma {:induction false} JoinConcat(xs: seq<string>, ys: seq<string>, sep: char)
    requires xs != [] && ys != []
    ensures JoinBy(xs + ys, sep) == JoinBy(xs, sep) + [sep] + JoinBy(ys, sep)
  {
    assert (xs + ys)[0] == xs[0];
    if |xs| > 1 {
      assert (xs + ys)[1..] == xs[1..] + ys;
      JoinConcat(xs[1..], ys, sep);
    } else {
      assert (xs + ys)[1..] == ys;
    }
  }

  /** Native separators in place of slashes: the same names, joined natively. */
  lemma NativeJoin(s: string, o: Options)
    requires Words(s) && IsSep(o.nativeSep)
    ensures Native(s, o) == JoinBy(Names(s), o.nativeSep) && Names(Native(s, o)) == Names(s)
  {
    var n := Native(s, o);
    NativeNames(s, n, o.nativeSep);
    JoinNames(n, o.nativeSep);
  }

  lemma {:induction false} NativeNames(s: string, n: string, sep: char)
    requires IsSep(sep) && |n| == |s|
    requires forall i | 0 <= i < |s| :: (IsSep(s[i]) && n[i] == sep) || (!IsSep(s[i]) && n[i] == s[i])
    ensures Names(n) == Names(s)
    decreases |s|
  {
    var k := FirstSep(s);
    assert n[..k] == s[..k] by {
      forall i | 0 <= i < k ensures n[i] == s[i] { assert s[..k][i] == s[i]; }
    }
    FirstSepUnique(n, k);
    if k < |s| {
      NativeNames(s[k + 1..], n[k + 1..], sep);
    } else {
      assert n == n[..k] && s == s[..k];
    }
  }

  /** A normalised path with its real basename or none. */
  predicate NamedPath(path: string, basename: string, o: Options) {
    IsSep(o.nativeSep) && Normal(path) && (basename == "" || basename == LastName(path))
  }

  /** The same, and the path uses the native separator only. */
  predicate NativePath(path: string, basename: string, o: Options) {
    NamedPath(path, basename, o) && OnlySep(path, o.nativeSep)
  }

  function LastChars(s: string, n: nat): string {
    if n <= |s| then s[|s| - n..] else s
  }

  /** The path with every separator made native. */
  function Nativized(path: string, sep: char): (n: string)
    ensures |n| == |path| && forall i | 0 <= i < |n| :: n[i] == if IsSep(path[i]) then sep else path[i]
  {
    seq(|path|, i requires 0 <= i < |path| => if IsSep(path[i]) then sep else path[i])
  }

  lemma NativizedIsNative(path: string, o: Options)
    requires NamedPath(path, "", o)
    ensures NativePath(Nativized(path, o.nativeSep), "", o) && Names(Nativized(path, o.nativeSep)) == Names(path)
  {
    hide Names;
    var n := Nativized(path, o.nativeSep);
    NativeNames(path, n, o.nativeSep);
    forall i | 0 <= i < |n| ensures !DoubledAt(n, i) { assert !DoubledAt(path, i); }
  }

  lemma NativeWhole(path: string, x: string, sep: char)
    requires IsSep(sep) && OnlySep(x, sep)
    ensures path == x <==> Nativized(path, sep) == x && OnlySep(path, sep)
  {
    var n := Nativized(path, sep);
    if path == x {
      assert n == x;
    }
    if n == x && OnlySep(path, sep) {
      assert path == n;
    }
  }

  /** Text with native separators ends the path iff it ends the nativized path and the path's end is native. */
  lemma NativeEnd(path: string, x: string, sep: char)
    requires IsSep(sep) && OnlySep(x, sep) && |x| <= |path|
    ensures EndsWith(path, x) <==> EndsWith(Nativized(path, sep), x) && OnlySep(LastChars(path, |x|), sep)
  {
    var d := |path| - |x|;
    assert Nativized(path, sep)[d..] == Nativized(path[d..], sep);
    hide OnlySep, Nativized;
    NativeWhole(path[d..], x, sep);
  }

  lemma PathIsWords(s: string, path: string, o: Options)
    requires Words(s) && NativePath(path, "", o)
    ensures path == Native(s, o) <==> Names(path) == Names(s)
  {
    NativeJoin(s, o);
    JoinNames(path, o.nativeSep);
  }

  lemma EndsInWhenSuffix(path: string, n: string, sep: char)
    requires IsSep(sep) && EndsWith(path, [sep] + n)
    ensures EndsIn(Names(path), Names(n))
  {
    var x := path[..|path| - |n| - 1];
    assert path == x + [sep] + n;
    NamesConcat(x, sep, n);
  }

  lemma SuffixOfConcat(x: string, y: string, s: string)
    requires s == x + y
    ensures EndsWith(s, y)
  {
  }

  lemma SuffixWhenEndsIn(path: string, sep: char, xs: seq<string>, ws: seq<string>)
    requires JoinBy(xs + ws, sep) == path && ws != []
    ensures path == JoinBy(ws, sep) || EndsWith(path, [sep] + JoinBy(ws, sep))
  {
    if xs == [] {
      assert xs + ws == ws;
    } else {
      JoinConcat(xs, ws, sep);
      SuffixOfConcat(JoinBy(xs, sep), [sep] + JoinBy(ws, sep), path);
    }
  }

  lemma PathEndsInWords(s: string, path: string, o: Options)
    requires Words(s) && NativePath(path, "", o)
    ensures path == Native(s, o) || EndsWith(path, [o.nativeSep] + Native(s, o)) <==> EndsIn(Names(path), Names(s))
  {
    hide Names, JoinBy, Native;
    var n, sep := Native(s, o), o.nativeSep;
    NativeJoin(s, o);
    JoinNames(path, sep);
    hide OnlySep, Words, Normal;
    var ns, ws := Names(path), Names(s);
    if path == n {
      assert ns[0..] == ws;
    }
    if EndsWith(path, [sep] + n) {
      EndsInWhenSuffix(path, n, sep);
    }
    if EndsIn(ns, ws) {
      assert ns == ns[..|ns| - |ws|] + ws;
      hide EndsWith;
      SuffixWhenEndsIn(path, sep, ns[..|ns| - |ws|], ws);
    }
  }

  lemma NativeTail(path: string, x: string, sep: char)
    requires IsSep(sep) && OnlySep(x, sep)
    ensures var n := Nativized(path, sep);
            path == x || EndsWith(path, [sep] + x) <==>
            (n == x || EndsWith(n, [sep] + x)) && OnlySep(LastChars(path, |x| + 1), sep)
  {
    if |x| < |path| {
      NativeEnd(path, [sep] + x, sep);
    } else {
      NativeWhole(path, x, sep);
    }
  }

  lemma NativeText(s: string, o: Options)
    requires Words(s)
    ensures OnlySep(Native(s, o), o.nativeSep)
  {
  }

  // ---------- each shape ----------

  predicate Slow(p: string, path: string, basename: string) {
    Hit(ToRegExp(p), path, basename)
  }

  lemma SlowIsMatch(p: string, path: string, basename: string)
    requires p != "" && path != "" && ValidSeq(Compile(p))
    ensures Slow(p, path, basename) <==> MatchSeq(Compile(p), path)
  {
    ExpressionHit(Compile(p), p, path, basename);
  }

  lemma StarThenWord(w: string, x: string)
    requires Word(w)
    ensures WildMatch("*" + w, x) ==> EndsWith(x, w)
    ensures EndsWith(x, w) && SepFree(x[..|x| - |w|]) ==> WildMatch("*" + w, x)
    decreases |x|
  {
    StarUnfolds(w, x);
    WordMatchesItself(w, x);
    hide WildMatch;
    assert x[0..] == x;
    if x != "" {
      StarThenWord(w, x[1..]);
      hide Word;
      if EndsWith(x[1..], w) {
        assert x[|x| - |w|..] == x[1..][|x| - 1 - |w|..];
      }
      if EndsWith(x, w) && |w| < |x| && SepFree(x[..|x| - |w|]) {
        var head := x[..|x| - |w|];
        assert x[1..][|x| - 1 - |w|..] == x[|x| - |w|..];
        assert x[1..][..|x| - 1 - |w|] == head[1..];
        assert x[0] == head[0];
      }
    }
  }

  lemma StarUnfolds(w: string, x: string)
    ensures WildMatch("*" + w, x) <==>
            WildMatch(w, x) || (x != "" && !IsSep(x[0]) && WildMatch("*" + w, x[1..]))
  {
    assert ("*" + w)[0] == '*' && ("*" + w)[1..] == w;
  }

  lemma CompiledT1(p: string)
    requires IsT1(p)
    ensures Plain(p) && Compile(p) == [GLOBSTAR] + CompileSeg("*" + p[4..]) && WellFormed("*" + p[4..]) && Word(p[4..])
  {
    var w, seg := p[4..], "*" + p[4..];
    assert w[0] == '.' && w[1..] == p[5..];
    assert Word(w);
    WordIsPlain(w);
    var segs := [STARSTAR, seg];
    assert Plain(seg) && Lacks(seg, '/');
    JoinCons(STARSTAR, [seg], '/');
    assert p == p[..5] + p[5..] && seg == "*." + p[5..];
    assert p == JoinBy(segs, '/');
    PlainConcat("**/", seg);
    SplitJoin(segs, '/');
    PlainSegment(seg);
    assert WordChar(seg[1]);
    CompiledStarSegment(p, seg);
  }

  lemma CompiledStarSegment(p: string, seg: string)
    requires p != "" && Split(p, '/') == [STARSTAR, seg] && seg != STARSTAR
    ensures Compile(p) == [GLOBSTAR] + CompileSeg(seg)
  {
    hide CompileSeg, SplitFrom;
    var segs := [STARSTAR, seg];
    assert segs[1] != STARSTAR && segs[1..] == [seg] && [seg][1..] == [];
    assert CompileSegs([seg], true) == CompileSeg(seg) + [] + [] == CompileSeg(seg);
    assert CompileSegs(segs, false) == StarsToRegExp(2) + CompileSegs([seg], true);
  }

  lemma SuffixWhenT1(w: string, path: string)
    requires Word(w) && MatchSeq([GLOBSTAR] + CompileSeg("*" + w), path) && WellFormed("*" + w)
    ensures EndsWith(path, w)
  {
    var k := SkipLength(CompileSeg("*" + w), path);
    SegmentMeaning("*" + w, path[k..]);
    StarThenWord(w, path[k..]);
    assert path[|path| - |w|..] == path[k..][|path| - k - |w|..];
  }

  lemma T1WhenSuffix(w: string, path: string)
    requires Word(w) && EndsWith(path, w) && WellFormed("*" + w)
    ensures MatchSeq([GLOBSTAR] + CompileSeg("*" + w), path)
  {
    hide CompileSeg, WildMatch;
    var q := path[..|path| - |w|];
    var n := LastName(q);
    var k := |q| - |n|;
    assert path[k..] == n + w;
    assert (n + w)[|n|..] == w && (n + w)[..|n|] == n;
    StarThenWord(w, n + w);
    SegmentMeaning("*" + w, n + w);
    assert k > 0 ==> path[..k][k - 1] == q[k - 1];
    AcceptsOthers(path[..k]);
    SkipBy(CompileSeg("*" + w), path, k);
  }

  /** `*.something` below a globstar: the suffix check agrees on every path. */
  lemma FastT1(p: string, path: string, basename: string)
    requires IsT1(p)
    ensures Hit(EndMatch(p[4..], p), path, basename) <==> Slow(p, path, basename)
  {
    var w := p[4..];
    CompiledT1(p);
    PlainValid(p);
    EndHit(w, p, path, basename);
    EmptyPath(ToRegExp(p), basename);
    if path != "" {
      SlowIsMatch(p, path, basename);
      if MatchSeq(Compile(p), path) {
        SuffixWhenT1(w, path);
      }
      if EndsWith(path, w) {
        T1WhenSuffix(w, path);
      }
    }
  }

  lemma StarWordsText(p: string)
    requires |p| > 3 && p[..3] == "**/"
    ensures p == "**/" + DropSlash(p[3..]) || p == "**/" + DropSlash(p[3..]) + "/"
  {
    assert p == p[..3] + p[3..];
    DropSlashCases(p[3..]);
  }

  lemma SlowStarWords(s: string, p: string, path: string, basename: string)
    requires Words(s) && (p == "**/" + s || p == "**/" + s + "/") && Normal(path)
    ensures Slow(p, path, basename) <==> EndsIn(Names(path), Names(s))
  {
    CompiledStarWords(s, p, path);
    WordsPlain(s);
    PlainValid(p);
    SlowIsMatch(p, path, basename);
  }

  lemma EndsInOne(names: seq<string>, b: string)
    requires names != []
    ensures EndsIn(names, [b]) <==> names[|names| - 1] == b
  {
    assert names[|names| - 1..] == [names[|names| - 1]];
  }

  lemma T2Words(p: string)
    requires MatchT2(p).Some?
    ensures var b := MatchT2(p).value;
            |p| > 3 && p[..3] == "**/" && b == DropSlash(p[3..]) && SepFree(b) && Words(b) && Names(b) == [b]
  {
    hide Names;
    WordIsPlain(MatchT2(p).value);
    WordIsWords(MatchT2(p).value);
  }

  lemma BasenameIsLast(path: string, basename: string, o: Options)
    requires NamedPath(path, basename, o)
    ensures path != "" && BasenameFor(path, basename) == LastName(path)
  {
  }

  /** A single name below a globstar. */
  lemma FastT2(p: string, o: Options, path: string, basename: string)
    requires MatchT2(p).Some? && NamedPath(path, basename, o)
    ensures Hit(NameMatch(MatchT2(p).value, p), path, basename) <==> Slow(p, path, basename)
  {
    hide Compile, Names, Run, Slow, EndsIn, Words, Plain, DropSlash;
    var b := MatchT2(p).value;
    T2Words(p);
    StarWordsText(p);
    hide MatchT2, Word, SepFree, LastName, Hit, BasenameFor;
    BasenameIsLast(path, basename, o);
    SlowStarWords(b, p, path, basename);
    NameHit(b, p, path, basename);
    LastNameIsLast(path);
    EndsInOne(Names(path), b);
  }

  /** Several names below a globstar: the check also asks for native separators where it compares text. */
  lemma FastT4(p: string, o: Options, path: string, basename: string)
    requires MatchT4(p).Some? && NamedPath(path, basename, o)
    ensures Hit(Trivia4And5(MatchT4(p).value, p, true, o), path, basename) <==>
            Slow(p, path, basename) && OnlySep(LastChars(path, |MatchT4(p).value| + 1), o.nativeSep)
  {
    hide Compile, Names, Run, Slow, EndsWith, LastChars, OnlySep, EndsIn;
    var s, n := MatchT4(p).value, Nativized(path, o.nativeSep);
    var x := Native(s, o);
    NativeText(s, o);
    StarWordsText(p);
    SlowStarWords(s, p, path, basename);
    PathHit(x, [o.nativeSep] + x, p, path, basename);
    NativizedIsNative(path, o);
    PathEndsInWords(s, n, o);
    NativeTail(path, x, o.nativeSep);
  }

  /** A whole path of names: the check also asks for native separators. */
  lemma FastT5(p: string, o: Options, path: string, basename: string)
    requires MatchT5(p).Some? && NamedPath(path, basename, o)
    ensures Hit(Trivia4And5(MatchT5(p).value, p, false, o), path, basename) <==>
            Slow(p, path, basename) && OnlySep(path, o.nativeSep)
  {
    hide Compile, Names, Run, Slow;
    var s := MatchT5(p).value;
    DropSlashCases(p);
    CompiledWords(s, p, path);
    WordsPlain(s);
    PlainValid(p);
    SlowIsMatch(p, path, basename);
    PathHit(Native(s, o), "", p, path, basename);
    NativizedIsNative(path, o);
    PathIsWords(s, Nativized(path, o.nativeSep), o);
    NativeWhole(path, Native(s, o), o.nativeSep);
  }

  /** A backslash in the path, where the native separator is a slash: the expressions match, the cheap
      checks do not. */
  lemma ForeignSeparator(o: Options)
    requires o == Options(false, '/')
    ensures !Hit(Trivia4And5("a/b", "a/b", false, o), "a\\b", "") && MatchSeq(Compile("a/b"), "a\\b")
    ensures !Hit(Trivia4And5("a/b", "**/a/b", true, o), "a\\b", "") && MatchSeq(Compile("**/a/b"), "a\\b")
    ensures MatchT5("a/b") == Some("a/b") && MatchT4("**/a/b") == Some("a/b")
  {
    hide Compile, MatchSeq;
    var path := "a\\b";
    assert "**/a/b"[3..] == "a/b" && DropSlash("a/b") == "a/b" && "**/a/b" == "**/" + "a/b";
    assert path[0] == 'a' && path[1] == '\\' && path[2] == 'b';
    forall i | 0 <= i < |path| ensures !DoubledAt(path, i) {}
    assert Words("a/b") && Normal(path);
    TwoNames("a/b");
    TwoNames(path);
    CompiledWords("a/b", "a/b", path);
    CompiledStarWords("a/b", "**/a/b", path);
    assert EndsIn(Names(path), Names("a/b")) by { assert Names(path)[0..] == Names(path); }
    FastT5("a/b", o, path, "");
    FastT4("**/a/b", o, path, "");
    assert !OnlySep(path, '/') && LastChars(path, 4) == path;
  }

  lemma TwoNames(s: string)
    requires |s| == 3 && s[0] == 'a' && IsSep(s[1]) && s[2] == 'b'
    ensures Names(s) == ["a", "b"]
  {
    assert s[..1] == "a" && s[2..] == "b" && "b"[..1] == "b";
    FirstSepUnique(s, 1);
    FirstSepUnique("b", 1);
    assert Names("b") == ["b"];
  }
}
