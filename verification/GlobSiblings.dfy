/** The sibling that a clause asks for: what is filled in, and where. */
module GlobSiblings {
  import opened Wrappers
  import opened Paths
  import opened GlobWildcard
  import opened GlobShapes
  import opened GlobParsed
  import opened GlobParse
  import opened GlobFast
  import opened GlobExpression

  predicate OccursAt(clause: string, k: nat) {
    k + |PLACEHOLDER| <= |clause| && clause[k..k + |PLACEHOLDER|] == PLACEHOLDER
  }

  predicate Occurs(clause: string) {
    exists k: nat | k <= |clause| :: OccursAt(clause, k)
  }

  // ---------- where it is filled in ----------

  lemma {:induction false} PlaceholderIsFirst(clause: string, i: nat, k: nat)
    requires i <= k && OccursAt(clause, k) && forall j: nat | i <= j < k :: !OccursAt(clause, j)
    ensures PlaceholderFrom(clause, i) == k
    decreases k - i
  {
    if i < k {
      assert !OccursAt(clause, i);
      PlaceholderIsFirst(clause, i + 1, k);
    }
  }

  /** The placeholder begins with its only dollar sign, so an earlier one cannot overlap it. */
  lemma FirstPlaceholder(pre: string, post: string)
    requires !Occurs(pre)
    ensures PlaceholderFrom(pre + PLACEHOLDER + post, 0) == |pre|
  {
    var clause := pre + PLACEHOLDER + post;
    assert clause[|pre|..|pre| + |PLACEHOLDER|] == PLACEHOLDER;
    forall j: nat | j < |pre| ensures !OccursAt(clause, j) {
      var here := clause[j..j + |PLACEHOLDER|];
      if j + |PLACEHOLDER| <= |pre| {
        assert here == pre[j..j + |PLACEHOLDER|] && !OccursAt(pre, j);
      } else {
        assert here[|pre| - j] == clause[|pre|] == '$' && PLACEHOLDER[|pre| - j] != '$';
      }
    }
    PlaceholderIsFirst(clause, 0, |pre|);
  }

  /** A clause without a placeholder names itself. */
  lemma SubstituteKeeps(clause: string, name: string)
    requires !Occurs(clause)
    ensures Substitute(clause, name) == clause
  {
    var k := PlaceholderFrom(clause, 0);
    if k < |clause| {
      assert OccursAt(clause, k);
    }
  }

  lemma Substituted(pre: string, post: string, name: string)
    requires !Occurs(pre)
    ensures Substitute(pre + PLACEHOLDER + post, name) == pre + Expand(name, pre, post) + post
  {
    var clause := pre + PLACEHOLDER + post;
    FirstPlaceholder(pre, post);
    assert clause[..|pre|] == pre && clause[|pre| + |PLACEHOLDER|..] == post;
  }

  // ---------- what is filled in ----------

  lemma {:induction false} ExpandPlain(a: string, rest: string, before: string, after: string)
    requires Lacks(a, '$')
    ensures Expand(a + rest, before, after) == a + Expand(rest, before, after)
  {
    if a == "" {
      assert a + rest == rest;
    } else {
      assert (a + rest)[1..] == a[1..] + rest && (a + rest)[0] == a[0];
      ExpandPlain(a[1..], rest, before, after);
    }
  }

  lemma ExpandWhole(a: string, before: string, after: string)
    requires Lacks(a, '$')
    ensures Expand(a, before, after) == a
  {
    assert a + "" == a;
    ExpandPlain(a, "", before, after);
  }

  /** The first placeholder is replaced by the name, and the text on both sides of it stays. */
  lemma SubstituteFills(pre: string, post: string, name: string)
    requires !Occurs(pre) && Lacks(name, '$')
    ensures Substitute(pre + PLACEHOLDER + post, name) == pre + name + post
  {
    Substituted(pre, post, name);
    ExpandWhole(name, pre, post);
  }

  /** The characters before which a dollar sign is special. */
  predicate Special(c: char) {
    c == '$' || c == '&' || c == '`' || c == '\''
  }

  lemma DollarUnfolds(rest: string, before: string, after: string)
    requires |rest| >= 2 && rest[0] == '$'
    ensures rest[1] == '$' ==> Expand(rest, before, after) == "$" + Expand(rest[2..], before, after)
    ensures rest[1] == '&' ==> Expand(rest, before, after) == PLACEHOLDER + Expand(rest[2..], before, after)
    ensures rest[1] == '`' ==> Expand(rest, before, after) == before + Expand(rest[2..], before, after)
    ensures rest[1] == '\'' ==> Expand(rest, before, after) == after + Expand(rest[2..], before, after)
    ensures !Special(rest[1]) ==> Expand(rest, before, after) == "$" + Expand(rest[1..], before, after)
  {
  }

  /** In particular `$(basename)` is what is replaced. */
  lemma BasenameFilled(pre: string, post: string, name: string)
    requires Lacks(pre, '$') && Lacks(name, '$')
    ensures Substitute(pre + "$(basename)" + post, name) == pre + name + post
  {
    assert PLACEHOLDER == "$(basename)";
    forall k: nat | k <= |pre| ensures !OccursAt(pre, k) {
      assert k + |PLACEHOLDER| <= |pre| ==> pre[k..k + |PLACEHOLDER|][0] == pre[k];
    }
    SubstituteFills(pre, post, name);
  }

  lemma ExpandAt(a: string, c: char, b: string, before: string, after: string)
    requires Lacks(a, '$') && Lacks(b, '$')
    ensures var name := a + ['$', c] + b;
            && (c == '$' ==> Expand(name, before, after) == a + "$" + b)
            && (c == '&' ==> Expand(name, before, after) == a + PLACEHOLDER + b)
            && (c == '`' ==> Expand(name, before, after) == a + before + b)
            && (c == '\'' ==> Expand(name, before, after) == a + after + b)
            && (!Special(c) ==> Expand(name, before, after) == name)
  {
    hide Expand;
    var rest := ['$', c] + b;
    assert a + ['$', c] + b == a + rest;
    ExpandPlain(a, rest, before, after);
    assert rest[2..] == b && rest[1..] == [c] + b && rest[0] == '$' && rest[1] == c;
    DollarUnfolds(rest, before, after);
    if Special(c) {
      ExpandWhole(b, before, after);
    } else {
      ExpandWhole([c] + b, before, after);
      assert rest == "$" + ([c] + b);
    }
  }

  /** In a name, `$$` stands for one dollar sign, `$&` for the placeholder, and two others for the text
      before and behind it; before other characters a dollar sign is itself. */
  lemma SubstituteDollar(pre: string, post: string, a: string, c: char, b: string)
    requires !Occurs(pre) && Lacks(a, '$') && Lacks(b, '$')
    ensures var sibling := Substitute(pre + PLACEHOLDER + post, a + ['$', c] + b);
            && (c == '$' ==> sibling == pre + (a + "$" + b) + post)
            && (c == '&' ==> sibling == pre + (a + PLACEHOLDER + b) + post)
            && (c == '`' ==> sibling == pre + (a + pre + b) + post)
            && (c == '\'' ==> sibling == pre + (a + post + b) + post)
            && (!Special(c) ==> sibling == pre + (a + ['$', c] + b) + post)
  {
    Substituted(pre, post, a + ['$', c] + b);
    ExpandAt(a, c, b, pre, post);
  }

  // ---------- the name ----------

  lemma LastIndexIs(s: string, c: char, i: nat)
    requires i < |s| && s[i] == c && Lacks(s[i + 1..], c)
    ensures LastIndexOf(s, c) == i
  {
    forall k | i < k < |s| ensures s[k] != c {
      assert s[i + 1..][k - i - 1] == s[k];
    }
  }

  /** The basename is what follows the last slash, or, without any slash, the last backslash. */
  lemma LibBasenameBehind(dir: string, sep: char, name: string)
    requires name != "" && Lacks(name, '/')
    requires sep == '/' || (sep == '\\' && Lacks(dir, '/') && Lacks(name, '\\'))
    ensures LibBasename(dir + [sep] + name) == name
  {
    var path := dir + [sep] + name;
    assert path[|dir| + 1..] == name && path[|dir|] == sep;
    LastIndexIs(path, sep, |dir|);
    if sep == '\\' {
      assert Lacks(path, '/');
    }
  }

  lemma LibBasenameAlone(name: string)
    requires Lacks(name, '/') && Lacks(name, '\\')
    ensures LibBasename(name) == name
  {
  }

  /** A separator at the end is dropped, a backslash only where there is no slash. */
  lemma LibBasenameTrailing(path: string, sep: char)
    requires sep == '/' || (sep == '\\' && Lacks(path, '/'))
    ensures LibBasename(path + [sep]) == LibBasename(path)
  {
    var longer := path + [sep];
    assert longer[..|path|] == path && longer[|path|] == sep && longer[|path| + 1..] == "";
    LastIndexIs(longer, sep, |path|);
  }

  /** From its last dot on, the basename is the extension. */
  lemma ExtensionIs(path: string, n: string, e: string)
    requires LibBasename(path) == n + "." + e && Lacks(e, '.')
    ensures LibExtname(path) == "." + e
  {
    hide LibBasename;
    var b := n + "." + e;
    assert b[|n|] == '.' && b[|n| + 1..] == e && b[|n|..] == "." + e;
    LastIndexIs(b, '.', |n|);
  }

  lemma NoExtension(path: string)
    requires Lacks(LibBasename(path), '.')
    ensures LibExtname(path) == ""
  {
  }

  /** From any basename as many characters are dropped as the extension of the path has. */
  lemma StemDrops(basename: string, path: string, x: string, y: string)
    requires basename == x + y && |y| == |LibExtname(path)|
    ensures Stem(basename, path) == x
  {
    hide LibExtname;
    assert (x + y)[..|x|] == x;
  }

  lemma StemTooShort(basename: string, path: string)
    requires |basename| < |LibExtname(path)|
    ensures Stem(basename, path) == ""
  {
  }

  /** A name and its part before the last dot; without a dot that is the name. */
  predicate StemOf(name: string, n: string) {
    || (name == n && Lacks(name, '.'))
    || (|n| < |name| && name[..|n|] == n && name[|n|] == '.' && Lacks(name[|n| + 1..], '.'))
  }

  /** On native paths, what is filled in is the last name up to its last dot. */
  lemma NameFilledIn(path: string, basename: string, o: Options, n: string)
    requires NativePath(path, basename, o) && StemOf(LastName(path), n)
    ensures Stem(NamedAfter(path, basename), path) == n
  {
    hide LastName, LibBasename, LibExtname, Stem;
    NativeBasename(path, o);
    var name := LastName(path);
    if Lacks(name, '.') {
      NoExtension(path);
      assert name == name + "";
      StemDrops(name, path, name, "");
    } else {
      var e := name[|n| + 1..];
      assert name == n + "." + e && name == n + ("." + e);
      ExtensionIs(path, n, e);
      StemDrops(name, path, n, "." + e);
    }
  }

  // ---------- entries with siblings ----------

  /** The sibling is the clause with its first placeholder, if there is one, replaced by the name. */
  ghost predicate AsksFor(clause: string, n: string, sibling: string) {
    || (!Occurs(clause) && sibling == clause)
    || exists pre, post :: FilledIn(clause, n, sibling, pre, post)
  }

  predicate FilledIn(clause: string, n: string, sibling: string, pre: string, post: string) {
    !Occurs(pre) && clause == pre + PLACEHOLDER + post && sibling == pre + n + post
  }

  lemma FilledIsSubstituted(clause: string, n: string, sibling: string, pre: string, post: string)
    requires Lacks(n, '$') && FilledIn(clause, n, sibling, pre, post)
    ensures Occurs(clause) && sibling == Substitute(clause, n)
  {
    assert clause[|pre|..|pre| + |PLACEHOLDER|] == PLACEHOLDER;
    assert OccursAt(clause, |pre|);
    SubstituteFills(pre, post, n);
  }

  lemma AsksForExactly(clause: string, n: string, sibling: string)
    requires Lacks(n, '$')
    ensures AsksFor(clause, n, sibling) <==> sibling == Substitute(clause, n)
  {
    hide Substitute, Occurs;
    if pre, post :| FilledIn(clause, n, sibling, pre, post) {
      FilledIsSubstituted(clause, n, sibling, pre, post);
    }
    if Occurs(clause) {
      var pre, post := SplitAtFirst(clause);
      SubstituteFills(pre, post, n);
      assert sibling == pre + n + post ==> FilledIn(clause, n, sibling, pre, post);
    } else {
      SubstituteKeeps(clause, n);
    }
  }

  lemma SplitAtFirst(clause: string) returns (pre: string, post: string)
    requires Occurs(clause)
    ensures clause == pre + PLACEHOLDER + post && !Occurs(pre)
  {
    var k := 0;
    while !OccursAt(clause, k)
      invariant k <= |clause| && forall j: nat | j < k :: !OccursAt(clause, j)
      decreases |clause| - k
    {
      k := k + 1;
    }
    pre, post := clause[..k], clause[k + |PLACEHOLDER|..];
    forall j: nat | j <= |pre| ensures !OccursAt(pre, j) {
      if OccursAt(pre, j) {
        assert pre[j..j + |PLACEHOLDER|] == clause[j..j + |PLACEHOLDER|];
        assert OccursAt(clause, j);
      }
    }
  }

  /** An entry that is enabled, whose key matches, and whose sibling, if it asks for one, is there. */
  ghost predicate EntryHolds(e: Entry, o: Options, path: string, basename: string, siblings: Siblings, n: string) {
    && e.value != Disabled
    && Hit(ParseText(e.key, o), path, basename)
    && (e.value.Sibling? ==>
          siblings.Some? && exists sibling :: AsksFor(e.value.clause, n, sibling) && siblings.value(sibling))
  }

  lemma SiblingThere(clause: string, n: string, f: string -> bool)
    requires Lacks(n, '$')
    ensures (exists sibling :: AsksFor(clause, n, sibling) && f(sibling)) <==> f(Substitute(clause, n))
  {
    hide AsksFor, Substitute;
    AsksForExactly(clause, n, Substitute(clause, n));
    if sibling :| AsksFor(clause, n, sibling) && f(sibling) {
      AsksForExactly(clause, n, sibling);
    }
  }

  lemma EntryHoldsExactly(e: Entry, o: Options, path: string, basename: string, siblings: Siblings, n: string)
    requires NativePath(path, basename, o) && StemOf(LastName(path), n) && Lacks(n, '$')
    ensures EntryHolds(e, o, path, basename, siblings, n) <==> EntryMatches(e, o, path, basename, siblings)
  {
    NameFilledIn(path, basename, o, n);
    hide ParseText, Hit, AsksFor, Substitute, Stem, LastName, NamedAfter, NativePath, StemOf;
    if e.value.Sibling? && siblings.Some? {
      SiblingThere(e.value.clause, n, siblings.value);
    }
  }

  /** On native paths an expression matches iff one of its entries holds, and a sibling clause holds iff the
      sibling named after the path's last name is there. */
  lemma ExpressionHolds(es: seq<Entry>, o: Options, path: string, basename: string, siblings: Siblings, n: string)
    requires NativePath(path, basename, o) && StemOf(LastName(path), n) && Lacks(n, '$')
    ensures Truthy(RunExpression(ParseExpression(es, o), path, basename, siblings)) <==>
            exists i | 0 <= i < |es| :: EntryHolds(es[i], o, path, basename, siblings, n)
  {
    hide EntryHolds, EntryMatches, RunExpression, ParseExpression, LastName, LibBasename, StemOf;
    NativeBasename(path, o);
    ExpressionIsUnion(es, o, path, basename, siblings);
    forall i | 0 <= i < |es|
      ensures EntryHolds(es[i], o, path, basename, siblings, n) <==> EntryMatches(es[i], o, path, basename, siblings)
    {
      EntryHoldsExactly(es[i], o, path, basename, siblings, n);
    }
  }
}
