/** The pattern shapes that are matched by string checks instead of a regular expression. */
module GlobShapes {
  import opened Wrappers
  import opened Paths
  import opened GlobWildcard

  function EndsWith(haystack: string, needle: string): bool {
    |needle| <= |haystack| && haystack[|haystack| - |needle|..] == needle
  }

  predicate WordChar(c: char) {
    'a' <= c <= 'z' || 'A' <= c <= 'Z' || '0' <= c <= '9' || c == '_' || c == '.' || c == '-'
  }

  predicate Word(s: string) {
    s != "" && forall i | 0 <= i < |s| :: WordChar(s[i])
  }

  /** One or more words separated by single slashes. */
  predicate Words(s: string) {
    Normal(s) && forall i | 0 <= i < |s| :: WordChar(s[i]) || s[i] == '/'
  }

  function DropSlash(s: string): string {
    if s != "" && s[|s| - 1] == '/' then s[..|s| - 1] else s
  }

  function SplitOn(s: string, sep: char): (parts: seq<string>)
    ensures parts != [] && forall i | 0 <= i < |parts| :: |parts[i]| <= |s| && Lacks(parts[i], sep)
    decreases |s|
  {
    var k := IndexFrom(s, sep, 0);
    if k == |s| then [s] else [s[..k]] + SplitOn(s[k + 1..], sep)
  }

  /** `**` `/` `*.something` */
  predicate IsT1(p: string) {
    |p| > 5 && p[..5] == "**/*." && Word(p[5..])
  }

  /** `**` `/` `something`, with at most one slash behind it. */
  function MatchT2(p: string): Option<string> {
    if |p| > 3 && p[..3] == "**/" && Word(DropSlash(p[3..])) then Some(DropSlash(p[3..])) else None
  }

  /** `**` `/` `something/else`, with at most one slash behind it. */
  function MatchT4(p: string): Option<string> {
    if |p| > 3 && p[..3] == "**/" && Words(DropSlash(p[3..])) then Some(DropSlash(p[3..])) else None
  }

  /** `something/else`, with at most one slash behind it. */
  function MatchT5(p: string): Option<string> {
    if Words(DropSlash(p)) then Some(DropSlash(p)) else None
  }

  /** What a list member may end with: a slash, or when trimming also a globstar. */
  function DropTail(s: string, trimming: bool): string {
    if trimming && EndsWith(s, "/**") then s[..|s| - 3] else DropSlash(s)
  }

  predicate IsMember(m: string, trimming: bool) {
    |m| > 3 && m[..3] == "**/" &&
    var r := DropTail(m[3..], trimming);
    Word(r) || (r != "" && r[0] == '*' && Word(r[1..]))
  }

  /** The forms of a list member: a name or a star and a name below a globstar, perhaps with a slash behind it,
      and when trimming perhaps with a slash and a globstar. */
  lemma MemberForms(w: string, trimming: bool)
    requires Word(w)
    ensures IsMember("**/" + w, trimming) && IsMember("**/*" + w, trimming)
    ensures IsMember("**/" + w + "/", trimming) && IsMember("**/*" + w + "/", trimming)
    ensures IsMember("**/" + w + "/**", trimming) <==> trimming
    ensures IsMember("**/*" + w + "/**", trimming) <==> trimming
  {
    MemberTail(w, w, trimming);
    MemberTail("*" + w, w, trimming);
    assert ("*" + w)[1..] == w;
    assert "**/*" + w == "**/" + ("*" + w);
  }

  lemma MemberTail(m: string, w: string, trimming: bool)
    requires Word(w) && (m == w || m == "*" + w)
    ensures IsMember("**/" + m, trimming) && IsMember("**/" + m + "/", trimming)
    ensures IsMember("**/" + m + "/**", trimming) <==> trimming
  {
    NoTail(m, w);
    TailDropped(m);
    Regroup("**/", m, "/");
    Regroup("**/", m, "/**");
    hide DropSlash, EndsWith, Word, IsMember;
    MemberBy(m, m, w, trimming);
    MemberBy(m + "/", m, w, trimming);
    if trimming {
      MemberBy(m + "/**", m, w, trimming);
    } else {
      NoMember(m, w);
    }
  }

  lemma Regroup(a: string, b: string, c: string)
    ensures a + b + c == a + (b + c)
  {
  }

  lemma MemberBy(y: string, m: string, w: string, trimming: bool)
    requires Word(w) && (m == w || m == "*" + w) && DropTail(y, trimming) == m && y != ""
    ensures IsMember("**/" + y, trimming)
  {
    hide DropTail, Word;
    assert ("**/" + y)[3..] == y && ("**/" + y)[..3] == "**/";
    assert m == "*" + w ==> m[1..] == w;
  }

  lemma TailDropped(m: string)
    ensures DropTail(m + "/**", true) == m
  {
    assert (m + "/**")[|m|..] == "/**" && (m + "/**")[..|m|] == m;
  }

  lemma NoMember(m: string, w: string)
    requires Word(w) && (m == w || m == "*" + w)
    ensures !IsMember("**/" + (m + "/**"), false)
  {
    var x := m + "/**";
    assert ("**/" + x)[3..] == x && x[|x| - 1] == '*' && DropTail(x, false) == x;
    assert x[|m|] == '/' && !WordChar('/');
    assert !Word(x);
    assert x[1..][|m| - 1] == '/' && !Word(x[1..]);
  }

  lemma NoTail(m: string, w: string)
    requires Word(w) && (m == w || m == "*" + w)
    ensures !EndsWith(m, "/**") && !EndsWith(m + "/", "/**") && DropSlash(m) == m && DropSlash(m + "/") == m
  {
    assert m[|m| - 1] == w[|w| - 1] && WordChar(w[|w| - 1]);
    hide Word;
    OtherEnd(m, "/**");
    OtherEnd(m + "/", "/**");
    assert (m + "/")[..|m|] == m;
  }

  lemma OtherEnd(s: string, t: string)
    requires s != "" && t != "" && s[|s| - 1] != t[|t| - 1]
    ensures !EndsWith(s, t)
  {
    assert |t| <= |s| ==> s[|s| - |t|..][|t| - 1] == s[|s| - 1];
  }

  function Inner(p: string): string
    requires |p| >= 2
  {
    p[1..|p| - 1]
  }

  /** A brace list of members: the third shape, or its variant for exclusions. */
  predicate IsT3(p: string, trimming: bool) {
    |p| >= 2 && p[0] == '{' && p[|p| - 1] == '}' &&
    forall m | m in SplitOn(Inner(p), ',') :: IsMember(m, trimming)
  }

  predicate Blank(c: char) {
    c == ' ' || '\t' <= c <= '\r' || c == '\U{00A0}' || c == '\U{FEFF}' || c == '\U{1680}' ||
      '\U{2000}' <= c <= '\U{200A}'
    || c == '\U{2028}' || c == '\U{2029}' || c == '\U{202F}' || c == '\U{205F}' || c == '\U{3000}'
  }

  /** The white space and line terminators of ECMAScript, which `trim` drops. */
  const BLANKS := "\t\n\U{000B}\U{000C}\r \U{00A0}\U{1680}\U{2000}\U{2001}\U{2002}\U{2003}\U{2004}\U{2005}\U{2006}" +
    "\U{2007}\U{2008}\U{2009}\U{200A}\U{2028}\U{2029}\U{202F}\U{205F}\U{3000}\U{FEFF}"

  lemma BlankExactly(c: char)
    ensures Blank(c) <==> c in BLANKS
  {
  }

  function TrimLeft(s: string): (r: string)
    ensures |r| <= |s| && (r != "" ==> !Blank(r[0]) && s != "" && r[|r| - 1] == s[|s| - 1])
  {
    if s != "" && Blank(s[0]) then TrimLeft(s[1..]) else s
  }

  function TrimRight(s: string): (r: string)
    ensures |r| <= |s| && (r != "" ==> !Blank(r[|r| - 1]) && r[0] == s[0])
  {
    if s != "" && Blank(s[|s| - 1]) then TrimRight(s[..|s| - 1]) else s
  }

  /** Drops white space at both ends. */
  function Trim(s: string): (r: string)
    ensures |r| <= |s| && (r != "" ==> !Blank(r[0]) && !Blank(r[|r| - 1]))
  {
    TrimRight(TrimLeft(s))
  }

  lemma TrimTwice(s: string)
    ensures Trim(Trim(s)) == Trim(s)
  {
  }

  lemma SplitOnAlone(a: string, sep: char)
    requires Lacks(a, sep)
    ensures SplitOn(a, sep) == [a]
  {
  }

  /** At every separator the text is split into the parts before it and those behind it. */
  lemma {:induction false} SplitOnConcat(a: string, b: string, sep: char)
    ensures SplitOn(a + [sep] + b, sep) == SplitOn(a, sep) + SplitOn(b, sep)
    decreases |a|
  {
    var s, k := a + [sep] + b, IndexFrom(a, sep, 0);
    IndexIs(s, sep, k);
    assert s[..k] == a[..k];
    if k == |a| {
      assert s[k + 1..] == b && a[..k] == a;
    } else {
      assert s[k + 1..] == a[k + 1..] + [sep] + b;
      SplitOnConcat(a[k + 1..], b, sep);
    }
  }

  lemma IndexIs(s: string, c: char, k: nat)
    requires k < |s| && s[k] == c && forall j | 0 <= j < k :: s[j] != c
    ensures IndexFrom(s, c, 0) == k
  {
  }

  predicate AllBlank(s: string) {
    forall i | 0 <= i < |s| :: Blank(s[i])
  }

  /** Empty, or without white space at both ends. */
  predicate Bare(s: string) {
    s != "" ==> !Blank(s[0]) && !Blank(s[|s| - 1])
  }

  lemma {:induction false} TrimLeftDrops(l: string, s: string)
    requires AllBlank(l) && (s != "" ==> !Blank(s[0]))
    ensures TrimLeft(l + s) == s
  {
    if l == "" {
      assert l + s == s;
    } else {
      assert (l + s)[1..] == l[1..] + s;
      TrimLeftDrops(l[1..], s);
    }
  }

  lemma {:induction false} TrimRightDrops(s: string, r: string)
    requires AllBlank(r) && (s != "" ==> !Blank(s[|s| - 1]))
    ensures TrimRight(s + r) == s
  {
    if r == "" {
      assert s + r == s;
    } else {
      assert (s + r)[..|s + r| - 1] == s + r[..|r| - 1];
      TrimRightDrops(s, r[..|r| - 1]);
    }
  }

  /** Exactly the white space around a text is dropped. */
  lemma TrimDrops(l: string, x: string, r: string)
    requires AllBlank(l) && AllBlank(r) && Bare(x)
    ensures Trim(l + x + r) == x
  {
    if x == "" {
      assert l + x + r == (l + r) + "";
      TrimLeftDrops(l + r, "");
    } else {
      assert l + x + r == l + (x + r);
      TrimLeftDrops(l, x + r);
      TrimRightDrops(x, r);
    }
  }

  lemma {:induction false} TrimLeftTakes(s: string) returns (l: string)
    ensures s == l + TrimLeft(s) && AllBlank(l)
  {
    l := "";
    if s != "" && Blank(s[0]) {
      var k := TrimLeftTakes(s[1..]);
      l := [s[0]] + k;
      assert s == [s[0]] + s[1..];
    }
  }

  lemma {:induction false} TrimRightTakes(s: string) returns (r: string)
    ensures s == TrimRight(s) + r && AllBlank(r)
  {
    r := "";
    if s != "" && Blank(s[|s| - 1]) {
      var k := TrimRightTakes(s[..|s| - 1]);
      r := k + [s[|s| - 1]];
      assert s == s[..|s| - 1] + [s[|s| - 1]];
    }
  }

  /** Every text is what trimming leaves, with white space around it. */
  lemma TrimTakes(s: string) returns (l: string, r: string)
    ensures s == l + Trim(s) + r && AllBlank(l) && AllBlank(r) && Bare(Trim(s))
  {
    l := TrimLeftTakes(s);
    r := TrimRightTakes(TrimLeft(s));
  }

  lemma {:induction false} JoinSplitOn(s: string, sep: char)
    ensures JoinBy(SplitOn(s, sep), sep) == s
    decreases |s|
  {
    var k := IndexFrom(s, sep, 0);
    if k < |s| {
      JoinSplitOn(s[k + 1..], sep);
      hide SplitOn, JoinBy;
      FirstPart(s, sep, k);
      JoinFirst(s[..k], SplitOn(s[k + 1..], sep), sep);
      assert s == s[..k] + [sep] + s[k + 1..];
    }
  }

  lemma FirstPart(s: string, sep: char, k: nat)
    requires k == IndexFrom(s, sep, 0) < |s|
    ensures SplitOn(s, sep) == [s[..k]] + SplitOn(s[k + 1..], sep)
  {
  }

  lemma JoinFirst(a: string, parts: seq<string>, sep: char)
    requires parts != []
    ensures JoinBy([a] + parts, sep) == a + [sep] + JoinBy(parts, sep)
  {
    assert ([a] + parts)[1..] == parts;
  }
}
