/** Regular expressions as the glob compiler emits them, with the language they accept. */
module Regex {
  import opened Paths

  /** The pieces between the brackets of an emitted character class. */
  datatype Tok = Dash | Caret | Esc(c: char)

  datatype Atom = Lit(c: char) | Sep | NoSep | Dot | Class(toks: seq<Tok>)

  datatype Node = One(a: Atom) | Cat(ns: seq<Node>) | Alt(alts: seq<Node>) | Star(body: Node)

  predicate LineTerminator(c: char) {
    c == '\n' || c == '\r' || c == '\U{2028}' || c == '\U{2029}'
  }

  function TokChar(t: Tok): char {
    match t
    case Dash => '-'
    case Caret => '^'
    case Esc(c) => c
  }

  /** Membership in the class body: `x-y` is a range, anything else stands for itself. */
  predicate InRanges(toks: seq<Tok>, c: char) {
    if toks == [] then false
    else if |toks| >= 3 && toks[1] == Dash then
      TokChar(toks[0]) <= c <= TokChar(toks[2]) || InRanges(toks[3..], c)
    else c == TokChar(toks[0]) || InRanges(toks[1..], c)
  }

  predicate InClass(toks: seq<Tok>, c: char) {
    if toks != [] && toks[0] == Caret then !InRanges(toks[1..], c) else InRanges(toks, c)
  }

  predicate AtomHas(a: Atom, c: char) {
    match a
    case Lit(l) => c == l
    case Sep => IsSep(c)
    case NoSep => !IsSep(c)
    case Dot => !LineTerminator(c)
    case Class(toks) => InClass(toks, c)
  }

  /** A place where a string may be cut; it names the cuts that a match chooses. */
  predicate Cut(s: string, k: int) {
    0 <= k <= |s|
  }

  predicate MatchNode(n: Node, s: string)
    decreases |s|, n, 1
  {
    match n
    case One(a) => |s| == 1 && AtomHas(a, s[0])
    case Cat(ns) => MatchSeq(ns, s)
    case Alt(alts) => exists i | 0 <= i < |alts| :: MatchNode(alts[i], s)
    case Star(body) =>
      s == "" || exists k {:trigger Cut(s, k)} | 0 < k <= |s| ::
        Cut(s, k) && MatchNode(body, s[..k]) && MatchNode(n, s[k..])
  }

  predicate MatchSeq(ns: seq<Node>, s: string)
    decreases |s|, ns, 0
  {
    if ns == [] then s == "" else
      exists k {:trigger Cut(s, k)} | 0 <= k <= |s| ::
        Cut(s, k) && MatchNode(ns[0], s[..k]) && MatchSeq(ns[1..], s[k..])
  }

  lemma ConsIntro(ns: seq<Node>, s: string, k: nat)
    requires ns != [] && k <= |s| && MatchNode(ns[0], s[..k]) && MatchSeq(ns[1..], s[k..])
    ensures MatchSeq(ns, s)
  {
    assert Cut(s, k);
  }

  lemma ConsElim(ns: seq<Node>, s: string) returns (k: nat)
    requires ns != [] && MatchSeq(ns, s)
    ensures k <= |s| && MatchNode(ns[0], s[..k]) && MatchSeq(ns[1..], s[k..])
  {
    k :| 0 <= k <= |s| && Cut(s, k) && MatchNode(ns[0], s[..k]) && MatchSeq(ns[1..], s[k..]);
  }

  lemma TurnIntro(n: Node, s: string, k: nat)
    requires n.Star? && 0 < k <= |s| && MatchNode(n.body, s[..k]) && MatchNode(n, s[k..])
    ensures MatchNode(n, s)
  {
    assert Cut(s, k);
  }

  lemma TurnElim(n: Node, s: string) returns (k: nat)
    requires n.Star? && s != "" && MatchNode(n, s)
    ensures 0 < k <= |s| && MatchNode(n.body, s[..k]) && MatchNode(n, s[k..])
  {
    k :| 0 < k <= |s| && Cut(s, k) && MatchNode(n.body, s[..k]) && MatchNode(n, s[k..]);
  }

  /** The concatenation a + b accepts s, cut at k. */
  predicate CutAt(a: seq<Node>, b: seq<Node>, s: string, k: nat)
    requires k <= |s|
  {
    MatchSeq(a, s[..k]) && MatchSeq(b, s[k..])
  }

  /** A cut behind a cut: the same pieces, whichever way they are cut out. */
  lemma CutTwice(s: string, j: nat, m: nat)
    requires j + m <= |s|
    ensures s[..j + m][..j] == s[..j] && s[..j + m][j..] == s[j..][..m] && s[j..][m..] == s[j + m..]
  {
  }

  lemma {:induction false} ConcatIntro(a: seq<Node>, b: seq<Node>, s: string, k: nat)
    requires k <= |s| && CutAt(a, b, s, k)
    ensures MatchSeq(a + b, s)
    decreases |a|
  {
    if a == [] {
      assert a + b == b && s[k..] == s;
    } else {
      hide MatchSeq, MatchNode;
      var j := ConsElim(a, s[..k]);
      CutTwice(s, j, k - j);
      ConcatIntro(a[1..], b, s[j..], k - j);
      assert (a + b)[1..] == a[1..] + b;
      ConsIntro(a + b, s, j);
    }
  }

  lemma {:induction false} ConcatElim(a: seq<Node>, b: seq<Node>, s: string) returns (k: nat)
    requires MatchSeq(a + b, s)
    ensures k <= |s| && CutAt(a, b, s, k)
    decreases |a|
  {
    hide MatchSeq, MatchNode, CutAt;
    if a == [] {
      CutNothing(a, b, s);
      k := 0;
    } else {
      FirstOfConcat(a, b);
      var j := ConsElim(a + b, s);
      var m := ConcatElim(a[1..], b, s[j..]);
      k := j + m;
      CutLater(a, b, s, j, m);
    }
  }

  lemma FirstOfConcat(a: seq<Node>, b: seq<Node>)
    requires a != []
    ensures (a + b)[0] == a[0] && (a + b)[1..] == a[1..] + b
  {
  }

  lemma CutNothing(a: seq<Node>, b: seq<Node>, s: string)
    requires a == [] && MatchSeq(a + b, s)
    ensures CutAt(a, b, s, 0)
  {
    assert a + b == b && s[0..] == s && s[..0] == "";
    hide MatchNode;
  }

  lemma CutLater(a: seq<Node>, b: seq<Node>, s: string, j: nat, m: nat)
    requires a != [] && j <= |s| && MatchNode(a[0], s[..j]) && m <= |s[j..]| && CutAt(a[1..], b, s[j..], m)
    ensures CutAt(a, b, s, j + m)
  {
    hide MatchSeq, MatchNode;
    CutTwice(s, j, m);
    ConsIntro(a, s[..j + m], j);
  }

  lemma MatchOne(n: Node, s: string)
    ensures MatchSeq([n], s) == MatchNode(n, s)
  {
    if MatchNode(n, s) {
      assert s[..|s|] == s;
      ConsIntro([n], s, |s|);
    }
    if MatchSeq([n], s) {
      var k := ConsElim([n], s);
      assert s[..k] == s;
    }
  }

  /** A leading single-character node eats exactly the first character. */
  lemma MatchHead(a: Atom, ns: seq<Node>, s: string)
    ensures MatchSeq([One(a)] + ns, s) <==> s != "" && AtomHas(a, s[0]) && MatchSeq(ns, s[1..])
  {
    var all := [One(a)] + ns;
    assert all[1..] == ns;
    if MatchSeq(all, s) {
      var k := ConsElim(all, s);
    }
    if s != "" && AtomHas(a, s[0]) && MatchSeq(ns, s[1..]) {
      ConsIntro(all, s, 1);
    }
  }

  /** A trailing single-character node eats exactly the last character. */
  lemma MatchTail(ns: seq<Node>, a: Atom, s: string)
    ensures MatchSeq(ns + [One(a)], s) <==> s != "" && AtomHas(a, s[|s| - 1]) && MatchSeq(ns, s[..|s| - 1])
  {
    if MatchSeq(ns + [One(a)], s) {
      var k := ConcatElim(ns, [One(a)], s);
      MatchOne(One(a), s[k..]);
    }
    if s != "" && AtomHas(a, s[|s| - 1]) && MatchSeq(ns, s[..|s| - 1]) {
      MatchOne(One(a), s[|s| - 1..]);
      ConcatIntro(ns, [One(a)], s, |s| - 1);
    }
  }

  const NAME_RUN: Node := Star(One(NoSep))

  lemma {:induction false} NameRun(s: string)
    ensures MatchNode(NAME_RUN, s) <==> SepFree(s)
    decreases |s|
  {
    if s != "" {
      NameRun(s[1..]);
      if MatchNode(NAME_RUN, s) {
        var k := TurnElim(NAME_RUN, s);
        assert s == [s[0]] + s[1..];
      }
      if SepFree(s) {
        TurnIntro(NAME_RUN, s, 1);
      }
    }
  }
}
