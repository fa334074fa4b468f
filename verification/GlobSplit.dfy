/** Splitting a pattern at a separator that is not inside braces or brackets. */
module GlobSplit {
  import opened Paths

  /** Whether the scan is inside braces, inside brackets. */
  datatype Mode = Mode(braces: bool, brackets: bool) {
    predicate Open() {
      !braces && !brackets
    }
  }

  const OUTSIDE := Mode(false, false)

  function NextMode(c: char, sep: char, m: Mode): Mode {
    if c == sep then m
    else if c == '{' then m.(braces := true)
    else if c == '}' then m.(braces := false)
    else if c == '[' then m.(brackets := true)
    else if c == ']' then m.(brackets := false)
    else m
  }

  function ModeAfter(p: string, sep: char, m: Mode): Mode {
    if p == "" then m else ModeAfter(p[1..], sep, NextMode(p[0], sep, m))
  }

  function Total(segs: seq<string>): nat {
    if segs == [] then 0 else |segs[0]| + Total(segs[1..])
  }

  /** The segments still to come, with cur collected so far for the first of them. */
  function SplitFrom(p: string, sep: char, cur: string, m: Mode): (segs: seq<string>)
    ensures Total(segs) <= |cur| + |p|
    ensures cur != "" || p != "" ==> segs != []
    decreases |p|
  {
    if p == "" then (if cur == "" then [] else [cur])
    else if p[0] == sep && m.Open() then [cur] + SplitFrom(p[1..], sep, "", m)
    else SplitFrom(p[1..], sep, cur + [p[0]], NextMode(p[0], sep, m))
  }

  function Split(p: string, sep: char): (segs: seq<string>)
    ensures Total(segs) <= |p|
  {
    SplitFrom(p, sep, "", OUTSIDE)
  }

  lemma {:induction false} TotalBounds(segs: seq<string>, i: nat)
    requires i < |segs|
    ensures |segs[i]| <= Total(segs)
  {
    if i > 0 {
      TotalBounds(segs[1..], i - 1);
    }
  }

  method SplitGlobAware(pattern: string, splitChar: char) returns (segments: seq<string>)
    ensures segments == Split(pattern, splitChar)
  {
    if pattern == "" {
      return [];
    }
    segments := [];
    var inBraces, inBrackets := false, false;
    var curVal := "";
    for i := 0 to |pattern|
      invariant segments + SplitFrom(pattern[i..], splitChar, curVal, Mode(inBraces, inBrackets)) ==
              Split(pattern, splitChar)
    {
      var c := pattern[i];
      assert pattern[i..][1..] == pattern[i + 1..];
      if c == splitChar {
        if !inBraces && !inBrackets {
          segments := segments + [curVal];
          curVal := "";
          continue;
        }
      } else if c == '{' {
        inBraces := true;
      } else if c == '}' {
        inBraces := false;
      } else if c == '[' {
        inBrackets := true;
      } else if c == ']' {
        inBrackets := false;
      }
      curVal := curVal + [c];
    }
    if curVal != "" {
      segments := segments + [curVal];
    }
  }

  /** The pattern ends with a separator that the scan splits at. */
  predicate EndsOpen(p: string, sep: char, m: Mode) {
    p != "" && p[|p| - 1] == sep && ModeAfter(p[..|p| - 1], sep, m).Open()
  }

  lemma EndsOpenTail(p: string, sep: char, m: Mode)
    requires p != ""
    ensures EndsOpen(p, sep, m) ==
            if |p| == 1 then p[0] == sep && m.Open() else EndsOpen(p[1..], sep, NextMode(p[0], sep, m))
  {
    if |p| > 1 {
      assert p[..|p| - 1][1..] == p[1..][..|p| - 2];
    }
  }

  lemma JoinHead(a: string, ns: seq<string>, sep: char, tail: string)
    ensures JoinBy([a], sep) == a
    ensures ns != [] ==> a + [sep] + (JoinBy(ns, sep) + tail) == JoinBy([a] + ns, sep) + tail
  {
    assert ([a] + ns)[1..] == ns;
  }

  function Tail(p: string, sep: char, m: Mode): string {
    if EndsOpen(p, sep, m) then [sep] else []
  }

  lemma RejoinAtSep(p: string, sep: char, cur: string, m: Mode)
    requires p != "" && p[0] == sep && m.Open()
    requires p[1..] == JoinBy(SplitFrom(p[1..], sep, "", m), sep) + Tail(p[1..], sep, m)
    ensures cur + p == JoinBy(SplitFrom(p, sep, cur, m), sep) + Tail(p, sep, m)
  {
    hide JoinBy, EndsOpen, ModeAfter;
    EndsOpenTail(p, sep, m);
    JoinHead(cur, SplitFrom(p[1..], sep, "", m), sep, Tail(p[1..], sep, m));
    assert cur + p == cur + [sep] + p[1..];
    if |p| == 1 {
      assert SplitFrom(p, sep, cur, m) == [cur];
    } else {
      assert Tail(p, sep, m) == Tail(p[1..], sep, m);
    }
  }

  lemma {:induction false} RejoinFrom(p: string, sep: char, cur: string, m: Mode)
    requires m.Open() || cur != ""
    ensures cur + p == JoinBy(SplitFrom(p, sep, cur, m), sep) + Tail(p, sep, m)
    decreases |p|
  {
    if p != "" && p[0] == sep && m.Open() {
      RejoinFrom(p[1..], sep, "", m);
      assert "" + p[1..] == p[1..];
      RejoinAtSep(p, sep, cur, m);
    } else if p != "" {
      hide JoinBy, EndsOpen, ModeAfter;
      EndsOpenTail(p, sep, m);
      RejoinFrom(p[1..], sep, cur + [p[0]], NextMode(p[0], sep, m));
      assert cur + [p[0]] + p[1..] == cur + p;
    }
  }

  /** Joining the segments restores the pattern, up to one trailing separator. */
  lemma SplitThenJoin(p: string, sep: char)
    ensures p == JoinBy(Split(p, sep), sep) + if EndsOpen(p, sep, OUTSIDE) then [sep] else []
  {
    RejoinFrom(p, sep, "", OUTSIDE);
    assert "" + p == p;
  }

  /** No separator in s would be split at, starting outside and leading to m. */
  predicate Whole(s: string, sep: char, m: Mode)
    decreases |s|
  {
    s == "" || ((s[0] == sep ==> !m.Open()) && Whole(s[1..], sep, NextMode(s[0], sep, m)))
  }

  lemma {:induction false} WholeSnoc(s: string, c: char, sep: char, m: Mode)
    requires Whole(s, sep, m) && (c == sep ==> !ModeAfter(s, sep, m).Open())
    ensures Whole(s + [c], sep, m)
    ensures ModeAfter(s + [c], sep, m) == NextMode(c, sep, ModeAfter(s, sep, m))
    decreases |s|
  {
    if s != "" {
      WholeSnoc(s[1..], c, sep, NextMode(s[0], sep, m));
      assert (s + [c])[1..] == s[1..] + [c];
    }
  }

  lemma {:induction false} SegmentsWhole(p: string, sep: char, cur: string, m: Mode, i: nat)
    requires Whole(cur, sep, OUTSIDE) && ModeAfter(cur, sep, OUTSIDE) == m
    requires i < |SplitFrom(p, sep, cur, m)|
    ensures Whole(SplitFrom(p, sep, cur, m)[i], sep, OUTSIDE)
    decreases |p|
  {
    if p != "" {
      if p[0] == sep && m.Open() {
        if i > 0 {
          SegmentsWhole(p[1..], sep, "", m, i - 1);
        }
      } else {
        WholeSnoc(cur, p[0], sep, OUTSIDE);
        SegmentsWhole(p[1..], sep, cur + [p[0]], NextMode(p[0], sep, m), i);
      }
    }
  }

  lemma {:induction false} WholeSplits(s: string, sep: char, cur: string, m: Mode)
    requires Whole(s, sep, m) && cur + s != ""
    ensures SplitFrom(s, sep, cur, m) == [cur + s]
    decreases |s|
  {
    if s == "" {
      assert cur + s == cur;
    } else {
      assert cur + [s[0]] + s[1..] == cur + s;
      WholeSplits(s[1..], sep, cur + [s[0]], NextMode(s[0], sep, m));
    }
  }

  /** A non-empty segment splits to itself. */
  lemma SegmentIsWhole(p: string, sep: char, i: nat)
    requires i < |Split(p, sep)| && Split(p, sep)[i] != ""
    ensures Split(Split(p, sep)[i], sep) == [Split(p, sep)[i]]
  {
    SegmentsWhole(p, sep, "", OUTSIDE, i);
    WholeSplits(Split(p, sep)[i], sep, "", OUTSIDE);
    assert "" + Split(p, sep)[i] == Split(p, sep)[i];
  }
}
