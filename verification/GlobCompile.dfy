/** Compiling a glob to a regular expression. */
module GlobCompile {
  import opened Paths
  import opened Regex
  import opened Globstar
  import opened GlobSplit

  const STARSTAR := "**"
  const ANYTHING: Node := Star(One(Dot))

  function StarsToRegExp(starCount: nat): seq<Node> {
    match starCount
    case 0 => []
    case 1 => [NAME_RUN]
    case _ => [GLOBSTAR]
  }

  predicate AllGlobstar(segs: seq<string>) {
    forall i | 0 <= i < |segs| :: segs[i] == STARSTAR
  }

  /** The separator that a segment leaves behind: none before a globstar that ends the pattern. */
  function TailSep(segs: seq<string>): seq<Node>
    requires segs != []
  {
    if |segs| > 1 && (segs[1] != STARSTAR || |segs| > 2) then [One(Sep)] else []
  }

  function Choice(alts: seq<Node>): Node {
    Alt(if alts == [] then [Cat([])] else alts)
  }

  function Compile(pattern: string): seq<Node>
    decreases |pattern|, 3
  {
    if pattern == "" then [] else
      var segs := Split(pattern, '/');
      if AllGlobstar(segs) then [ANYTHING] else CompileSegs(segs, false)
  }

  /** The segments from here on; prev tells whether the segment before was a globstar. */
  function CompileSegs(segs: seq<string>, prev: bool): seq<Node>
    decreases Total(segs), 2, |segs|
  {
    if segs == [] then []
    else if segs[0] == STARSTAR then
      (if prev then [] else StarsToRegExp(2)) + CompileSegs(segs[1..], true)
    else CompileSeg(segs[0]) + TailSep(segs) + CompileSegs(segs[1..], false)
  }

  function CompileSeg(s: string): seq<Node>
    decreases |s|, 1
  {
    if s == "" then []
    else if s[0] == '{' then InBraces("", s[1..])
    else if s[0] == '[' then InBrackets([], s[1..])
    else CompileChar(s[0]) + CompileSeg(s[1..])
  }

  /** A character outside braces and brackets that opens neither. */
  function CompileChar(c: char): seq<Node> {
    if c == '}' then [Choice([])]
    else if c == ']' then [One(Class([]))]
    else if c == '?' then [One(NoSep)]
    else if c == '*' then StarsToRegExp(1)
    else [One(Lit(c))]
  }

  function InBraces(braceVal: string, rest: string): seq<Node>
    decreases |braceVal| + |rest|, 0, |rest|
  {
    if rest == "" then []
    else if rest[0] == '}' then [Choice(CompileChoices(Split(braceVal, ',')))] + CompileSeg(rest[1..])
    else InBraces(braceVal + [rest[0]], rest[1..])
  }

  function CompileChoices(choices: seq<string>): (alts: seq<Node>)
    ensures |alts| == |choices|
    decreases Total(choices), 4, |choices|
  {
    if choices == [] then [] else [Cat(Compile(choices[0]))] + CompileChoices(choices[1..])
  }

  /** What a character adds to a class that is still open. */
  function ClassToks(toks: seq<Tok>, c: char): seq<Tok> {
    if c == '-' then [Dash]
    else if (c == '^' || c == '!') && toks == [] then [Caret]
    else if c == '/' then []
    else [Esc(c)]
  }

  function InBrackets(toks: seq<Tok>, rest: string): seq<Node>
    decreases |rest|, 0, 0
  {
    if rest == "" then []
    else if rest[0] == ']' && toks != [] then [One(Class(toks))] + CompileSeg(rest[1..])
    else InBrackets(toks + ClassToks(toks, rest[0]), rest[1..])
  }

  lemma Assoc<T>(a: seq<T>, b: seq<T>, c: seq<T>)
    ensures a + (b + c) == (a + b) + c
  {
  }

  /** What one round over the segments appends. */
  function SegmentEmits(segs: seq<string>, prev: bool): seq<Node>
    requires segs != []
  {
    if segs[0] == STARSTAR then (if prev then [] else StarsToRegExp(2)) else CompileSeg(segs[0]) + TailSep(segs)
  }

  lemma SegmentRound(segs: seq<string>, i: nat, prev: bool, out: seq<Node>)
    requires i < |segs|
    ensures out + CompileSegs(segs[i..], prev) ==
            (out + SegmentEmits(segs[i..], prev)) + CompileSegs(segs[i + 1..], segs[i] == STARSTAR)
  {
    assert segs[i..][1..] == segs[i + 1..];
    Assoc(out, SegmentEmits(segs[i..], prev), CompileSegs(segs[i + 1..], segs[i] == STARSTAR));
  }

  lemma SegmentsEnd(segs: seq<string>, prev: bool)
    ensures CompileSegs(segs[|segs|..], prev) == []
  {
  }

  /** The compiler as written: one pass that appends to the expression, calling itself for brace choices. */
  method ParseRegExp(pattern: string) returns (regEx: seq<Node>)
    ensures regEx == Compile(pattern)
    decreases |pattern|, 2
  {
    hide CompileSeg, CompileSegs, SplitFrom, CompileChoices;
    if pattern == "" {
      return [];
    }
    regEx := [];
    var segments := SplitGlobAware(pattern, '/');
    if forall i | 0 <= i < |segments| :: segments[i] == STARSTAR {
      return [ANYTHING];
    }
    var previousSegmentWasGlobStar := false;
    assert segments[0..] == segments;
    for index := 0 to |segments|
      invariant regEx + CompileSegs(segments[index..], previousSegmentWasGlobStar) == CompileSegs(segments, false)
    {
      var segment := segments[index];
      SegmentRound(segments, index, previousSegmentWasGlobStar, regEx);
      if segment == STARSTAR {
        if !previousSegmentWasGlobStar {
          regEx := regEx + StarsToRegExp(2);
          previousSegmentWasGlobStar := true;
        }
        continue;
      }
      TotalBounds(segments, index);
      var segEx := ParseSegment(segment, |pattern|);
      Assoc(regEx, segEx, TailSep(segments[index..]));
      regEx := regEx + segEx;
      if index < |segments| - 1 && (segments[index + 1] != STARSTAR || index + 2 < |segments|) {
        regEx := regEx + [One(Sep)];
      }
      previousSegmentWasGlobStar := false;
    }
    SegmentsEnd(segments, previousSegmentWasGlobStar);
  }

  /** The state of the character loop within one segment. */
  datatype Scan = Outside | Braces(braceVal: string) | Brackets(bracketVal: seq<Tok>)

  function Pending(st: Scan, rest: string): seq<Node> {
    match st
    case Outside => CompileSeg(rest)
    case Braces(val) => InBraces(val, rest)
    case Brackets(toks) => InBrackets(toks, rest)
  }

  function ScanOf(inBraces: bool, braceVal: string, inBrackets: bool, bracketVal: seq<Tok>): Scan {
    if inBraces then Braces(braceVal) else if inBrackets then Brackets(bracketVal) else Outside
  }

  function NextScan(st: Scan, c: char): Scan {
    match st
    case Outside => if c == '{' then Braces("") else if c == '[' then Brackets([]) else Outside
    case Braces(val) => if c == '}' then Outside else Braces(val + [c])
    case Brackets(toks) => if c == ']' && toks != [] then Outside else Brackets(toks + ClassToks(toks, c))
  }

  function Emits(st: Scan, c: char): seq<Node> {
    match st
    case Outside => if c == '{' || c == '[' then [] else CompileChar(c)
    case Braces(val) => if c == '}' then [Choice(CompileChoices(Split(val, ',')))] else []
    case Brackets(toks) => if c == ']' && toks != [] then [One(Class(toks))] else []
  }

  lemma FirstPending(st: Scan, rest: string)
    requires rest != ""
    ensures Pending(st, rest) == Emits(st, rest[0]) + Pending(NextScan(st, rest[0]), rest[1..])
  {
  }

  lemma CharRound(st: Scan, s: string, i: nat, out: seq<Node>)
    requires i < |s|
    ensures var next := Pending(NextScan(st, s[i]), s[i + 1..]);
            && out + Pending(st, s[i..]) == (out + Emits(st, s[i])) + next
            && (Emits(st, s[i]) == [] ==> out + Pending(st, s[i..]) == out + next)
  {
    FirstPending(st, s[i..]);
    assert s[i..][1..] == s[i + 1..];
    hide Pending, Emits, NextScan;
    Assoc(out, Emits(st, s[i]), Pending(NextScan(st, s[i]), s[i + 1..]));
  }

  lemma ScanEnd(st: Scan, s: string)
    ensures Pending(st, s[|s|..]) == []
  {
  }

  /** The character loop over one segment of a pattern of the given length. */
  method ParseSegment(segment: string, ghost bound: nat) returns (regEx: seq<Node>)
    requires |segment| <= bound
    ensures regEx == CompileSeg(segment)
    decreases bound, 1
  {
    assert Split("", ',') == [] && CompileChoices([]) == [];
    hide CompileSeg, CompileChoices, InBraces, InBrackets, SplitFrom, Compile;
    regEx := [];
    assert segment[0..] == segment;
    var inBraces, braceVal := false, "";
    var inBrackets, bracketVal: seq<Tok> := false, [];
    for i := 0 to |segment|
      invariant !(inBraces && inBrackets) && (inBraces ==> |braceVal| < i)
      invariant !inBraces ==> braceVal == ""
      invariant !inBrackets ==> bracketVal == []
      invariant regEx + Pending(ScanOf(inBraces, braceVal, inBrackets, bracketVal), segment[i..]) == CompileSeg(segment)
    {
      var c := segment[i];
      hide Pending;
      CharRound(ScanOf(inBraces, braceVal, inBrackets, bracketVal), segment, i, regEx);
      if c != '}' && inBraces {
        braceVal := braceVal + [c];
        continue;
      }
      if inBrackets && (c != ']' || bracketVal == []) {
        bracketVal := bracketVal + ClassToks(bracketVal, c);
        continue;
      }
      if c == '{' {
        inBraces := true;
      } else if c == '[' {
        inBrackets := true;
      } else if c == '}' {
        var choices := SplitGlobAware(braceVal, ',');
        var alts := ParseChoices(choices, bound);
        regEx := regEx + [Choice(alts)];
        inBraces, braceVal := false, "";
      } else if c == ']' {
        regEx := regEx + [One(Class(bracketVal))];
        inBrackets, bracketVal := false, [];
      } else if c == '?' {
        regEx := regEx + [One(NoSep)];
      } else if c == '*' {
        regEx := regEx + StarsToRegExp(1);
      } else {
        regEx := regEx + [One(Lit(c))];
      }
    }
    ScanEnd(ScanOf(inBraces, braceVal, inBrackets, bracketVal), segment);
  }

  /** The choices of one brace, each shorter than the pattern that holds it. */
  method ParseChoices(choices: seq<string>, ghost bound: nat) returns (alts: seq<Node>)
    requires Total(choices) < bound
    ensures alts == CompileChoices(choices)
    decreases bound, 0
  {
    alts := [];
    for j := 0 to |choices|
      invariant alts + CompileChoices(choices[j..]) == CompileChoices(choices)
    {
      TotalBounds(choices, j);
      var alt := ParseRegExp(choices[j]);
      assert choices[j..][1..] == choices[j + 1..];
      Assoc(alts, [Cat(alt)], CompileChoices(choices[j + 1..]));
      alts := alts + [Cat(alt)];
    }
  }
}
