# Models of the glob compiler, the extension tooling and the build scripts

This project states what the algorithmic parts of the repository do and proves it, for all inputs,
all dependency graphs, all runs and all interleavings. One module stands for one concern:

- **Glob patterns** (`glob.ts`). `Regex` is the regular expression that the compiler emits, as a
  syntax tree with the language it accepts. `GlobSplit` and `GlobCompile` hold the splitting and the
  compiling loops with the functions that specify them. `GlobCuts` says of the characters alone where a
  pattern is split, `GlobRanges` which patterns have no regular expression. `Globstar` is about the emitted group
  `(?:S|N+S|SN+)*`, `GlobWildcard` about one segment. Three modules say what whole patterns mean:
  `GlobReference` holds the reference that matches name by name, `GlobGroups` the exact one, in which a
  segment may take several names, and `GlobLanguage` the language of any pattern on any string, whatever
  is malformed in it. `GlobMeaning` has the theorems for the pattern syntax. `GlobBraces` and
  `GlobBraceLaws` are about braces whose choices span several segments. `GlobShapes` holds the
  hand-written shapes T1 to T5, `GlobParsed` the matchers that parsing builds and their aggregation,
  `GlobParse` the parser and its cache. `GlobFast` and `GlobLists` relate every shape to the regular
  expression, `GlobPruning`, `GlobPrunedLists` and `GlobPruningLaw` the patterns that are trimmed for
  exclusions. `GlobBasenames` is about the role of the basename, `GlobExpression` and `GlobReturned`
  about whole expressions, `GlobSiblings` about the sibling that a clause asks for, `GlobOrder` about which
  of several matching entries answers.
- **Extension packages**. `Packages` specifies the depth-first collection and proves its order;
  `Collector` holds the collecting objects, `Modules` the numbered modules and the import chain.
- **Native modules** (`rebuild.ts`). `Rebuild` is a machine of backups, rebuilds and reverts,
  `RebuildLoss` says when it loses a build, `RebuildEffect` what a run without failures achieves.
- `Localizations` (the nested translations), `Monaco` (the numbering of duplicates) and `MonacoLoader`
  (reading the numbered keys back),
  `PackageFinder` (the cached search for a `package.json`), `NpmRegistry` (the index of requests).

`Paths`, `Numerals` and `Wrappers` are shared vocabulary.

## Conventions

- Strings are sequences of characters. The native separator of a platform is a parameter.
- The matchers that parsing builds are closures in the source. Here they are the constructors of
  `Parsed`, and `Run` says what each of them answers. A missing basename is the empty string: the
  source treats the two alike.
- A regular expression with a class range that goes downwards does not exist (`ValidSeq`); as in the
  source, such a pattern matches nothing. `GlobRanges.NoExpressionExactly` says of the text when that is so.
- Where the source repeats or updates in place there is a method with a loop or a class with fields,
  proved equal to a function; the theorems are about that function. Where steps interleave
  (`rebuild.ts`, `npm-registry.ts`) there is a machine whose events come in any order. The registry
  is given as a class as well.
- A path is *normalised* when it is relative, not empty, and has no leading, trailing or doubled
  separator (`Paths.Normal`). A *named path* is normalised and comes with its own basename or with none
  (`GlobFast.NamedPath`); a *native path* in addition uses the native separator only
  (`GlobFast.NativePath`).

## Where the code is not what one would expect

- `a/**/**` matches no normalised path, although `**` is documented to match an empty segment: the
  separator after `a` is left out only before a single final globstar (`glob.ts`, line 249).
  `GlobMeaning.DoubledGlobstarExact` says exactly for which plain patterns this happens, and
  `GlobMeaning.DoubledGlobstarFails` gives the concrete path.
- Evaluating an expression with a sibling test and without a basename fills in a basename at the first
  sibling clause, and that one follows the last slash only, or skips a trailing separator. Later patterns
  are compared with it: `**/c` matches `a/b\c` by itself, but not after a clause. So an expression is not
  always the union of its entries (`GlobExpression.UnionFails`), and a returned pattern need not match the
  path again. `GlobExpression.UnionExactly` and `GlobReturned.ConfirmedExactly` say for which paths.
- A pattern of globstars alone is compiled to `.*`, which stops at line ends; this is the
  second condition of `GlobMeaning.GlobMeaning`, and `GlobMeaning.LineEndStops` has a concrete path.
- A negated class such as `[!a]` accepts a separator, so a segment with one can match across names
  (`GlobMeaning.NegatedClassCrosses`). `GlobMeaning.GroupMeaning` is the exact meaning of every pattern: each
  segment takes one name or several consecutive ones. Matching name by name is exact for *flat* segments
  (`GlobWildcard.FlatText`), and sound without that (`GlobMeaning.MeaningIsCompiled`).
- A brace choice that ends with a slash loses it: `{a/}b` matches `ab` and not `a/b`
  (`GlobBraceLaws.SlashIsLost`). `GlobBraceLaws.SlashExactly` says when a single choice that ends so
  means its expansion all the same, `GlobBraceLaws.OneChoiceExactly` when one does that keeps its slashes.
- A globstar that is a whole brace choice takes at least one name, on one line: `{**,x}/b` does not match
  `b`, which its expansion `**/b` does (`GlobBraceLaws.GlobstarTakesName`). `GlobBraces.BraceLaw` is the law
  for choices of every kind, `GlobBraceLaws.GlobstarChoiceExactly` says when one choice of globstars means
  its expansion.
- T4 and T5 compare text with native separators, so on a path with other separators they fail where the
  compiled expression matches. `GlobFast.FastT4` and `GlobFast.FastT5` give the exact difference,
  `GlobFast.ForeignSeparator` has a concrete path.
- A `}` without a `{` adds nothing to the expression (`GlobLanguage.StrayBraceAddsNothing`), and a pattern
  in which a `]` without a `[` is reached matches nothing at all (`GlobLanguage.StrayBracketMatchesNothing`).
- If the last step of a revert fails, so that the cache is not removed or the manifest not rewritten,
  the next browser run deletes restored modules whose copies are gone. `RebuildLoss.LosingRun` is such a run.
  Every other failure is harmless: `RebuildLoss.LossExactly` says so for all runs, in both directions.
- A backup of which no copy succeeds leaves the cache folder without a manifest. From then on neither target
  does anything any more: `RebuildEffect.StuckExactly` says that this is the only such state,
  `RebuildEffect.StuckRun` has a run that ends in it.
- The loop of `findPackageJson` tests its unchanging argument, so without an enclosing
  `package.json` it runs for ever; `PackageFinder.EndsExactly` is the exact condition and
  `PackageFinder.WalksForEver` a concrete file.
- A rejection handler of the registry deletes by name, so the late rejection of an earlier request takes
  a newer, pending one out of the index (`NpmRegistry.LateRejection`). The next view sends it once more.
- The duplicate check of `translate-monaco.js` also passes when exactly one text has no translation
  key left and `undefined` is not a key; `Monaco.CollisionExact` has the exact condition,
  `Monaco.MissingKeys` the smallest cases.

## Model

| member | source | states |
|---|---|---|
| GlobSplit.SplitGlobAware | packages/callhierarchy/src/common/glob.ts:67-114 | the loop yields the specified segments for any pattern and any separator; where these end, the laws of `GlobCuts` say |
| GlobSplit.SplitThenJoin | packages/callhierarchy/src/common/glob.ts:67-114 | joining the segments again restores the pattern, up to one trailing separator outside braces and brackets |
| GlobSplit.SegmentIsWhole | packages/callhierarchy/src/common/glob.ts:67-114 | a non-empty segment is not split any further |
| GlobSplit.TotalBounds | packages/callhierarchy/src/common/glob.ts:67-114 | no segment is longer than all of them together, and these are no longer than the pattern |
| GlobCuts.CutsExactly | packages/callhierarchy/src/common/glob.ts:67-114 | a segment ends at a separator iff the last brace before it is not an opening one and neither is the last bracket |
| GlobCuts.FirstCut | packages/callhierarchy/src/common/glob.ts:67-114 | what stands before the first such separator is the first segment, and the rest is split by itself |
| GlobCuts.UncutStays | packages/callhierarchy/src/common/glob.ts:67-114 | without one the pattern is a single segment, and the empty pattern has none |
| GlobCuts.ClosedThenSep | packages/callhierarchy/src/common/glob.ts:67-114 | a text in which nothing is left open, and a separator behind it, are the first segment and a cut |
| GlobCuts.ClosedText | packages/callhierarchy/src/common/glob.ts:83-105 | `]` ends a class and `}` a brace, whatever separators are in them |
| GlobCompile.ParseRegExp | packages/callhierarchy/src/common/glob.ts:116-259 | the compiling loop ends for every pattern and appends exactly the specified expression |
| GlobCompile.ParseSegment | packages/callhierarchy/src/common/glob.ts:150-242 | the character loop with its brace and bracket states yields the expression of the segment |
| GlobCompile.ParseChoices | packages/callhierarchy/src/common/glob.ts:208-221 | brace choices are compiled in order; each is strictly shorter than the pattern, so the recursion ends |
| Regex.ConcatElim | packages/callhierarchy/src/common/glob.ts:443-453 | a string accepted by two expressions in a row can be cut so that each accepts its part |
| Regex.ConcatIntro | packages/callhierarchy/src/common/glob.ts:443-453 | the converse: parts accepted one by one are accepted in a row |
| Regex.NameRun | packages/callhierarchy/src/common/glob.ts:53-58 | the expression of a single star accepts exactly the strings without separators |
| Globstar.GroupTurn | packages/callhierarchy/src/common/glob.ts:59-63 | one turn of the globstar group eats a separator, a name and a separator, or a separator and a name |
| Globstar.GlobstarLanguage | packages/callhierarchy/src/common/glob.ts:59-63 | the repeated group accepts exactly the strings that are not normalised relative paths |
| Globstar.GlobstarPrefix | packages/callhierarchy/src/common/glob.ts:59-63 | of a normalised path it eats exactly the prefixes that are empty or end at a separator |
| Globstar.GlobstarSkips | packages/callhierarchy/src/common/glob.ts:59-63 | before any expression, the group skips zero or more whole names of a normalised path |
| GlobGroups.SegThenSep | packages/callhierarchy/src/common/glob.ts:244-251 | a segment followed by a separator takes one name of a normalised path or several consecutive ones, and the rest starts with the next name |
| GlobGroups.SegThenGlobstar | packages/callhierarchy/src/common/glob.ts:244-251 | a segment before the final globstar takes the first name or several, with nothing or any names behind them |
| GlobGroups.GroupedSegments | packages/callhierarchy/src/common/glob.ts:134-256 | compiled segments accept a normalised path iff each of them can be given consecutive names that it accepts, globstars any number, and they do not end in a loose globstar |
| GlobGroups.GroupedPattern | packages/callhierarchy/src/common/glob.ts:116-259 | the same for every pattern, including the separate form for globstars only |
| GlobGroups.NamesAreGroups | packages/callhierarchy/src/common/glob.ts:134-256 | what the reference accepts name by name, it accepts with groups of names |
| GlobGroups.GroupsAreNames | packages/callhierarchy/src/common/glob.ts:134-256 | for segments that accept no separator the converse holds too |
| GlobGroups.CompiledSegments | packages/callhierarchy/src/common/glob.ts:134-256 | flat segments accept a normalised path iff the segment-by-segment matcher does and they do not end in a loose globstar |
| GlobGroups.ReferenceIsCompiled | packages/callhierarchy/src/common/glob.ts:134-256 | without asking for flat segments: what the segment-by-segment matcher accepts, the compiled segments accept, unless they end in a loose globstar |
| GlobGroups.CompiledPattern | packages/callhierarchy/src/common/glob.ts:116-259 | flat segments again, for whole patterns |
| GlobGroups.PatternIsCompiled | packages/callhierarchy/src/common/glob.ts:116-259 | the half that needs no flat segments, for whole patterns |
| GlobReference.GlobstarTwice | packages/callhierarchy/src/common/glob.ts:138-148 | skipping a repeated globstar does not change what a pattern means |
| GlobLanguage.PatternLanguage | packages/callhierarchy/src/common/glob.ts:116-259 | the expression of any pattern whatever, malformed or not, accepts exactly the stated strings, with or without normalised form |
| GlobLanguage.SegmentLanguage | packages/callhierarchy/src/common/glob.ts:150-242 | the same for one segment, with unclosed braces and classes, slashes in classes and stray closing characters |
| GlobLanguage.StrayBracketMatchesNothing | packages/callhierarchy/src/common/glob.ts:223-229 | a pattern in which some segment reaches a `]` outside of braces and classes matches no string |
| GlobLanguage.StrayBraceAddsNothing | packages/callhierarchy/src/common/glob.ts:208-221 | leaving out a `}` that closes nothing changes no match |
| GlobWildcard.SegmentMeaning | packages/callhierarchy/src/common/glob.ts:150-242 | the expression of one segment accepts a name iff wildcards, classes and brace expansion do |
| GlobWildcard.BraceMeaning | packages/callhierarchy/src/common/glob.ts:208-221 | a brace followed by more text accepts what some choice followed by that text accepts |
| GlobWildcard.ClassIsBody | packages/callhierarchy/src/common/glob.ts:167-229 | the emitted class contains exactly the listed characters and ranges, or all others when negated |
| GlobWildcard.CompileClassText | packages/callhierarchy/src/common/glob.ts:167-229 | a class is compiled without its slashes and ends at the first `]` behind an emitted character; one that is never closed swallows the rest of the segment |
| GlobWildcard.FlatTextExact | packages/callhierarchy/src/common/glob.ts:150-242 | a well-formed text is compiled to nodes that match no separator iff it has no backslash and no class with a separator, in every choice |
| GlobWildcard.CompileWellFormed | packages/callhierarchy/src/common/glob.ts:116-259 | a well-formed text, as used for brace choices, compiles as one segment |
| GlobRanges.UpwardsExactly | packages/callhierarchy/src/common/glob.ts:116-259 | the compiled expression exists iff all classes that are compiled, at any depth, have ranges that go upwards |
| GlobRanges.NoExpressionExactly | packages/callhierarchy/src/common/glob.ts:443-453 | a pattern that is no trivial shape is parsed to nothing iff some class has a downward range |
| GlobRanges.DownwardRange | packages/callhierarchy/src/common/glob.ts:443-453 | `[b-a]` is such a pattern, `[a-b]` and `[a-a]` are not |
| GlobMeaning.GroupMeaning | packages/callhierarchy/src/common/glob.ts:116-259 | every pattern accepts a normalised path iff its segments, in order, take all its names, each one name or several, globstars any number; with exactly two exceptions |
| GlobMeaning.WellFormedGroups | packages/callhierarchy/src/common/glob.ts:116-259 | for well-formed segments, what each takes is what its wildcards, classes and expanded braces say |
| GlobMeaning.GlobMeaning | packages/callhierarchy/src/common/glob.ts:116-259 | a pattern with classes and nested text in braces, none of which can match a separator, accepts a normalised path iff the reference does, with exactly two exceptions |
| GlobMeaning.MeaningIsCompiled | packages/callhierarchy/src/common/glob.ts:116-259 | any well-formed pattern accepts the normalised paths that the reference accepts, with the two exceptions |
| GlobMeaning.PlainGlobMeaning | packages/callhierarchy/src/common/glob.ts:116-259 | the same, without further conditions, for every arrangement of literals, `?`, `*` and `**` |
| GlobMeaning.DoubledGlobstarExact | packages/callhierarchy/src/common/glob.ts:244-251 | a plain pattern of non-empty segments agrees with the reference on every normalised path iff it does not end in a doubled globstar |
| GlobMeaning.DoubledGlobstarFails | packages/callhierarchy/src/common/glob.ts:244-251 | `a/**/**` does not match `a`, which the reference matches |
| GlobMeaning.NegatedClassCrosses | packages/callhierarchy/src/common/glob.ts:176-180 | `x[!a]y` matches `x/y`, which the reference does not, so flat segments are a real condition |
| GlobMeaning.LoneGlobstar | packages/callhierarchy/src/common/glob.ts:127-130 | a globstar alone matches exactly the strings without a line terminator of ECMAScript |
| GlobMeaning.LineEndStops | packages/callhierarchy/src/common/glob.ts:127-130 | `**` does not match a path with a line end, which the reference matches |
| GlobBraces.ChoiceInside | packages/callhierarchy/src/common/glob.ts:208-221 | what stands around a brace stands around each of its choices |
| GlobBraces.ChoiceCompiled | packages/callhierarchy/src/common/glob.ts:134-256 | a choice that spans several segments is compiled like its segments with the neighbouring text glued on |
| GlobBraces.BraceTakes | packages/callhierarchy/src/common/glob.ts:208-221 | a segment with a brace takes the names that the segments of some choice take, a globstar at least one |
| GlobBraces.BraceLaw | packages/callhierarchy/src/common/glob.ts:116-259 | a pattern with one brace, among any other segments, accepts a normalised path iff the segments behind it do not end in a doubled globstar and some choice in its place does; choices may hold slashes and globstars |
| GlobBraceLaws.WholeBrace | packages/callhierarchy/src/common/glob.ts:208-221 | a pattern that is one brace means what its choices mean, with no condition on them |
| GlobBraceLaws.BraceExpands | packages/callhierarchy/src/common/glob.ts:116-259 | a brace among plain text accepts a normalised path iff some expansion of the pattern, read name by name, matches it; a final slash of a choice is not part of it |
| GlobBraceLaws.OneChoiceExactly | packages/callhierarchy/src/common/glob.ts:208-251 | one choice that keeps its slashes means its expansion on every normalised path iff brace and expansion have the same doubled globstars at the end |
| GlobBraceLaws.SlashExactly | packages/callhierarchy/src/common/glob.ts:208-251 | one choice that loses a slash means its expansion on every normalised path iff a doubled globstar keeps both from matching |
| GlobBraceLaws.GlobstarChoiceExactly | packages/callhierarchy/src/common/glob.ts:127-148 | one choice of globstars means its expansion on every normalised path iff it stands alone or a doubled globstar behind it keeps both from matching |
| GlobBraceLaws.SlashIsLost | packages/callhierarchy/src/common/glob.ts:208-221 | `{a/}b` matches `ab`, which its expansion does not |
| GlobBraceLaws.GlobstarTakesName | packages/callhierarchy/src/common/glob.ts:208-221 | `{**,x}/b` does not match `b`, which its expansion does |
| GlobShapes.JoinSplitOn | packages/callhierarchy/src/common/glob.ts:398-400 | splitting a list at its commas loses nothing |
| GlobShapes.MemberForms | packages/callhierarchy/src/common/glob.ts:264-265 | the forms of a list member; a slash and a globstar behind it only when trimming |
| GlobParsed.ScanBasename | packages/callhierarchy/src/common/glob.ts:722-731 | the backwards scan for the last slash or backslash finds the last name of the path |
| GlobParsed.Call | packages/callhierarchy/src/common/glob.ts:377-441 | the code of each kind of matcher, with its loops, answers as specified |
| GlobParsed.EndsAtName | packages/callhierarchy/src/common/glob.ts:377-394 | equal to a name or ending in separator and name, is having it as last name |
| GlobParsed.BasenameHit | packages/callhierarchy/src/common/glob.ts:377-394 | a basename matcher matches iff the basename, given or found in the path, is one of its own |
| GlobParsed.Aggregate | packages/callhierarchy/src/common/glob.ts:701-742 | filtering, concatenating and repeating in loops yields the specified list |
| GlobParsed.FilterBasenames | packages/callhierarchy/src/common/glob.ts:702-702 | the loop keeps exactly the basename matchers, or the others, in their order |
| GlobParsed.Concatenate | packages/callhierarchy/src/common/glob.ts:707-717 | the loop collects basenames and patterns of all merged matchers in the same order |
| GlobParsed.AggregateSound | packages/callhierarchy/src/common/glob.ts:701-742 | basenames and patterns stay aligned, so an aggregate may be merged once more |
| GlobParsed.MergedHit | packages/callhierarchy/src/common/glob.ts:718-737 | the merged matcher matches iff one of the basename matchers does |
| GlobParsed.AggregationPreserves | packages/callhierarchy/src/common/glob.ts:701-742 | merging does not change which paths a list matches, with any basename or none |
| GlobParse.KeyInjective | packages/callhierarchy/src/common/glob.ts:323 | different patterns or trim flags never share a cache key |
| GlobShapes.TrimDrops | packages/callhierarchy/src/common/glob.ts:320 | trimming drops white space before and behind a text and nothing else |
| GlobShapes.TrimTakes | packages/callhierarchy/src/common/glob.ts:320 | every text is its trimmed form with white space on both sides |
| GlobShapes.BlankExactly | packages/callhierarchy/src/common/glob.ts:320 | white space is the 25 characters of ECMAScript |
| GlobParse.PaddingIgnored | packages/callhierarchy/src/common/glob.ts:306-327 | a pattern with white space around it means what it means without |
| GlobParse.PatternParser.ParsePattern | packages/callhierarchy/src/common/glob.ts:306-370 | after any history of calls the answer is that of an uncached parse; entries are never changed, and wrapping is never stored |
| GlobParse.PatternParser.ParseList | packages/callhierarchy/src/common/glob.ts:397-426 | the recursive calls for list members keep the cache transparent |
| GlobParse.PatternParser.constructor | packages/callhierarchy/src/common/glob.ts:296 | the cache starts empty and valid |
| GlobFast.CompiledWords | packages/callhierarchy/src/common/glob.ts:116-259 | the expression of `a/b` accepts exactly the paths with these names |
| GlobFast.CompiledStarWords | packages/callhierarchy/src/common/glob.ts:116-259 | the expression of `**` and `a/b` accepts exactly the paths whose names end with these |
| GlobFast.FastT1 | packages/callhierarchy/src/common/glob.ts:329-333 | the suffix check agrees with the compiled expression on every path |
| GlobFast.FastT2 | packages/callhierarchy/src/common/glob.ts:334-335 | the basename check agrees with it on every normalised path, with the real basename or none |
| GlobFast.FastT4 | packages/callhierarchy/src/common/glob.ts:338-339 | on normalised paths the path-end check holds iff it does and the compared end of the path uses the native separator only |
| GlobFast.FastT5 | packages/callhierarchy/src/common/glob.ts:340-341 | on normalised paths the equality check holds iff it does and the path uses the native separator only |
| GlobFast.ForeignSeparator | packages/callhierarchy/src/common/glob.ts:429-441 | on a path with a foreign separator the checks of T4 and T5 fail where the compiled expressions match |
| GlobLists.ListMeaning | packages/callhierarchy/src/common/glob.ts:397-426 | the merged and reduced matcher of a list matches iff some member does |
| GlobLists.ParseSound | packages/callhierarchy/src/common/glob.ts:306-356 | everything that parsing yields keeps basenames and patterns aligned, and its basenames are single names |
| GlobLists.CompiledList | packages/callhierarchy/src/common/glob.ts:208-221 | the expression of a brace list accepts what the expression of some member accepts |
| GlobLists.FastT3 | packages/callhierarchy/src/common/glob.ts:336-337 | a list agrees with its expression on every path on which its members do |
| GlobLists.FastForms | packages/callhierarchy/src/common/glob.ts:306-356 | whatever shape a pattern has, on every normalised path its matcher agrees with its compiled expression, up to non-native separators in the text that T4 and T5 compare |
| GlobLists.MatcherMeaning | packages/callhierarchy/src/common/glob.ts:306-370 | from end to end: a parsed plain pattern, relative to a base or not, matches iff the segment-by-segment matcher does, with the three exceptions above |
| GlobPruning.PruningExact | packages/callhierarchy/src/common/glob.ts:372-394 | for `**/name/**` on every normalised path, and for several names on native ones: some ancestor-or-self is matched by the trimmed form iff the full expression accepts the path |
| GlobPruning.PruningWholeExact | packages/callhierarchy/src/common/glob.ts:340-374 | the same for `name/**`, anchored at the start, on native paths |
| GlobPruningLaw.PruningListExact | packages/callhierarchy/src/common/glob.ts:336-344 | for a list whose members all end with a globstar, the full expression then accepts the path itself, on every normalised path |
| GlobPrunedLists.ListPruned | packages/callhierarchy/src/common/glob.ts:397-426 | a list in its trimmed form excludes a folder iff some member by itself does |
| GlobPrunedLists.FullStarred | packages/callhierarchy/src/common/glob.ts:116-259 | the full expression of `**/*x/**` accepts exactly the paths in which some name ends like this |
| GlobPruningLaw.PruningLaw | packages/callhierarchy/src/common/glob.ts:306-374 | for every pattern on every normalised path: testing the folders on the way with the trimmed form excludes some iff the expression of the tested pattern accepts one of them whose compared text uses the native separator, the path included |
| GlobPruningLaw.NativePruningLaw | packages/callhierarchy/src/common/glob.ts:306-374 | on native paths: it excludes some iff the full expression accepts some of them, the path included |
| GlobPruningLaw.PruningListLaw | packages/callhierarchy/src/common/glob.ts:336-337 | the same for every trimmed brace list on every normalised path |
| GlobPruningLaw.ParsedUntrimmed | packages/callhierarchy/src/common/glob.ts:329-344 | trimming leaves every pattern alone that neither ends with a globstar nor is a list |
| GlobPruning.FullInfix | packages/callhierarchy/src/common/glob.ts:116-259 | the full expression of `**/a/b/**` accepts exactly the paths in which these names occur in a row |
| GlobExpression.BuildExpression | packages/callhierarchy/src/common/glob.ts:579-584 | parsing all keys through the shared cache yields the specified list |
| GlobExpression.Evaluate | packages/callhierarchy/src/common/glob.ts:589-646 | both evaluation loops, with the names filled in at the first sibling clause, answer as specified |
| GlobBasenames.BasenameIrrelevant | packages/callhierarchy/src/common/glob.ts:377-394 | a matcher does not depend on whether the basename is given |
| GlobBasenames.ParseWordNames | packages/callhierarchy/src/common/glob.ts:329-337 | the basenames that parsed patterns compare are words |
| GlobBasenames.ForeignBasename | packages/callhierarchy/src/common/glob.ts:377-394 | a match with a basename that is no word is a match with any basename |
| GlobExpression.AggregationKeepsItems | packages/callhierarchy/src/common/glob.ts:701-742 | merging and reordering keeps whether some item matches, sibling clauses included |
| GlobExpression.ExpressionIsUnion | packages/callhierarchy/src/common/glob.ts:579-699 | an expression yields a pattern iff some entry by itself is enabled, matches and has its sibling, named as the laws below say, for any basename and path, unless a basename is filled in that makes a difference |
| GlobSiblings.SubstituteFills | packages/callhierarchy/src/common/glob.ts:686 | for a clause with a placeholder the sibling is the clause with the name in place of the first one; the text on both sides of it stays |
| GlobSiblings.SubstituteKeeps | packages/callhierarchy/src/common/glob.ts:686 | a clause without a placeholder names itself |
| GlobSiblings.BasenameFilled | packages/callhierarchy/src/common/glob.ts:686 | in particular `$(basename)` is what is replaced |
| GlobSiblings.SubstituteDollar | packages/callhierarchy/src/common/glob.ts:686 | what each special use of a dollar sign in a name is replaced by |
| GlobSiblings.LibBasenameBehind | packages/callhierarchy/src/common/paths.ts:51-60 | the basename is what follows the last slash, or the last backslash where there is no slash |
| GlobSiblings.LibBasenameAlone | packages/callhierarchy/src/common/paths.ts:51-60 | a path without separators is its own basename |
| GlobSiblings.LibBasenameTrailing | packages/callhierarchy/src/common/paths.ts:51-60 | a separator at the end does not count |
| GlobSiblings.ExtensionIs | packages/callhierarchy/src/common/paths.ts:65-69 | the extension is the basename from its last dot on |
| GlobSiblings.StemDrops | packages/callhierarchy/src/common/glob.ts:636 | as many characters are dropped from the basename as the extension of the path has |
| GlobSiblings.StemTooShort | packages/callhierarchy/src/common/glob.ts:636 | a basename that is shorter leaves nothing |
| GlobSiblings.NameFilledIn | packages/callhierarchy/src/common/glob.ts:631-638 | on native paths the name filled in is the last name up to its last dot |
| GlobSiblings.AsksForExactly | packages/callhierarchy/src/common/glob.ts:686 | for names without dollar signs, the sibling asked for is the clause, or the clause with its first placeholder replaced |
| GlobSiblings.ExpressionHolds | packages/callhierarchy/src/common/glob.ts:579-700 | on native paths an expression matches iff some enabled entry does whose sibling, the clause with the stem of the last name filled in, is there |
| GlobOrder.MergedIsFirst | packages/callhierarchy/src/common/glob.ts:701-742 | merged basename matchers answer as the first of them that matches |
| GlobOrder.FirstMatchWins | packages/callhierarchy/src/common/glob.ts:579-700 | of several matching entries the first answers, basename patterns that are merged behind all others: with its key if it asks for a sibling, otherwise with what the key by itself answers |
| GlobOrder.FirstMatchExists | packages/callhierarchy/src/common/glob.ts:579-700 | where an entry matches there is such a first one |
| GlobExpression.UnionExactly | packages/callhierarchy/src/common/glob.ts:624-646 | where one is filled in: all expressions are the union of their entries on a path iff its library basename is its last name or neither is a word |
| GlobExpression.UnionFails | packages/callhierarchy/src/common/glob.ts:631-633 | on `a/b\c` the entry `**/c` matches by itself, but not after a sibling clause |
| GlobExpression.NativeBasename | packages/callhierarchy/src/common/paths.ts:51-61 | on native paths the library's basename is the last name |
| GlobReturned.AnswerRematches | packages/callhierarchy/src/common/glob.ts:306-356 | the text that a parsed pattern answers with matches the path when parsed again |
| GlobReturned.OwnText | packages/callhierarchy/src/common/glob.ts:306-370 | a key that is no brace list answers with its own text, trimmed |
| GlobReturned.ItemAnswer | packages/callhierarchy/src/common/glob.ts:579-699 | so does the answer of each item of an expression, merged or not |
| GlobReturned.ReturnedPatternMatches | packages/callhierarchy/src/common/glob.ts:579-699 | whatever pattern an expression returns for a path matches the path again, for any basename and path, unless a basename is filled in that adds a name |
| GlobReturned.ConfirmedExactly | packages/callhierarchy/src/common/glob.ts:624-646 | where one is filled in: this holds for all expressions on a path iff its library basename is its last name or no word |
| Packages.CollectedExactly | dev-packages/application-package/src/extension-package-collector.ts:32-83 | exactly the extension packages reachable through extension packages are collected, each once, with version, extensions and transitivity as installed; on any graph |
| Packages.CollectedPackages | dev-packages/application-package/src/extension-package-collector.ts:57-83 | collected are exactly the reachable packages that resolve, have a name and a version and list extensions |
| Packages.RangeRecorded | dev-packages/application-package/src/extension-package-collector.ts:38-83 | the recorded range is the one that the recorded parent, or else the root, asks for |
| Packages.TopologicalOrder | dev-packages/application-package/src/extension-package-collector.ts:38-83 | a dependency comes before its dependent unless it leads back to it |
| Packages.AcyclicOrder | dev-packages/application-package/src/extension-package-collector.ts:38-83 | without cycles every dependency precedes its dependents |
| Packages.ParentComesLater | dev-packages/application-package/src/extension-package-collector.ts:49-82 | a package found through another one comes before it |
| Packages.DependentIsDirect | dev-packages/application-package/src/extension-package.ts:81-103 | from a transitive package the parents end at a direct dependency of the root from which it is reachable |
| Collector.ExtensionPackageCollector.constructor | dev-packages/application-package/src/extension-package-collector.ts:21-31 | a collector starts empty, with nothing visited |
| Collector.ExtensionPackageCollector.Collect | dev-packages/application-package/src/extension-package-collector.ts:32-36 | the walk over the fields ends and yields the specified list, every parent later in it, and the parent field is restored |
| Collector.ExtensionPackageCollector.CollectPackages | dev-packages/application-package/src/extension-package-collector.ts:38-47 | the loop appends what the specified walk finds, and keeps root and parent |
| Collector.ExtensionPackageCollector.CollectPackagesWithParent | dev-packages/application-package/src/extension-package-collector.ts:50-55 | the packages found get the new parent, and the old one is restored |
| Collector.ExtensionPackageCollector.CollectPackage | dev-packages/application-package/src/extension-package-collector.ts:57-83 | one dependency is walked as specified, resolvable or not, visited or not |
| Collector.ExtensionPackage.Dependent | dev-packages/application-package/src/extension-package.ts:81-92 | the parent walk over the objects ends, meets no missing parent and names the topmost package |
| Collector.CollectedDependent | dev-packages/application-package/src/extension-package.ts:81-103 | every collected object may be asked for its dependent, and the answer is a direct dependency from which it is reachable |
| Modules.ComputeModules | dev-packages/application-package/src/application-package.ts:178-195 | every module lands in the map, in order, numbered from 1, and none overwrites another; which module of an extension that is, `Modules.ComputedModule` says |
| Modules.AddModules | dev-packages/application-package/src/application-package.ts:181-192 | the modules of one package continue the numbering |
| Modules.NumberedDistinct | dev-packages/application-package/src/application-package.ts:183-190 | numbered keys never collide |
| Modules.QualifyingHasPlace | dev-packages/application-package/src/application-package.ts:181-192 | every extension with a module of the requested kinds has it, the primary one if there is one, at its place in the map |
| Modules.ModulePathIs | dev-packages/application-package/src/application-package.ts:185 | a non-empty path of the primary kind wins over the secondary kind |
| Modules.ComputedModule | dev-packages/application-package/src/application-package.ts:178-195 | the computed map has, under the number of its place, the primary module of an extension, and the secondary one only of an extension without it |
| Modules.OthersHaveNoPlace | dev-packages/application-package/src/application-package.ts:181-192 | an extension with neither kind adds no entry |
| Modules.PlacesInOrder | dev-packages/application-package/src/application-package.ts:181-192 | no two extensions share a place, and places follow the order of packages and extensions |
| Modules.PlaceIsTaken | dev-packages/application-package/src/application-package.ts:181-192 | every entry of the map is the module of some extension with a module of the requested kinds |
| Modules.LineIsModule | dev-packages/application-manager/src/generator/abstract-generator.ts:46-58 | the line of each key loads the module the key was given to |
| Modules.LineText | dev-packages/application-manager/src/generator/abstract-generator.ts:50-56 | the text of a line, for `import` and for `require` |
| Modules.ChainSnoc | dev-packages/application-manager/src/generator/abstract-generator.ts:57 | every line follows a line end, and there is nothing else |
| Modules.TextInOrder | dev-packages/application-manager/src/generator/abstract-generator.ts:46-58 | in the generated text the lines stand complete and in the order of the modules |
| Modules.ImportsInOrder | dev-packages/application-manager/src/generator/abstract-generator.ts:46-58 | without cycles, every module of an extension is loaded after all modules of the extensions it depends on |
| Numerals.ValueOfDecimal | scripts/translate-monaco.js:137 | a number can be read back from its numeral, so numbered keys differ |
| Numerals.DecimalDigits | scripts/translate-monaco.js:137 | a numeral consists of digits and has no leading zero |
| Rebuild.StepKeepsInv | dev-packages/application-manager/src/rebuild.ts:87-182 | every step, failing or not, keeps the invariant of copies, originals and manifest |
| Rebuild.GoneNext | dev-packages/application-manager/src/rebuild.ts:155-182 | an entry is left without its copy exactly by a failing last step of a revert that had restored it, and then for good |
| Rebuild.NoBuildIsLost | dev-packages/application-manager/src/rebuild.ts:50-182 | over any runs, interleavings and failures in which no last step of a revert fails after a module was restored, every browser build is in place or listed and cached, and no copy is an electron build |
| RebuildLoss.LossExactly | dev-packages/application-manager/src/rebuild.ts:50-182 | after any run whatsoever, a build can be lost later iff such a failure happened in it |
| RebuildLoss.LosingRun | dev-packages/application-manager/src/rebuild.ts:155-182 | to the electron build, back with a failure at the very end, and the next run loses the build |
| Rebuild.NoCacheMeansBrowser | dev-packages/application-manager/src/rebuild.ts:50-64 | between runs, no cache means that every module is a browser build, whatever has failed |
| RebuildLoss.LossExactlyWhenUnbacked | dev-packages/application-manager/src/rebuild.ts:155-174 | between runs, later runs can lose a build iff some manifest entry has no browser build in the cache |
| RebuildLoss.FailedFinish | dev-packages/application-manager/src/rebuild.ts:175-181 | a failing last step of a revert endangers a build iff the revert had restored some module |
| RebuildEffect.BackupEffect | dev-packages/application-manager/src/rebuild.ts:87-153 | an electron run without failures leaves everything alone if no module is found, and otherwise lists every module found, with its browser build in the cache |
| RebuildEffect.BackupFinishes | dev-packages/application-manager/src/rebuild.ts:119-137 | when all are backed up, exactly the modules found are handed to the rebuild |
| RebuildEffect.FailedBackupTouchesNothing | dev-packages/application-manager/src/rebuild.ts:107-128 | once a module could not be backed up, none is rebuilt in that run |
| RebuildEffect.BackupFails | dev-packages/application-manager/src/rebuild.ts:107-117 | a folder that cannot be cleared or written is such a failure |
| RebuildEffect.RevertEffect | dev-packages/application-manager/src/rebuild.ts:155-182 | a browser run without failures, in any interleaving, makes browser builds of exactly the requested entries and strikes them off; with none left there is no cache and no manifest |
| RebuildEffect.ThereAndBackAgain | dev-packages/application-manager/src/rebuild.ts:50-182 | there and back without failures ends in the very state it began in, so that the next electron run begins a backup |
| RebuildEffect.ThereAndBackExists | dev-packages/application-manager/src/rebuild.ts:50-182 | such runs exist for any modules |
| RebuildEffect.RevertCanEnd | dev-packages/application-manager/src/rebuild.ts:155-182 | from any point of a revert some steps without failure lead to its end |
| RebuildEffect.ManifestHasEntries | dev-packages/application-manager/src/rebuild.ts:119-182 | after any run, a manifest that is there has entries |
| RebuildEffect.StuckExactly | dev-packages/application-manager/src/rebuild.ts:50-65 | between runs, no later run changes anything iff there is a cache without a manifest |
| RebuildEffect.CopyLeavesFolder | dev-packages/application-manager/src/rebuild.ts:107-109 | a copy that is begun leaves the cache folder |
| RebuildEffect.StuckRun | dev-packages/application-manager/src/rebuild.ts:104-122 | a backup whose only copy breaks off half-way ends there |
| Localizations.FindInTree | dev-packages/localization-manager/src/localization-extractor.ts:146-169 | following a key from the root finds the entry that the tree has there |
| Localizations.Attached | dev-packages/localization-manager/src/localization-extractor.ts:162-166 | hanging in a fresh object keeps the tree and all texts |
| Localizations.PartsInjective | dev-packages/localization-manager/src/localization-extractor.ts:150 | different keys have different parts |
| Localizations.PartsConcat | dev-packages/localization-manager/src/localization-extractor.ts:150 | at every slash a key falls into the parts before it and those behind it |
| Localizations.PartsAlone | dev-packages/localization-manager/src/localization-extractor.ts:150 | without a slash it is its only part |
| Localizations.Descend | dev-packages/localization-manager/src/localization-extractor.ts:158-167 | one step down keeps the tree and all texts, and creates an object only where there was none |
| Localizations.SetText | dev-packages/localization-manager/src/localization-extractor.ts:153-157 | writing a text in place changes that key only |
| Localizations.WalkDown | dev-packages/localization-manager/src/localization-extractor.ts:151-167 | the loop fails iff some proper prefix holds a text, and then nothing has changed; objects are added along the way only |
| Localizations.Insert | dev-packages/localization-manager/src/localization-extractor.ts:146-169 | it throws iff a proper prefix holds a text or the key an object, and then nothing has changed; otherwise the objects grow by those on the way |
| Localizations.InsertKey | dev-packages/localization-manager/src/localization-extractor.ts:146-169 | after success the key is found with its value and every other key has the text it had |
| Localizations.BlockedIsClash | dev-packages/localization-manager/src/localization-extractor.ts:153-161 | a key is refused iff it leads through a key that is there or the other way round |
| Localizations.OneMoreKey | dev-packages/localization-manager/src/localization-extractor.ts:107-120 | one more key is reported if it clashes with a stored one, and otherwise stored with its text; nothing else changes |
| Localizations.InsertAll | dev-packages/localization-manager/src/localization-extractor.ts:107-120 | inserting all keys of a file reports exactly the clashing ones, and every key is found with the text that the sequence of insertions gives it |
| Localizations.NoErrorExactly | dev-packages/localization-manager/src/localization-extractor.ts:107-120 | no error is reported iff no two keys clash, in whatever order they come |
| Localizations.LastTextWins | dev-packages/localization-manager/src/localization-extractor.ts:107-157 | then each key has the last text given for it |
| Monaco.Translate | scripts/translate-monaco.js:128-147 | the count check passes iff the written keys are all different, and then each holds its text |
| Monaco.CollisionExact | scripts/translate-monaco.js:128-142 | for any different translation keys: no two positions write the same key iff there is a key for every different text, or `undefined` can serve for the last, and none of these is the numbered key of a repeated text |
| Monaco.MissingKeys | scripts/translate-monaco.js:139-147 | one missing key goes unnoticed, two do not |
| Monaco.CountElements | scripts/translate-monaco.js:144-147 | counting written keys tells whether they are all different |
| MonacoLoader.FirstKey | scripts/translate-monaco.js:134-141 | the n-th different text is written under the n-th translation key |
| MonacoLoader.RepeatedKey | scripts/translate-monaco.js:135-138 | a repeated text is written under `_duplicate/` and its last position |
| MonacoLoader.CreateMessages | packages/monaco/src/browser/monaco-loader.ts:178-190 | the loop that replaces numbered keys in place yields the specified keys, names and default texts |
| MonacoLoader.ReadBackExactly | packages/monaco/src/browser/monaco-loader.ts:178-190 | if the written keys differ, every position is read under the translation key of its text iff no such key looks like the number of another position |
| MonacoLoader.WrittenIsRead | packages/monaco/src/browser/monaco-loader.ts:178-190 | from end to end: what was written completely is read back text by text |
| PackageFinder.NearestEncloses | dev-packages/eslint-plugin/rules/shared-dependencies.js:121-143 | the nearest folder encloses the start, has a `package.json`, and none between does |
| PackageFinder.OwnPackage | dev-packages/eslint-plugin/rules/shared-dependencies.js:121-143 | a folder with its own `package.json` is its own answer, also for the files in it |
| PackageFinder.AnswerFromAbove | dev-packages/eslint-plugin/rules/shared-dependencies.js:121-143 | any other folder or file has the answer of the folder it lies in |
| PackageFinder.Finder.FindPackageJson | dev-packages/eslint-plugin/rules/shared-dependencies.js:121-143 | below some `package.json` the walk ends and returns the nearest one; every cached folder leads to its own nearest |
| PackageFinder.Finder.constructor | dev-packages/eslint-plugin/rules/shared-dependencies.js:116 | the cache starts empty |
| PackageFinder.RoundsAgree | dev-packages/eslint-plugin/rules/shared-dependencies.js:126-142 | with any valid cache, the round in which the loop answers does not matter for the answer |
| PackageFinder.EndsExactly | dev-packages/eslint-plugin/rules/shared-dependencies.js:126-142 | the loop ends iff there is an enclosing `package.json` |
| PackageFinder.WalksForEver | dev-packages/eslint-plugin/rules/shared-dependencies.js:126-142 | a file without any package.json above it is never answered |
| NpmRegistry.NextKeepsInv | dev-packages/application-package/src/npm-registry.ts:106-142 | every call, change and settlement keeps the index well |
| NpmRegistry.IndexAlwaysWell | dev-packages/application-package/src/npm-registry.ts:106-142 | in every interleaving each indexed promise was requested for its name from the configured registry, none is a handled rejection, and at most one stream is open |
| NpmRegistry.RequestsStay | dev-packages/application-package/src/npm-registry.ts:133-142 | a sent request is never redirected, forgotten or settled twice |
| NpmRegistry.EntryLostExactly | dev-packages/application-package/src/npm-registry.ts:106-142 | a request stops answering for its name exactly at another registry, a change to the package, or the handling of a rejected request for that name |
| NpmRegistry.EntryStays | dev-packages/application-package/src/npm-registry.ts:133-142 | over any run, one request answers all views of a name iff none of these comes |
| NpmRegistry.GoneForGood | dev-packages/application-package/src/npm-registry.ts:133-142 | a request that stopped answering never answers again |
| NpmRegistry.LateRejection | dev-packages/application-package/src/npm-registry.ts:127-140 | the late rejection of an earlier request takes away a later one that is still pending |
| NpmRegistry.ViewRequests | dev-packages/application-package/src/npm-registry.ts:133-142 | a view sends a request to the configured registry iff none answers for the name |
| NpmRegistry.ChangeRequests | dev-packages/application-package/src/npm-registry.ts:127-132 | a change has an indexed name requested anew at once, and no other |
| NpmRegistry.RegistryChanges | dev-packages/application-package/src/npm-registry.ts:106-113 | the index is emptied iff the registry changes |
| NpmRegistry.StreamOpened | dev-packages/application-package/src/npm-registry.ts:114-126 | a stream is opened exactly when the registry becomes the default one and changes are watched, and then it is the only open one |
| NpmRegistry.StreamsExactly | dev-packages/application-package/src/npm-registry.ts:98-126 | after any run a stream is open iff changes are watched and the registry has been the default one |
| NpmRegistry.NpmRegistry.constructor | dev-packages/application-package/src/npm-registry.ts:98-104 | a new registry is the initial state of the machine |
| NpmRegistry.NpmRegistry.Reset | dev-packages/application-package/src/npm-registry.ts:114-126 | the index is emptied and the old stream closed before a new one is opened |
| NpmRegistry.NpmRegistry.UpdateProps | dev-packages/application-package/src/npm-registry.ts:106-113 | the index is reset iff the registry changes |
| NpmRegistry.NpmRegistry.View | dev-packages/application-package/src/npm-registry.ts:133-142 | an indexed request is answered again, otherwise one is sent and indexed |
| NpmRegistry.NpmRegistry.Invalidate | dev-packages/application-package/src/npm-registry.ts:127-131 | only an indexed name is requested anew |
| NpmRegistry.NpmRegistry.Rejection | dev-packages/application-package/src/npm-registry.ts:140 | after the handler has run, no name leads to the rejected promise |

## Left out

- GlobBraces.BraceLaw: asks that the text next to the brace neither makes nor unmakes a globstar of a choice, as in `*{*,x}`. Any other brace has its exact language in `GlobLanguage.PatternLanguage`.
- GlobBraceLaws.BraceExpands: asks the same, plain segments, and no choice of globstars only; for these there is `GlobBraces.BraceLaw`.
- GlobBraceLaws.OneChoiceExactly: is about one choice among non-empty plain segments, like the other two iff statements beside it.
- GlobMeaning.GlobMeaning: is name by name and asks for well-formed, flat segments. All other texts have their exact meaning in `GlobMeaning.GroupMeaning`, on strings that are no normalised path in `GlobLanguage.PatternLanguage`.
- GlobExpression.ExpressionIsUnion: asks for a synchronous sibling test. A pending promise counts as a match in the source and ends its loop.
- GlobSiblings.ExpressionHolds: is about native paths and names without dollar signs. For other paths `GlobExpression.ExpressionIsUnion` and the laws of the basename hold, for dollar signs `GlobSiblings.SubstituteDollar`, with one of them in a name.
- GlobOrder.FirstMatchWins: asks, like `GlobExpression.ExpressionIsUnion`, that no basename is filled in that makes a difference.
- GlobExpression.Evaluate: pure tests for siblings only, since it asks a function instead of calling out.
- Packages.CollectedExactly: a name resolves to one package wherever it is required; nested installations of one name are not told apart.
- RebuildLoss.LossExactly: takes module folders as distinct, removals as all-or-nothing, and no crash of the process between two steps.
- Localizations.InsertKey: keys that JavaScript objects inherit, such as `constructor`, are not special.
- PackageFinder.Finder.FindPackageJson: the file system does not change between calls, and every `package.json` can be read.
- `allBasenames` and `allPaths` of matchers, `getBasenameTerms`, `getPathTerms` and the caching sibling helpers: they only pass values on.
- `isEqualOrParent`, `normalize` and `pathToRelative` for relative patterns: together a parameter of `GlobParse.RunMatcher`.
- Characters outside the basic plane, which JavaScript strings hold as two code units.
- Laziness, `lastIndex` and syntax errors other than class ranges in regular expressions: only the accepted language matters.
- `packagePath`, `getAuthor`, `getReadme` and the views of extension packages: I/O around the registry.
- The join of a package name and a module path: a parameter of `Modules.Request`.
- The electron rebuild itself: any change to the backed-up modules.
- The manual items of `translate-monaco.js`, and keys that JavaScript orders as numbers.
- Requests and change streams of the registry: events of the machine.
- What `Number` reads a text as: a parameter of `MonacoLoader.CreateMessages` that reads numerals; the translations themselves.
- TypeScript parsing, `deepmerge`, plugin downloads, the command line, generators other than the import chain, and all user interface code.
