/** The numbered module map of an application and the import chain generated from it. */
module Modules {
  import opened Wrappers
  import opened Numerals
  import opened Packages
  import opened Collector

  /** The module of an extension: the primary kind, or else the secondary one; an empty primary path counts
      as absent. */
  function ModulePath(e: Extension, primary: string, secondary: Option<string>): Option<string> {
    if primary in e && e[primary] != "" then Some(e[primary])
    else if secondary.Some? && secondary.value != "" && secondary.value in e then Some(e[secondary.value])
    else None
  }

  /** What is asked for: a kind of module, its fallback, and how a package name and a path are joined. */
  datatype Request = Request(primary: string, secondary: Option<string>, join: (string, string) -> string)

  /** The modules of one package, in order. */
  function PackageModules(q: Request, name: string, es: seq<Extension>): seq<string> {
    if es == [] then [] else
      var m := ModulePath(es[0], q.primary, q.secondary);
      (if m.Some? then [q.join(name, m.value)] else []) + PackageModules(q, name, es[1..])
  }

  function AllModules(q: Request, es: seq<Entry>): seq<string> {
    if es == [] then [] else PackageModules(q, es[0].name, es[0].extensions) + AllModules(q, es[1..])
  }

  function ModuleKey(primary: string, n: nat): string {
    primary + "_" + Decimal(n)
  }

  /** A map that remembers the order in which its keys were set. */
  type OrderedMap = seq<(string, string)>

  function KeyIndex(m: OrderedMap, key: string): (i: nat)
    ensures i <= |m| && (i < |m| ==> m[i].0 == key) && forall j | 0 <= j < i :: m[j].0 != key
  {
    if m == [] || m[0].0 == key then 0 else 1 + KeyIndex(m[1..], key)
  }

  /** Setting a key that is there replaces its value in place. */
  function SetKey(m: OrderedMap, key: string, value: string): OrderedMap {
    var i := KeyIndex(m, key);
    if i < |m| then m[i := (key, value)] else m + [(key, value)]
  }

  function GetKey(m: OrderedMap, key: string): string {
    var i := KeyIndex(m, key);
    if i < |m| then m[i].1 else "undefined"
  }

  /** The modules under consecutive numbers from 1. */
  function Numbered(primary: string, paths: seq<string>): (m: OrderedMap)
    ensures |m| == |paths| && forall i | 0 <= i < |m| :: m[i] == (ModuleKey(primary, i + 1), paths[i])
  {
    seq(|paths|, i requires 0 <= i < |paths| => (ModuleKey(primary, i + 1), paths[i]))
  }

  /** No two numbered modules share a key. */
  lemma NumberedDistinct(primary: string, paths: seq<string>, i: nat, j: nat)
    requires i < |paths| && j < |paths| && Numbered(primary, paths)[i].0 == Numbered(primary, paths)[j].0
    ensures i == j
  {
    hide Decimal;
    PrefixedInjective(primary + "_", i + 1, j + 1);
  }

  lemma SetNext(primary: string, paths: seq<string>, path: string)
    ensures SetKey(Numbered(primary, paths), ModuleKey(primary, |paths| + 1), path) == Numbered(primary, paths + [path])
  {
    hide Decimal;
    var m, key := Numbered(primary, paths), ModuleKey(primary, |paths| + 1);
    var i := KeyIndex(m, key);
    if i < |m| {
      PrefixedInjective(primary + "_", i + 1, |paths| + 1);
    }
  }

  /** Every module of every package lands in the map, in order, and none overwrites another. */
  method ComputeModules(packages: seq<ExtensionPackage>, q: Request) returns (result: OrderedMap)
    ensures result == Numbered(q.primary, AllModules(q, EntriesOf(packages)))
  {
    result := [];
    var moduleIndex := 1;
    ghost var paths: seq<string> := [];
    ghost var es := EntriesOf(packages);
    for i := 0 to |packages|
      invariant moduleIndex == |paths| + 1 && result == Numbered(q.primary, paths)
      invariant paths + AllModules(q, es[i..]) == AllModules(q, es)
    {
      assert es[i..][0] == EntryOf(packages[i]) && es[i..][1..] == es[i + 1..];
      result, moduleIndex := AddModules(result, moduleIndex, packages[i], q, paths);
      ghost var more := PackageModules(q, packages[i].name, packages[i].theiaExtensions);
      assert (paths + more) + AllModules(q, es[i + 1..]) == paths + (more + AllModules(q, es[i + 1..]));
      paths := paths + more;
    }
    assert es[|packages|..] == [];
  }

  /** The inner loop, over the extensions of one package. */
  method AddModules(m: OrderedMap, first: nat, p: ExtensionPackage, q: Request, ghost before: seq<string>)
    returns (result: OrderedMap, moduleIndex: nat)
    requires first == |before| + 1 && m == Numbered(q.primary, before)
    ensures var all := before + PackageModules(q, p.name, p.theiaExtensions);
            result == Numbered(q.primary, all) && moduleIndex == |all| + 1
  {
    hide SetKey, ModuleKey, ModulePath, Numbered;
    result, moduleIndex := m, first;
    ghost var paths := before;
    for j := 0 to |p.theiaExtensions|
      invariant moduleIndex == |paths| + 1 && result == Numbered(q.primary, paths)
      invariant paths + PackageModules(q, p.name, p.theiaExtensions[j..]) ==
                before + PackageModules(q, p.name, p.theiaExtensions)
    {
      assert p.theiaExtensions[j..][1..] == p.theiaExtensions[j + 1..];
      var modulePath := ModulePath(p.theiaExtensions[j], q.primary, q.secondary);
      if modulePath.Some? {
        var extensionPath := q.join(p.name, modulePath.value);
        SetNext(q.primary, paths, extensionPath);
        result := SetKey(result, ModuleKey(q.primary, moduleIndex), extensionPath);
        moduleIndex := moduleIndex + 1;
        paths := paths + [extensionPath];
      }
    }
  }

  // ---------- the import chain ----------

  datatype ImportFunction = Import | Require

  function ImportLine(fn: ImportFunction, path: string): string {
    var call := (if fn == Import then "import" else "require") + "('" + path + "')";
    var statement := if fn == Require then "Promise.resolve(" + call + ")" else call;
    "    .then(function () { return " + statement + ".then(load) })"
  }

  lemma Regrouped(a: string, b: string, c: string, d: string, e: string)
    ensures a + (b + c + d) + e == (a + b) + c + (d + e)
  {
  }

  lemma ImportStart()
    ensures "    .then(function () { return " + ("import" + "('") == "    .then(function () { return import('"
  {
  }

  lemma RequireStart()
    ensures "    .then(function () { return " + ("Promise.resolve(" + ("require" + "('")) ==
            "    .then(function () { return Promise.resolve(require('"
  {
  }

  lemma LineEnds()
    ensures "')" + ".then(load) })" == "').then(load) })" && "')" + ")" == "'))" &&
            "'))" + ".then(load) })" == "')).then(load) })"
  {
  }

  /** The text of a line for each of the two functions. */
  lemma LineText(path: string)
    ensures ImportLine(Import, path) == "    .then(function () { return import('" + path + "').then(load) })"
    ensures ImportLine(Require, path) ==
            "    .then(function () { return Promise.resolve(require('" + path + "')).then(load) })"
  {
    ImportStart();
    RequireStart();
    LineEnds();
    Regrouped("    .then(function () { return ", "import" + "('", path, "')", ".then(load) })");
    Regrouped("Promise.resolve(", "require" + "('", path, "')", ")");
    Regrouped("    .then(function () { return ", "Promise.resolve(" + ("require" + "('"), path, "'))",
      ".then(load) })");
  }

  /** The chain of the modules that the keys of a map stand for, each on a line of its own. */
  function ImportLines(m: OrderedMap, fn: ImportFunction): (lines: seq<string>)
    ensures |lines| == |m| && forall i | 0 <= i < |m| :: lines[i] == ImportLine(fn, GetKey(m, m[i].0))
  {
    seq(|m|, i requires 0 <= i < |m| => ImportLine(fn, GetKey(m, m[i].0)))
  }

  function Chain(lines: seq<string>, eol: string): string {
    if lines == [] then "" else eol + lines[0] + Chain(lines[1..], eol)
  }

  /** Each line follows a line end, and there is nothing else. */
  lemma {:induction false} ChainSnoc(lines: seq<string>, line: string, eol: string)
    ensures Chain([], eol) == "" && Chain(lines + [line], eol) == Chain(lines, eol) + eol + line
  {
    if lines == [] {
      assert [line][1..] == [];
      assert Chain([line], eol) == eol + line + "";
    } else {
      assert (lines + [line])[1..] == lines[1..] + [line];
      ChainSnoc(lines[1..], line, eol);
      assert eol + lines[0] + (Chain(lines[1..], eol) + eol + line) ==
             (eol + lines[0] + Chain(lines[1..], eol)) + eol + line;
    }
  }

  function CompileModuleImports(m: OrderedMap, fn: ImportFunction, eol: string): string {
    Chain(ImportLines(m, fn), eol)
  }

  /** Where the i-th line starts in the chain. */
  function LineStart(lines: seq<string>, eol: string, i: nat): nat
    requires i < |lines|
  {
    if i == 0 then |eol| else |eol| + |lines[0]| + LineStart(lines[1..], eol, i - 1)
  }

  /** The i-th line stands at its place in the text. */
  lemma {:induction false} LineAt(lines: seq<string>, eol: string, i: nat)
    requires i < |lines|
    ensures LineStart(lines, eol, i) + |lines[i]| <= |Chain(lines, eol)|
    ensures Chain(lines, eol)[LineStart(lines, eol, i)..LineStart(lines, eol, i) + |lines[i]|] == lines[i]
  {
    var head := eol + lines[0];
    var rest := Chain(lines[1..], eol);
    assert Chain(lines, eol) == head + rest;
    hide Chain;
    if i == 0 {
      assert (head + rest)[|eol|..|eol| + |lines[0]|] == lines[0];
    } else {
      LineAt(lines[1..], eol, i - 1);
      var k := LineStart(lines[1..], eol, i - 1);
      assert lines[1..][i - 1] == lines[i];
      SliceBehind(head, rest, k, k + |lines[i]|);
    }
  }

  lemma {:induction false} LinesApart(lines: seq<string>, eol: string, i: nat, j: nat)
    requires i < j < |lines|
    ensures LineStart(lines, eol, i) + |lines[i]| <= LineStart(lines, eol, j)
  {
    if i > 0 {
      LinesApart(lines[1..], eol, i - 1, j - 1);
    }
  }

  // ---------- order ----------

  /** The index of the first module of the i-th package. */
  function ModuleStart(q: Request, es: seq<Entry>, i: nat): nat
    requires i <= |es|
  {
    if i == 0 then 0 else |PackageModules(q, es[0].name, es[0].extensions)| + ModuleStart(q, es[1..], i - 1)
  }

  lemma StartUnfolds(q: Request, es: seq<Entry>, i: nat)
    requires 0 < i <= |es|
    ensures ModuleStart(q, es, i) ==
            |PackageModules(q, es[0].name, es[0].extensions)| + ModuleStart(q, es[1..], i - 1)
  {
  }

  /** The modules of the i-th package stand together from its start on. */
  lemma {:induction false} PackageSlice(q: Request, es: seq<Entry>, i: nat)
    requires i < |es|
    ensures var modules := PackageModules(q, es[i].name, es[i].extensions);
            && ModuleStart(q, es, i + 1) == ModuleStart(q, es, i) + |modules| <= |AllModules(q, es)|
            && AllModules(q, es)[ModuleStart(q, es, i)..ModuleStart(q, es, i + 1)] == modules
  {
    var head, rest := PackageModules(q, es[0].name, es[0].extensions), AllModules(q, es[1..]);
    assert AllModules(q, es) == head + rest;
    if i > 0 {
      StartUnfolds(q, es, i);
      StartUnfolds(q, es, i + 1);
      PackageSlice(q, es[1..], i - 1);
      hide PackageModules, AllModules, ModuleStart;
      var a, b := ModuleStart(q, es[1..], i - 1), ModuleStart(q, es[1..], i);
      assert es[1..][i - 1] == es[i];
      SliceBehind(head, rest, a, b);
    } else {
      hide PackageModules, AllModules;
      assert ModuleStart(q, es, 1) == |head| + ModuleStart(q, es[1..], 0);
      assert (head + rest)[..|head|] == head;
    }
  }

  lemma SliceBehind<T>(head: seq<T>, rest: seq<T>, a: nat, b: nat)
    requires a <= b <= |rest|
    ensures (head + rest)[|head| + a..|head| + b] == rest[a..b]
  {
  }

  lemma {:induction false} StartsIncrease(q: Request, es: seq<Entry>, i: nat, j: nat)
    requires i <= j <= |es|
    ensures ModuleStart(q, es, i) <= ModuleStart(q, es, j)
  {
    if i > 0 {
      StartsIncrease(q, es[1..], i - 1, j - 1);
    }
  }

  predicate ModuleOf(q: Request, es: seq<Entry>, i: nat, a: nat)
    requires i < |es|
  {
    ModuleStart(q, es, i) <= a < ModuleStart(q, es, i + 1)
  }

  // ---------- each qualifying extension once ----------

  predicate HasPrimary(q: Request, e: Extension) {
    q.primary in e && e[q.primary] != ""
  }

  predicate HasFallback(q: Request, e: Extension) {
    q.secondary.Some? && q.secondary.value != "" && q.secondary.value in e
  }

  /** The k-th extension of the i-th package has a module of the requested kinds. */
  predicate Qualifies(q: Request, es: seq<Entry>, i: nat, k: nat) {
    i < |es| && k < |es[i].extensions| && (HasPrimary(q, es[i].extensions[k]) || HasFallback(q, es[i].extensions[k]))
  }

  /** The primary kind wins over its fallback. */
  lemma ModulePathIs(q: Request, e: Extension)
    ensures HasPrimary(q, e) ==> ModulePath(e, q.primary, q.secondary) == Some(e[q.primary])
    ensures !HasPrimary(q, e) && HasFallback(q, e) ==>
              ModulePath(e, q.primary, q.secondary) == Some(e[q.secondary.value])
    ensures !HasPrimary(q, e) && !HasFallback(q, e) ==> ModulePath(e, q.primary, q.secondary) == None
  {
  }

  /** Where its module is: behind the modules of earlier packages and of earlier extensions. */
  function Place(q: Request, es: seq<Entry>, i: nat, k: nat): nat
    requires i < |es| && k <= |es[i].extensions|
  {
    ModuleStart(q, es, i) + |PackageModules(q, es[i].name, es[i].extensions[..k])|
  }

  lemma {:induction false} ModulesConcat(q: Request, name: string, a: seq<Extension>, b: seq<Extension>)
    ensures PackageModules(q, name, a + b) == PackageModules(q, name, a) + PackageModules(q, name, b)
  {
    if a == [] {
      assert a + b == b;
    } else {
      assert (a + b)[1..] == a[1..] + b;
      ModulesConcat(q, name, a[1..], b);
    }
  }

  /** The module, of the primary kind if there is one, is at its place, and the next extension's place is one
      further. */
  lemma QualifyingHasPlace(q: Request, es: seq<Entry>, i: nat, k: nat)
    requires Qualifies(q, es, i, k)
    ensures ModuleOf(q, es, i, Place(q, es, i, k)) && Place(q, es, i, k + 1) == Place(q, es, i, k) + 1
    ensures Place(q, es, i, k) < |AllModules(q, es)|
    ensures var e := es[i].extensions[k];
            AllModules(q, es)[Place(q, es, i, k)] ==
            q.join(es[i].name, if HasPrimary(q, e) then e[q.primary] else e[q.secondary.value])
  {
    hide ModulePath;
    var name, exts := es[i].name, es[i].extensions;
    ModulePathIs(q, exts[k]);
    PackageSlice(q, es, i);
    ModulesConcat(q, name, exts[..k], [exts[k]]);
    ModulesConcat(q, name, exts[..k + 1], exts[k + 1..]);
    assert exts[..k] + [exts[k]] == exts[..k + 1] && exts[..k + 1] + exts[k + 1..] == exts;
  }

  /** An extension with neither kind takes no place. */
  lemma OthersHaveNoPlace(q: Request, es: seq<Entry>, i: nat, k: nat)
    requires i < |es| && k < |es[i].extensions| && !Qualifies(q, es, i, k)
    ensures Place(q, es, i, k + 1) == Place(q, es, i, k)
  {
    hide ModulePath;
    var name, exts := es[i].name, es[i].extensions;
    ModulePathIs(q, exts[k]);
    ModulesConcat(q, name, exts[..k], [exts[k]]);
    assert exts[..k] + [exts[k]] == exts[..k + 1];
  }

  /** What is computed for all packages has that module under the key with the number of its place. */
  lemma ComputedModule(q: Request, es: seq<Entry>, i: nat, k: nat)
    requires Qualifies(q, es, i, k)
    ensures var m, a, e := Numbered(q.primary, AllModules(q, es)), Place(q, es, i, k), es[i].extensions[k];
            && a < |m| && m[a].0 == q.primary + "_" + Decimal(a + 1)
            && (HasPrimary(q, e) ==> m[a].1 == q.join(es[i].name, e[q.primary]))
            && (!HasPrimary(q, e) ==> m[a].1 == q.join(es[i].name, e[q.secondary.value]))
  {
    hide Place, AllModules, Decimal;
    QualifyingHasPlace(q, es, i, k);
  }

  /** No two of them share a place, and their places are in the order of packages and extensions. */
  lemma PlacesInOrder(q: Request, es: seq<Entry>, i: nat, k: nat, j: nat, l: nat)
    requires Qualifies(q, es, i, k) && Qualifies(q, es, j, l) && (i < j || (i == j && k < l))
    ensures Place(q, es, i, k) < Place(q, es, j, l)
  {
    QualifyingHasPlace(q, es, i, k);
    if i < j {
      StartsIncrease(q, es, i + 1, j);
    } else {
      var name, exts := es[i].name, es[i].extensions;
      ModulesConcat(q, name, exts[..k + 1], exts[k + 1..l]);
      assert exts[..k + 1] + exts[k + 1..l] == exts[..l];
    }
  }

  lemma {:induction false} ExtensionAt(q: Request, name: string, exts: seq<Extension>, a: nat) returns (k: nat)
    requires a < |PackageModules(q, name, exts)|
    ensures k < |exts| && (HasPrimary(q, exts[k]) || HasFallback(q, exts[k]))
    ensures |PackageModules(q, name, exts[..k])| == a
  {
    ModulePathIs(q, exts[0]);
    var found := ModulePath(exts[0], q.primary, q.secondary).Some?;
    if found && a == 0 {
      return 0;
    }
    k := ExtensionAt(q, name, exts[1..], if found then a - 1 else a);
    k := k + 1;
    assert exts[..k][1..] == exts[1..][..k - 1];
  }

  /** Nothing else is in the map: every module is at the place of a qualifying extension. */
  lemma {:induction false} PlaceIsTaken(q: Request, es: seq<Entry>, a: nat) returns (i: nat, k: nat)
    requires a < |AllModules(q, es)|
    ensures Qualifies(q, es, i, k) && Place(q, es, i, k) == a
    decreases |es|
  {
    var first := |PackageModules(q, es[0].name, es[0].extensions)|;
    if a < first {
      k := ExtensionAt(q, es[0].name, es[0].extensions, a);
      return 0, k;
    }
    i, k := PlaceIsTaken(q, es[1..], a - first);
    i := i + 1;
  }

  /** Each line loads the module that its key was given to. */
  lemma LineIsModule(q: Request, paths: seq<string>, fn: ImportFunction, a: nat)
    requires a < |paths|
    ensures ImportLines(Numbered(q.primary, paths), fn)[a] == ImportLine(fn, paths[a])
  {
    var m := Numbered(q.primary, paths);
    NumberedDistinct(q.primary, paths, KeyIndex(m, m[a].0), a);
  }

  /** The line for path stands in the text from position k on. */
  predicate StandsAt(text: string, k: nat, fn: ImportFunction, path: string) {
    k + |ImportLine(fn, path)| <= |text| && text[k..k + |ImportLine(fn, path)|] == ImportLine(fn, path)
  }

  lemma TextInOrder(q: Request, paths: seq<string>, fn: ImportFunction, eol: string, a: nat, b: nat)
    requires a < b < |paths|
    ensures var m := Numbered(q.primary, paths);
            var k, l := LineStart(ImportLines(m, fn), eol, a), LineStart(ImportLines(m, fn), eol, b);
            && StandsAt(CompileModuleImports(m, fn, eol), k, fn, paths[a])
            && StandsAt(CompileModuleImports(m, fn, eol), l, fn, paths[b])
            && k + |ImportLine(fn, paths[a])| <= l
  {
    hide Chain, LineStart, ImportLine, GetKey;
    var lines := ImportLines(Numbered(q.primary, paths), fn);
    LineIsModule(q, paths, fn, a);
    LineIsModule(q, paths, fn, b);
    LinesApart(lines, eol, a, b);
    LineAt(lines, eol, a);
    LineAt(lines, eol, b);
  }

  /** Without cycles the generated text loads module a of a dependency before module b of its dependent. */
  lemma ImportsInOrder(w: World, root: NodePackage, q: Request, fn: ImportFunction, eol: string, i: nat, j: nat,
      a: nat, b: nat)
    requires w.Closed() && DepNames(Deps(root)) <= w.names && Acyclic(w)
    requires i < |Collected(w, root)| && j < |Collected(w, root)| && w.Extends(Collected(w, root)[i].name)
    requires Collected(w, root)[j].name in DepNames(Deps(w.resolved[Collected(w, root)[i].name]))
    requires ModuleOf(q, Collected(w, root), j, a) && ModuleOf(q, Collected(w, root), i, b)
    ensures var paths := AllModules(q, Collected(w, root));
            a < b < |paths| &&
            var m := Numbered(q.primary, paths);
            var k, l := LineStart(ImportLines(m, fn), eol, a), LineStart(ImportLines(m, fn), eol, b);
            && StandsAt(CompileModuleImports(m, fn, eol), k, fn, paths[a])
            && StandsAt(CompileModuleImports(m, fn, eol), l, fn, paths[b])
            && k + |ImportLine(fn, paths[a])| <= l
  {
    var es := Collected(w, root);
    AcyclicOrder(w, root, i, j);
    PackageSlice(q, es, i);
    StartsIncrease(q, es, j + 1, i);
    TextInOrder(q, AllModules(q, es), fn, eol, a, b);
  }
}
