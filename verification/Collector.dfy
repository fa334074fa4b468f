/** The collector as objects that are filled in during the walk. */
module Collector {
  import opened Wrappers
  import opened Packages

  class ExtensionPackage {
    const name: string
    const version: string
    const range: string
    const transitive: bool
    const parent: ExtensionPackage?
    const theiaExtensions: seq<Extension>

    constructor (name: string, version: string, range: string, transitive: bool, parent: ExtensionPackage?,
        theiaExtensions: seq<Extension>)
      ensures this.name == name && this.version == version && this.range == range && this.transitive == transitive
      ensures this.parent == parent && this.theiaExtensions == theiaExtensions
    {
      this.name, this.version, this.range := name, version, range;
      this.transitive, this.parent, this.theiaExtensions := transitive, parent, theiaExtensions;
    }

    /** The direct dependency of the root to which a transitive package belongs. */
    method Dependent(ghost all: seq<ExtensionPackage>, ghost index: nat) returns (d: Option<string>)
      requires index < |all| && all[index] == this && Linked(all, null) && Distinct(EntriesOf(all))
      requires transitive ==> parent != null
      ensures d == if transitive then Some(all[TopIndex(EntriesOf(all), index)].name) else None
    {
      if !transitive {
        return None;
      }
      ghost var es := EntriesOf(all);
      var current: ExtensionPackage := parent;
      ghost var k := NextIndex(all, index);
      var p := current.parent;
      while p != null
        invariant index < k < |all| && all[k] == current && p == current.parent
        invariant TopIndex(es, index) == TopIndex(es, k)
        decreases |all| - k
      {
        current := p;
        k := NextIndex(all, k);
        p := current.parent;
      }
      return Some(current.name);
    }
  }

  function EntryOf(p: ExtensionPackage): Entry {
    Entry(p.name, p.version, p.range, p.transitive, ParentName(p.parent), p.theiaExtensions)
  }

  function ParentName(p: ExtensionPackage?): Option<string> {
    if p == null then None else Some(p.name)
  }

  function EntriesOf(ps: seq<ExtensionPackage>): (es: seq<Entry>)
    ensures |es| == |ps| && forall i | 0 <= i < |ps| :: es[i] == EntryOf(ps[i])
  {
    seq(|ps|, i requires 0 <= i < |ps| => EntryOf(ps[i]))
  }

  /** Every parent is the given outer one or an object that comes later in the list. */
  ghost predicate Linked(ps: seq<ExtensionPackage>, outer: ExtensionPackage?) {
    forall i | 0 <= i < |ps| :: ps[i].parent == outer || LinkedAt(ps, i)
  }

  ghost predicate LinkedAt(ps: seq<ExtensionPackage>, i: nat)
    requires i < |ps|
  {
    exists j | i < j < |ps| :: ps[j] == ps[i].parent
  }

  /** The parent's index, which is where the search by name finds it too. */
  lemma NextIndex(all: seq<ExtensionPackage>, i: nat) returns (k: nat)
    requires i < |all| && Linked(all, null) && Distinct(EntriesOf(all)) && all[i].parent != null
    ensures i < k < |all| && all[k] == all[i].parent
    ensures TopIndex(EntriesOf(all), i) == TopIndex(EntriesOf(all), k)
  {
    assert LinkedAt(all, i);
    k :| i < k < |all| && all[k] == all[i].parent;
    assert LaterIndex(EntriesOf(all), i, all[k].name) == k;
  }

  lemma LinkedConcat(a: seq<ExtensionPackage>, b: seq<ExtensionPackage>, outer: ExtensionPackage?)
    requires Linked(a, outer) && Linked(b, outer)
    ensures Linked(a + b, outer)
  {
    var c := a + b;
    forall i | 0 <= i < |c| ensures c[i].parent == outer || LinkedAt(c, i) {
      if i < |a| && a[i].parent != outer {
        assert LinkedAt(a, i);
        var j :| i < j < |a| && a[j] == a[i].parent;
        assert c[j] == c[i].parent;
      } else if i >= |a| && c[i].parent != outer {
        assert LinkedAt(b, i - |a|);
        var j :| i - |a| < j < |b| && b[j] == b[i - |a|].parent;
        assert c[|a| + j] == c[i].parent;
      }
    }
  }

  lemma LinkedSnoc(a: seq<ExtensionPackage>, e: ExtensionPackage)
    requires Linked(a, e)
    ensures Linked(a + [e], e.parent)
  {
    var c := a + [e];
    forall i | 0 <= i < |c| ensures c[i].parent == e.parent || LinkedAt(c, i) {
      if i < |a| {
        if a[i].parent == e {
          assert c[|a|] == c[i].parent;
        } else {
          assert LinkedAt(a, i);
          var j :| i < j < |a| && a[j] == a[i].parent;
          assert c[j] == c[i].parent;
        }
      }
    }
  }

  lemma EntriesConcat(a: seq<ExtensionPackage>, b: seq<ExtensionPackage>)
    ensures EntriesOf(a + b) == EntriesOf(a) + EntriesOf(b)
  {
  }

  /** A walk has found something and is still to visit the rest. */
  ghost predicate Continues(whole: Walk, found: seq<Entry>, rest: Walk) {
    whole == Walk(rest.visited, found + rest.found)
  }

  lemma FoundConcat(a: seq<ExtensionPackage>, b: seq<ExtensionPackage>, outer: ExtensionPackage?, whole: Walk,
      here: Walk, rest: Walk)
    requires Linked(a, outer) && Linked(b, outer)
    requires Continues(whole, EntriesOf(a), here) && Continues(here, EntriesOf(b), rest)
    ensures Linked(a + b, outer) && Continues(whole, EntriesOf(a + b), rest)
  {
    LinkedConcat(a, b, outer);
    EntriesConcat(a, b);
    hide Linked, EntriesOf;
    assert EntriesOf(a) + (EntriesOf(b) + rest.found) == (EntriesOf(a) + EntriesOf(b)) + rest.found;
  }

  lemma ToVisit(w: World, ds: seq<Dependency>, i: nat)
    requires w.Closed() && DepNames(ds) <= w.names && i < |ds|
    ensures ds[i].name in w.names && Dependency(ds[i].name, ds[i].range) == ds[i]
    ensures DepNames(ds[i..]) <= w.names && DepNames(ds[i + 1..]) <= w.names
  {
    assert ds[i].name in DepNames(ds);
  }

  /** What is still to be visited, one dependency at a time. */
  lemma NextDependency(w: World, roots: set<string>, ds: seq<Dependency>, i: nat, p: Option<string>,
      visited: set<string>)
    requires w.Closed() && DepNames(ds) <= w.names && i < |ds|
    ensures ds[i].name in w.names && DepNames(ds[i..]) <= w.names && DepNames(ds[i + 1..]) <= w.names
    ensures var first := Visit(w, roots, ds[i], p, visited);
            var rest := VisitAll(w, roots, ds[i + 1..], p, first.visited);
            Continues(VisitAll(w, roots, ds[i..], p, visited), first.found, rest)
  {
    ToVisit(w, ds, i);
    assert ds[i..][0] == ds[i] && ds[i..][1..] == ds[i + 1..];
  }

  /** One round of the loop over the dependencies. */
  lemma FoundMore(w: World, roots: set<string>, ds: seq<Dependency>, i: nat, p: Option<string>, was: set<string>,
      now: set<string>, outer: ExtensionPackage?, first: seq<ExtensionPackage>, more: seq<ExtensionPackage>,
      after: seq<ExtensionPackage>, whole: Walk)
    requires w.Closed() && DepNames(ds) <= w.names && i < |ds|
    requires ds[i].name in w.names && DepNames(ds[i..]) <= w.names && DepNames(ds[i + 1..]) <= w.names
    requires first + more <= after && Linked(more, outer) && Linked(after[|first + more|..], outer)
    requires var r := Visit(w, roots, ds[i], p, was);
             now == r.visited && EntriesOf(after[|first + more|..]) == r.found
    requires Continues(whole, EntriesOf(more), VisitAll(w, roots, ds[i..], p, was))
    ensures var found := more + after[|first + more|..];
            && after == first + found && Linked(found, outer)
            && Continues(whole, EntriesOf(found), VisitAll(w, roots, ds[i + 1..], p, now))
  {
    hide *;
    NextDependency(w, roots, ds, i, p, was);
    FoundConcat(more, after[|first + more|..], outer, whole, VisitAll(w, roots, ds[i..], p, was),
      VisitAll(w, roots, ds[i + 1..], p, now));
    assert after == first + more + after[|first + more|..];
  }

  class ExtensionPackageCollector {
    const world: World
    var root: NodePackage
    var sorted: seq<ExtensionPackage>
    var visited: map<string, bool>
    var parent: ExtensionPackage?

    constructor (world: World, root: NodePackage)
      ensures this.world == world && sorted == [] && visited == map[] && parent == null
    {
      this.world, this.root, sorted, visited, parent := world, root, [], map[], null;
    }

    function Roots(): set<string>
      reads this
    {
      DepNames(Deps(root))
    }

    /** What one step of the walk does to the fields. */
    twostate predicate Walked(r: Walk)
      reads this
    {
      && visited.Keys == r.visited
      && old(sorted) <= sorted
      && EntriesOf(sorted[|old(sorted)|..]) == r.found
      && Linked(sorted[|old(sorted)|..], parent)
      && parent == old(parent) && root == old(root)
    }

    method Collect(pck: NodePackage) returns (r: seq<ExtensionPackage>)
      requires world.Closed() && DepNames(Deps(pck)) <= world.names
      requires sorted == [] && visited == map[] && parent == null
      modifies this
      ensures r == sorted && EntriesOf(r) == Collected(world, pck) && Linked(r, null)
      ensures parent == null && root == pck
    {
      root := pck;
      assert visited.Keys == {};
      CollectPackages(pck);
      assert sorted[0..] == sorted;
      r := sorted;
    }

    method CollectPackages(pck: NodePackage)
      requires world.Closed() && DepNames(Deps(pck)) <= world.names
      modifies this
      ensures Walked(old(VisitAll(world, Roots(), Deps(pck), ParentName(parent), visited.Keys)))
      decreases world.names - visited.Keys, 1
    {
      if pck.dependencies.None? {
        return;
      }
      var ds := pck.dependencies.value;
      ghost var roots, p := Roots(), ParentName(parent);
      ghost var whole := VisitAll(world, roots, ds, p, visited.Keys);
      ghost var first, more := sorted, [];
      for i := 0 to |ds|
        invariant parent == old(parent) && root == old(root)
        invariant old(visited.Keys) <= visited.Keys && sorted == first + more
        invariant Linked(more, parent) && DepNames(ds[i..]) <= world.names
        invariant Continues(whole, EntriesOf(more), VisitAll(world, roots, ds[i..], p, visited.Keys))
      {
        hide *;
        ghost var was, before := visited.Keys, sorted;
        ToVisit(world, ds, i);
        CollectPackage(ds[i].name, ds[i].range);
        FoundMore(world, roots, ds, i, p, was, visited.Keys, parent, first, more, sorted, whole);
        more := more + sorted[|before|..];
      }
      assert ds[|ds|..] == [];
      assert sorted[|first|..] == more;
    }

    method CollectPackagesWithParent(pck: NodePackage, parent: ExtensionPackage)
      requires world.Closed() && DepNames(Deps(pck)) <= world.names
      modifies this
      ensures var r := old(VisitAll(world, Roots(), Deps(pck), Some(parent.name), visited.Keys));
              && visited.Keys == r.visited && old(sorted) <= sorted
              && EntriesOf(sorted[|old(sorted)|..]) == r.found && Linked(sorted[|old(sorted)|..], parent)
      ensures this.parent == old(this.parent) && root == old(root)
      decreases world.names - visited.Keys, 2
    {
      var current := this.parent;
      this.parent := parent;
      CollectPackages(pck);
      this.parent := current;
    }

    method CollectPackage(name: string, versionRange: string)
      requires world.Closed() && name in world.names
      modifies this
      ensures Walked(old(Visit(world, Roots(), Dependency(name, versionRange), ParentName(parent), visited.Keys)))
      decreases world.names - visited.Keys, 0
    {
      if name in visited {
        return;
      }
      visited := visited[name := true];
      assert visited.Keys == old(visited.Keys) + {name};
      if name !in world.resolved {
        return;
      }
      var pck := world.resolved[name];
      if IsExtension(pck) {
        var transitive := name !in Roots();
        var extensionPackage := new ExtensionPackage(name, pck.version, versionRange, transitive, parent,
          pck.theiaExtensions.value);
        CollectPackagesWithParent(pck, extensionPackage);
        ghost var inner := sorted[|old(sorted)|..];
        sorted := sorted + [extensionPackage];
        assert sorted[|old(sorted)|..] == inner + [extensionPackage];
        LinkedSnoc(inner, extensionPackage);
        EntriesConcat(inner, [extensionPackage]);
      }
    }
  }

  /** On a collected list `Dependent` may be called for every package, and for a transitive one it names
      a direct dependency of the root from which the package is reachable. */
  lemma CollectedDependent(w: World, root: NodePackage, all: seq<ExtensionPackage>, i: nat)
    requires w.Closed() && DepNames(Deps(root)) <= w.names && i < |all|
    requires EntriesOf(all) == Collected(w, root) && Linked(all, null)
    ensures Distinct(EntriesOf(all)) && (all[i].transitive ==> all[i].parent != null)
    ensures all[i].transitive ==>
              var top := all[TopIndex(EntriesOf(all), i)];
              top.name in DepNames(Deps(root)) && !top.transitive && Reaches(w, top.name, all[i].name)
  {
    CollectedExactly(w, root);
    assert EntriesOf(all)[i] == EntryOf(all[i]);
    if all[i].transitive {
      DependentIsDirect(w, root, i);
    }
  }
}
