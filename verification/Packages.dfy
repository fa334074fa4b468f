/** The dependency graph of node packages and the extension packages found by walking it. */
module Packages {
  import opened Wrappers

  /** One entry of `theiaExtensions`: module paths by kind of module. */
  type Extension = map<string, string>

  datatype Dependency = Dependency(name: string, range: string)

  datatype NodePackage = NodePackage(
    name: string, version: string, dependencies: Option<seq<Dependency>>, theiaExtensions: Option<seq<Extension>>)

  /** An extension package is published and declares extensions. */
  predicate IsExtension(p: NodePackage) {
    p.name != "" && p.version != "" && p.theiaExtensions.Some?
  }

  function Deps(p: NodePackage): seq<Dependency> {
    if p.dependencies.Some? then p.dependencies.value else []
  }

  function DepNames(ds: seq<Dependency>): set<string> {
    set i | 0 <= i < |ds| :: ds[i].name
  }

  /** The installed packages by the name they are depended on; names holds every name there is. */
  datatype World = World(names: set<string>, resolved: map<string, NodePackage>) {
    predicate Closed() {
      forall n | n in resolved :: DepNames(Deps(resolved[n])) <= names
    }

    predicate Extends(n: string) {
      n in resolved && IsExtension(resolved[n])
    }
  }

  /** What is recorded of a collected package; the parent is the package through which it was found. */
  datatype Entry = Entry(name: string, version: string, range: string, transitive: bool, parent: Option<string>,
      extensions: seq<Extension>)

  datatype Walk = Walk(visited: set<string>, found: seq<Entry>)

  function Found(w: World, roots: set<string>, d: Dependency, parent: Option<string>): Entry
    requires w.Extends(d.name)
  {
    var p := w.resolved[d.name];
    Entry(d.name, p.version, d.range, d.name !in roots, parent, p.theiaExtensions.value)
  }

  /** Walking from one dependency, depth first; a package comes after what it depends on. */
  function Visit(w: World, roots: set<string>, d: Dependency, parent: Option<string>, visited: set<string>): (r: Walk)
    requires w.Closed() && d.name in w.names
    ensures visited <= r.visited && d.name in r.visited
    decreases w.names - visited, 0, 0
  {
    if d.name in visited then Walk(visited, [])
    else if !w.Extends(d.name) then Walk(visited + {d.name}, [])
    else
      var r := VisitAll(w, roots, Deps(w.resolved[d.name]), Some(d.name), visited + {d.name});
      Walk(r.visited, r.found + [Found(w, roots, d, parent)])
  }

  function VisitAll(w: World, roots: set<string>, ds: seq<Dependency>, parent: Option<string>,
      visited: set<string>): (r: Walk)
    requires w.Closed() && DepNames(ds) <= w.names
    ensures visited <= r.visited && DepNames(ds) <= r.visited
    decreases w.names - visited, 1, |ds|
  {
    if ds == [] then Walk(visited, []) else
      assert ds[0].name in DepNames(ds);
      assert DepNames(ds[1..]) <= DepNames(ds);
      var a := Visit(w, roots, ds[0], parent, visited);
      var b := VisitAll(w, roots, ds[1..], parent, a.visited);
      assert DepNames(ds) == {ds[0].name} + DepNames(ds[1..]);
      Walk(b.visited, a.found + b.found)
  }

  // ---------- reachability ----------

  ghost predicate IsPath(w: World, p: seq<string>) {
    p != [] && forall i | 0 <= i < |p| - 1 :: w.Extends(p[i]) && p[i + 1] in DepNames(Deps(w.resolved[p[i]]))
  }

  ghost predicate Between(w: World, p: seq<string>, a: string, b: string) {
    IsPath(w, p) && p[0] == a && p[|p| - 1] == b
  }

  /** b is reached from a through extension packages. */
  ghost predicate Reaches(w: World, a: string, b: string) {
    exists p :: Between(w, p, a, b)
  }

  ghost predicate ReachesFrom(w: World, ds: seq<Dependency>, b: string) {
    exists i | 0 <= i < |ds| :: Reaches(w, ds[i].name, b)
  }

  lemma ReachesSelf(w: World, a: string)
    ensures Reaches(w, a, a)
  {
    assert Between(w, [a], a, a);
  }

  lemma ReachesThrough(w: World, a: string, b: string)
    requires w.Extends(a) && ReachesFrom(w, Deps(w.resolved[a]), b)
    ensures Reaches(w, a, b)
  {
    var ds := Deps(w.resolved[a]);
    var i :| 0 <= i < |ds| && Reaches(w, ds[i].name, b);
    var p :| Between(w, p, ds[i].name, b);
    var q := [a] + p;
    forall j | 0 <= j < |q| - 1 ensures w.Extends(q[j]) && q[j + 1] in DepNames(Deps(w.resolved[q[j]])) {
      if j > 0 {
        assert q[j] == p[j - 1] && q[j + 1] == p[j];
      }
    }
    assert Between(w, q, a, b);
  }

  // ---------- what a walk finds ----------

  predicate Named(found: seq<Entry>, n: string) {
    exists i | 0 <= i < |found| :: found[i].name == n
  }

  predicate Distinct(found: seq<Entry>) {
    forall i, j | 0 <= i < |found| && i < j < |found| :: found[i].name != found[j].name
  }

  /** The entries are exactly the extension packages that the walk visited first, each once, and
      everything they depend on has been visited. */
  ghost predicate FindsNew(w: World, r: Walk, visited: set<string>) {
    && Distinct(r.found)
    && (forall n :: Named(r.found, n) <==> n in r.visited && n !in visited && w.Extends(n))
    && (forall i | 0 <= i < |r.found| ::
          w.Extends(r.found[i].name) && DepNames(Deps(w.resolved[r.found[i].name])) <= r.visited)
  }

  lemma NamedConcat(a: seq<Entry>, b: seq<Entry>, n: string)
    ensures Named(a + b, n) <==> Named(a, n) || Named(b, n)
  {
    if i :| 0 <= i < |a| && a[i].name == n { assert (a + b)[i] == a[i]; }
    if i :| 0 <= i < |b| && b[i].name == n { assert (a + b)[|a| + i] == b[i]; }
  }

  lemma DistinctConcat(a: seq<Entry>, b: seq<Entry>)
    requires Distinct(a) && Distinct(b) && forall n :: !(Named(a, n) && Named(b, n))
    ensures Distinct(a + b)
  {
    forall i, j | 0 <= i < |a + b| && i < j < |a + b|
      ensures (a + b)[i].name != (a + b)[j].name
    {
      if i < |a| <= j {
        assert Named(a, a[i].name) && Named(b, b[j - |a|].name);
      }
    }
  }

  lemma {:induction false} VisitFinds(w: World, roots: set<string>, d: Dependency, parent: Option<string>,
      visited: set<string>)
    requires w.Closed() && d.name in w.names
    ensures FindsNew(w, Visit(w, roots, d, parent, visited), visited)
    decreases w.names - visited, 0, 0
  {
    if d.name !in visited && w.Extends(d.name) {
      var inner := VisitAll(w, roots, Deps(w.resolved[d.name]), Some(d.name), visited + {d.name});
      VisitAllFinds(w, roots, Deps(w.resolved[d.name]), Some(d.name), visited + {d.name});
      var last := [Found(w, roots, d, parent)];
      assert Named(last, d.name) by { assert last[0].name == d.name; }
      forall n ensures Named(inner.found + last, n) <==> Named(inner.found, n) || n == d.name {
        NamedConcat(inner.found, last, n);
      }
      DistinctConcat(inner.found, last);
    }
  }

  lemma {:induction false} VisitAllFinds(w: World, roots: set<string>, ds: seq<Dependency>, parent: Option<string>,
      visited: set<string>)
    requires w.Closed() && DepNames(ds) <= w.names
    ensures FindsNew(w, VisitAll(w, roots, ds, parent, visited), visited)
    decreases w.names - visited, 1, |ds|
  {
    if ds != [] {
      assert ds[0].name in DepNames(ds) && DepNames(ds[1..]) <= DepNames(ds);
      var a := Visit(w, roots, ds[0], parent, visited);
      var b := VisitAll(w, roots, ds[1..], parent, a.visited);
      VisitFinds(w, roots, ds[0], parent, visited);
      VisitAllFinds(w, roots, ds[1..], parent, a.visited);
      forall n ensures Named(a.found + b.found, n) <==> Named(a.found, n) || Named(b.found, n) {
        NamedConcat(a.found, b.found, n);
      }
      DistinctConcat(a.found, b.found);
    }
  }

  /** Everything visited on the way was reachable. */
  lemma {:induction false} VisitReaches(w: World, roots: set<string>, d: Dependency, parent: Option<string>,
      visited: set<string>, n: string)
    requires w.Closed() && d.name in w.names && n in Visit(w, roots, d, parent, visited).visited && n !in visited
    ensures Reaches(w, d.name, n)
    decreases w.names - visited, 0, 0
  {
    if n == d.name {
      ReachesSelf(w, n);
    } else {
      VisitAllReaches(w, roots, Deps(w.resolved[d.name]), Some(d.name), visited + {d.name}, n);
      ReachesThrough(w, d.name, n);
    }
  }

  lemma {:induction false} VisitAllReaches(w: World, roots: set<string>, ds: seq<Dependency>, parent: Option<string>,
      visited: set<string>, n: string)
    requires w.Closed() && DepNames(ds) <= w.names
    requires n in VisitAll(w, roots, ds, parent, visited).visited && n !in visited
    ensures ReachesFrom(w, ds, n)
    decreases w.names - visited, 1, |ds|
  {
    assert ds[0].name in DepNames(ds) && DepNames(ds[1..]) <= DepNames(ds);
    var a := Visit(w, roots, ds[0], parent, visited);
    if n in a.visited {
      VisitReaches(w, roots, ds[0], parent, visited, n);
    } else {
      VisitAllReaches(w, roots, ds[1..], parent, a.visited, n);
      var i :| 0 <= i < |ds[1..]| && Reaches(w, ds[1..][i].name, n);
      assert ds[i + 1] == ds[1..][i];
    }
  }

  // ---------- order ----------

  /** The dependency v of the i-th entry is no extension, was visited before the walk, comes earlier, or
      leads back to the entry. */
  ghost predicate InOrder(w: World, found: seq<Entry>, visited: set<string>, i: nat, v: string)
    requires i < |found|
  {
    !w.Extends(v) || v in visited || Named(found[..i], v) || Reaches(w, v, found[i].name)
  }

  ghost predicate Ordered(w: World, found: seq<Entry>, visited: set<string>) {
    forall i, v | 0 <= i < |found| && w.Extends(found[i].name) && v in DepNames(Deps(w.resolved[found[i].name])) ::
      InOrder(w, found, visited, i, v)
  }

  lemma {:induction false} VisitOrdered(w: World, roots: set<string>, d: Dependency, parent: Option<string>,
      visited: set<string>)
    requires w.Closed() && d.name in w.names
    ensures Ordered(w, Visit(w, roots, d, parent, visited).found, visited)
    decreases w.names - visited, 0, 0
  {
    if d.name !in visited && w.Extends(d.name) {
      var ds, inside := Deps(w.resolved[d.name]), visited + {d.name};
      var inner := VisitAll(w, roots, ds, Some(d.name), inside);
      VisitAllFinds(w, roots, ds, Some(d.name), inside);
      VisitAllOrdered(w, roots, ds, Some(d.name), inside);
      var all := Visit(w, roots, d, parent, visited).found;
      forall i, v | 0 <= i < |all| && w.Extends(all[i].name) && v in DepNames(Deps(w.resolved[all[i].name]))
        ensures InOrder(w, all, visited, i, v)
      {
        if i < |inner.found| {
          assert all[..i] == inner.found[..i] && all[i] == inner.found[i];
          assert InOrder(w, inner.found, inside, i, v);
          if v == d.name {
            assert Named(inner.found, all[i].name);
            VisitAllReaches(w, roots, ds, Some(d.name), inside, all[i].name);
            ReachesThrough(w, d.name, all[i].name);
          }
        } else {
          assert all[..i] == inner.found;
          ReachesSelf(w, d.name);
        }
      }
    }
  }

  lemma {:induction false} VisitAllOrdered(w: World, roots: set<string>, ds: seq<Dependency>, parent: Option<string>,
      visited: set<string>)
    requires w.Closed() && DepNames(ds) <= w.names
    ensures Ordered(w, VisitAll(w, roots, ds, parent, visited).found, visited)
    decreases w.names - visited, 1, |ds|
  {
    if ds != [] {
      assert ds[0].name in DepNames(ds) && DepNames(ds[1..]) <= DepNames(ds);
      var a := Visit(w, roots, ds[0], parent, visited);
      var b := VisitAll(w, roots, ds[1..], parent, a.visited);
      VisitOrdered(w, roots, ds[0], parent, visited);
      VisitFinds(w, roots, ds[0], parent, visited);
      VisitAllOrdered(w, roots, ds[1..], parent, a.visited);
      var all := a.found + b.found;
      forall i, v | 0 <= i < |all| && w.Extends(all[i].name) && v in DepNames(Deps(w.resolved[all[i].name]))
        ensures InOrder(w, all, visited, i, v)
      {
        if i < |a.found| {
          assert all[..i] == a.found[..i] && all[i] == a.found[i];
          assert InOrder(w, a.found, visited, i, v);
        } else {
          var j := i - |a.found|;
          assert all[..i] == a.found + b.found[..j] && all[i] == b.found[j];
          assert InOrder(w, b.found, a.visited, j, v);
          NamedConcat(a.found, b.found[..j], v);
        }
      }
    }
  }

  // ---------- parents ----------

  /** An entry was found directly among ds, or through a package that comes later. */
  ghost predicate ParentOf(w: World, names: set<string>, found: seq<Entry>, parent: Option<string>, i: nat)
    requires i < |found|
  {
    (found[i].parent == parent && found[i].name in names) || exists j | i < j < |found| :: FoundThrough(w, found, i, j)
  }

  predicate FoundThrough(w: World, found: seq<Entry>, i: nat, j: nat)
    requires i < |found| && j < |found|
  {
    && found[i].parent == Some(found[j].name)
    && w.Extends(found[j].name)
    && found[i].name in DepNames(Deps(w.resolved[found[j].name]))
  }

  ghost predicate Parented(w: World, names: set<string>, found: seq<Entry>, parent: Option<string>) {
    forall i | 0 <= i < |found| :: ParentOf(w, names, found, parent, i)
  }

  lemma {:induction false} VisitParents(w: World, roots: set<string>, d: Dependency, parent: Option<string>,
      visited: set<string>)
    requires w.Closed() && d.name in w.names
    ensures Parented(w, {d.name}, Visit(w, roots, d, parent, visited).found, parent)
    decreases w.names - visited, 0, 0
  {
    if d.name !in visited && w.Extends(d.name) {
      var ds := Deps(w.resolved[d.name]);
      var inner := VisitAll(w, roots, ds, Some(d.name), visited + {d.name}).found;
      VisitAllParents(w, roots, ds, Some(d.name), visited + {d.name});
      var all := Visit(w, roots, d, parent, visited).found;
      forall i | 0 <= i < |all| ensures ParentOf(w, {d.name}, all, parent, i) {
        if i < |inner| {
          assert ParentOf(w, DepNames(ds), inner, Some(d.name), i) && all[i] == inner[i];
          if j :| i < j < |inner| && FoundThrough(w, inner, i, j) {
            assert FoundThrough(w, all, i, j);
          } else {
            assert FoundThrough(w, all, i, |inner|);
          }
        }
      }
    }
  }

  lemma {:induction false} VisitAllParents(w: World, roots: set<string>, ds: seq<Dependency>, parent: Option<string>,
      visited: set<string>)
    requires w.Closed() && DepNames(ds) <= w.names
    ensures Parented(w, DepNames(ds), VisitAll(w, roots, ds, parent, visited).found, parent)
    decreases w.names - visited, 1, |ds|
  {
    if ds != [] {
      assert ds[0].name in DepNames(ds) && DepNames(ds[1..]) <= DepNames(ds);
      var a := Visit(w, roots, ds[0], parent, visited);
      var b := VisitAll(w, roots, ds[1..], parent, a.visited);
      VisitParents(w, roots, ds[0], parent, visited);
      VisitAllParents(w, roots, ds[1..], parent, a.visited);
      var all := a.found + b.found;
      forall i | 0 <= i < |all| ensures ParentOf(w, DepNames(ds), all, parent, i) {
        if i < |a.found| {
          assert ParentOf(w, {ds[0].name}, a.found, parent, i) && all[i] == a.found[i];
          if j :| i < j < |a.found| && FoundThrough(w, a.found, i, j) {
            assert FoundThrough(w, all, i, j);
          }
        } else {
          var k := i - |a.found|;
          assert ParentOf(w, DepNames(ds[1..]), b.found, parent, k) && all[i] == b.found[k];
          if j :| k < j < |b.found| && FoundThrough(w, b.found, k, j) {
            assert FoundThrough(w, all, i, |a.found| + j);
          }
        }
      }
    }
  }

  /** Each entry records the installed version, its extensions and whether the root depends on it directly. */
  predicate Faithful(w: World, roots: set<string>, e: Entry) {
    && w.Extends(e.name)
    && e.version == w.resolved[e.name].version
    && e.extensions == w.resolved[e.name].theiaExtensions.value
    && e.transitive == (e.name !in roots)
  }

  lemma {:induction false} VisitFaithful(w: World, roots: set<string>, d: Dependency, parent: Option<string>,
      visited: set<string>)
    requires w.Closed() && d.name in w.names
    ensures forall i | 0 <= i < |Visit(w, roots, d, parent, visited).found| ::
              Faithful(w, roots, Visit(w, roots, d, parent, visited).found[i])
    decreases w.names - visited, 0, 0
  {
    if d.name !in visited && w.Extends(d.name) {
      VisitAllFaithful(w, roots, Deps(w.resolved[d.name]), Some(d.name), visited + {d.name});
    }
  }

  lemma {:induction false} VisitAllFaithful(w: World, roots: set<string>, ds: seq<Dependency>, parent: Option<string>,
      visited: set<string>)
    requires w.Closed() && DepNames(ds) <= w.names
    ensures forall i | 0 <= i < |VisitAll(w, roots, ds, parent, visited).found| ::
              Faithful(w, roots, VisitAll(w, roots, ds, parent, visited).found[i])
    decreases w.names - visited, 1, |ds|
  {
    if ds != [] {
      assert ds[0].name in DepNames(ds) && DepNames(ds[1..]) <= DepNames(ds);
      VisitFaithful(w, roots, ds[0], parent, visited);
      VisitAllFaithful(w, roots, ds[1..], parent, Visit(w, roots, ds[0], parent, visited).visited);
    }
  }

  // ---------- ranges ----------

  /** The entry's name and range are those of one of the dependencies. */
  predicate AskedBy(ds: seq<Dependency>, e: Entry) {
    exists k | 0 <= k < |ds| :: ds[k].name == e.name && ds[k].range == e.range
  }

  /** Its parent is an extension package that asks for it. */
  predicate AskedByParent(w: World, e: Entry) {
    e.parent.Some? && w.Extends(e.parent.value) && AskedBy(Deps(w.resolved[e.parent.value]), e)
  }

  lemma {:induction false} VisitRanges(w: World, roots: set<string>, d: Dependency, parent: Option<string>,
      visited: set<string>, i: nat)
    requires w.Closed() && d.name in w.names && i < |Visit(w, roots, d, parent, visited).found|
    ensures var e := Visit(w, roots, d, parent, visited).found[i];
            (e.parent == parent && e.name == d.name && e.range == d.range) || AskedByParent(w, e)
    decreases w.names - visited, 0, 0
  {
    if d.name !in visited && w.Extends(d.name) {
      var ds := Deps(w.resolved[d.name]);
      if i < |VisitAll(w, roots, ds, Some(d.name), visited + {d.name}).found| {
        VisitAllRanges(w, roots, ds, Some(d.name), visited + {d.name}, i);
      }
    }
  }

  lemma {:induction false} VisitAllRanges(w: World, roots: set<string>, ds: seq<Dependency>, parent: Option<string>,
      visited: set<string>, i: nat)
    requires w.Closed() && DepNames(ds) <= w.names && i < |VisitAll(w, roots, ds, parent, visited).found|
    ensures var e := VisitAll(w, roots, ds, parent, visited).found[i];
            (e.parent == parent && AskedBy(ds, e)) || AskedByParent(w, e)
    decreases w.names - visited, 1, |ds|
  {
    assert ds[0].name in DepNames(ds) && DepNames(ds[1..]) <= DepNames(ds);
    var a := Visit(w, roots, ds[0], parent, visited);
    if i < |a.found| {
      VisitRanges(w, roots, ds[0], parent, visited, i);
    } else {
      VisitAllRanges(w, roots, ds[1..], parent, a.visited, i - |a.found|);
      var e := VisitAll(w, roots, ds, parent, visited).found[i];
      if k :| 0 <= k < |ds[1..]| && ds[1..][k].name == e.name && ds[1..][k].range == e.range {
        assert ds[k + 1] == ds[1..][k];
      }
    }
  }

  // ---------- the collection from a root package ----------

  function Collected(w: World, root: NodePackage): seq<Entry>
    requires w.Closed() && DepNames(Deps(root)) <= w.names
  {
    VisitAll(w, DepNames(Deps(root)), Deps(root), None, {}).found
  }

  lemma {:induction false} ClosedUnderPaths(w: World, visited: set<string>, p: seq<string>)
    requires IsPath(w, p) && p[0] in visited
    requires forall n | n in visited && w.Extends(n) :: DepNames(Deps(w.resolved[n])) <= visited
    ensures p[|p| - 1] in visited
    decreases |p|
  {
    if |p| > 1 {
      var q := p[1..];
      forall i | 0 <= i < |q| - 1 ensures w.Extends(q[i]) && q[i + 1] in DepNames(Deps(w.resolved[q[i]])) {
        assert q[i] == p[i + 1] && q[i + 1] == p[i + 2];
      }
      ClosedUnderPaths(w, visited, q);
    }
  }

  /** Exactly the extension packages reachable from the root through extension packages, each once. */
  lemma CollectedExactly(w: World, root: NodePackage)
    requires w.Closed() && DepNames(Deps(root)) <= w.names
    ensures Distinct(Collected(w, root))
    ensures forall n :: Named(Collected(w, root), n) <==> w.Extends(n) && ReachesFrom(w, Deps(root), n)
    ensures forall i | 0 <= i < |Collected(w, root)| :: Faithful(w, DepNames(Deps(root)), Collected(w, root)[i])
  {
    var ds, roots := Deps(root), DepNames(Deps(root));
    var r := VisitAll(w, roots, ds, None, {});
    VisitAllFinds(w, roots, ds, None, {});
    VisitAllFaithful(w, roots, ds, None, {});
    forall n ensures Named(r.found, n) <==> w.Extends(n) && ReachesFrom(w, ds, n) {
      if Named(r.found, n) {
        VisitAllReaches(w, roots, ds, None, {}, n);
      }
      if w.Extends(n) && ReachesFrom(w, ds, n) {
        var i :| 0 <= i < |ds| && Reaches(w, ds[i].name, n);
        var p :| Between(w, p, ds[i].name, n);
        assert ds[i].name in roots;
        forall m | m in r.visited && w.Extends(m) ensures DepNames(Deps(w.resolved[m])) <= r.visited {
          assert Named(r.found, m);
        }
        ClosedUnderPaths(w, r.visited, p);
      }
    }
  }

  /** What makes a package count: it can be resolved, has a name and a version, and lists extensions. Of these
      exactly the reachable ones are collected. */
  lemma CollectedPackages(w: World, root: NodePackage, n: string)
    requires w.Closed() && DepNames(Deps(root)) <= w.names
    ensures Named(Collected(w, root), n) <==>
            && n in w.resolved && w.resolved[n].name != "" && w.resolved[n].version != ""
            && w.resolved[n].theiaExtensions.Some? && ReachesFrom(w, Deps(root), n)
  {
    CollectedExactly(w, root);
  }

  /** The recorded range is the one that the parent asks for, or the root where there is no parent. */
  lemma RangeRecorded(w: World, root: NodePackage, i: nat)
    requires w.Closed() && DepNames(Deps(root)) <= w.names && i < |Collected(w, root)|
    ensures var e := Collected(w, root)[i];
            if e.parent.None? then AskedBy(Deps(root), e) else AskedByParent(w, e)
  {
    VisitAllRanges(w, DepNames(Deps(root)), Deps(root), None, {}, i);
  }

  /** A dependency that is an extension package comes before its dependent, unless it leads back to it. */
  lemma TopologicalOrder(w: World, root: NodePackage, i: nat, v: string)
    requires w.Closed() && DepNames(Deps(root)) <= w.names && i < |Collected(w, root)|
    requires w.Extends(v) && w.Extends(Collected(w, root)[i].name)
    requires v in DepNames(Deps(w.resolved[Collected(w, root)[i].name]))
    ensures Named(Collected(w, root)[..i], v) || Reaches(w, v, Collected(w, root)[i].name)
  {
    VisitAllOrdered(w, DepNames(Deps(root)), Deps(root), None, {});
    assert InOrder(w, Collected(w, root), {}, i, v);
  }

  /** No extension package is reached from one of its own dependencies. */
  ghost predicate Acyclic(w: World) {
    forall u, v | w.Extends(u) && v in DepNames(Deps(w.resolved[u])) :: !Reaches(w, v, u)
  }

  /** Without cycles every dependency precedes its dependents. */
  lemma AcyclicOrder(w: World, root: NodePackage, i: nat, j: nat)
    requires w.Closed() && DepNames(Deps(root)) <= w.names && Acyclic(w)
    requires i < |Collected(w, root)| && j < |Collected(w, root)|
    requires w.Extends(Collected(w, root)[i].name)
    requires Collected(w, root)[j].name in DepNames(Deps(w.resolved[Collected(w, root)[i].name]))
    ensures j < i
  {
    CollectedExactly(w, root);
    var c := Collected(w, root);
    assert Named(c, c[j].name);
    TopologicalOrder(w, root, i, c[j].name);
    var k :| 0 <= k < |c[..i]| && c[..i][k].name == c[j].name;
    assert c[k].name == c[j].name;
  }

  // ---------- the dependent of a transitive package ----------

  /** The first index after i with the given name, or the length. */
  function LaterIndex(found: seq<Entry>, i: nat, n: string): (j: nat)
    requires i < |found|
    ensures i < j <= |found| && (j < |found| ==> found[j].name == n)
    ensures forall k | i < k < j :: found[k].name != n
    decreases |found| - i
  {
    if i + 1 == |found| || found[i + 1].name == n then i + 1 else LaterIndex(found, i + 1, n)
  }

  /** Following parents as far as they go. */
  function TopIndex(found: seq<Entry>, i: nat): (t: nat)
    requires i < |found|
    ensures i <= t < |found|
    decreases |found| - i
  {
    if found[i].parent.None? then i else
      var j := LaterIndex(found, i, found[i].parent.value);
      if j == |found| then i else TopIndex(found, j)
  }

  lemma {:induction false} TopReaches(w: World, roots: set<string>, found: seq<Entry>, i: nat)
    requires i < |found| && Parented(w, roots, found, None) && Distinct(found)
    ensures found[TopIndex(found, i)].parent == None && found[TopIndex(found, i)].name in roots
    ensures Reaches(w, found[TopIndex(found, i)].name, found[i].name)
    decreases |found| - i
  {
    assert ParentOf(w, roots, found, None, i);
    if found[i].parent.None? {
      ReachesSelf(w, found[i].name);
    } else {
      var j :| i < j < |found| && FoundThrough(w, found, i, j);
      var k := LaterIndex(found, i, found[j].name);
      assert k == j;
      TopReaches(w, roots, found, j);
      ReachesSnoc(w, found[TopIndex(found, j)].name, found[j].name, found[i].name);
    }
  }

  lemma ReachesSnoc(w: World, a: string, b: string, c: string)
    requires Reaches(w, a, b) && w.Extends(b) && c in DepNames(Deps(w.resolved[b]))
    ensures Reaches(w, a, c)
  {
    var p :| Between(w, p, a, b);
    var q := p + [c];
    forall j | 0 <= j < |q| - 1 ensures w.Extends(q[j]) && q[j + 1] in DepNames(Deps(w.resolved[q[j]])) {
      assert q[j] == p[j];
    }
    assert Between(w, q, a, c);
  }

  /** Following the parents of a transitive package ends at a direct dependency of the root, found
      after it, from which the package is reachable; its own parent exists. */
  lemma DependentIsDirect(w: World, root: NodePackage, i: nat)
    requires w.Closed() && DepNames(Deps(root)) <= w.names
    requires i < |Collected(w, root)| && Collected(w, root)[i].transitive
    ensures var c := Collected(w, root); var top := c[TopIndex(c, i)];
            && c[i].parent.Some? && i < TopIndex(c, i)
            && top.name in DepNames(Deps(root)) && !top.transitive && Reaches(w, top.name, c[i].name)
  {
    CollectedExactly(w, root);
    VisitAllParents(w, DepNames(Deps(root)), Deps(root), None, {});
    TopReaches(w, DepNames(Deps(root)), Collected(w, root), i);
  }

  /** Every package found through another one comes before it. */
  lemma ParentComesLater(w: World, root: NodePackage, i: nat)
    requires w.Closed() && DepNames(Deps(root)) <= w.names && i < |Collected(w, root)|
    ensures var c := Collected(w, root);
            c[i].parent.Some? ==> exists j | i < j < |c| :: FoundThrough(w, c, i, j)
  {
    VisitAllParents(w, DepNames(Deps(root)), Deps(root), None, {});
    assert ParentOf(w, DepNames(Deps(root)), Collected(w, root), None, i);
  }
}
