/** The tree of translations, a nested object that is filled in place. */
module Localizations {
  import opened Wrappers
  import opened GlobShapes

  datatype Value = Text(text: string) | Nested(node: Localization)

  class Localization {
    var entries: map<string, Value>

    constructor ()
      ensures entries == map[]
    {
      entries := map[];
    }
  }

  /** Which object lies at which path, and what the objects hold. */
  type Layout = map<seq<string>, Localization>
  type Contents = map<seq<string>, map<string, Value>>

  ghost function ContentsOf(at: Layout): Contents
    reads at.Values
  {
    map p | p in at :: at[p].entries
  }

  /** Different paths lead to different objects. */
  ghost predicate Injective(at: Layout) {
    forall p, q | p in at && q in at && at[p] == at[q] :: p == q
  }

  /** A path has an object below it under a key exactly where the layout has the longer path. */
  ghost predicate Linked(at: Layout, c: Contents) {
    && c.Keys == at.Keys
    && (forall p, k | p in c && k in c[p] && c[p][k].Nested? :: p + [k] in at && at[p + [k]] == c[p][k].node)
    && (forall p, k {:trigger p + [k] in at} | p + [k] in at :: p in c && k in c[p] && c[p][k] == Nested(at[p + [k]]))
  }

  /** The nested objects form a tree: the layout lists each of them once, under the keys that lead to it. */
  ghost predicate IsTree(root: Localization, at: Layout, c: Contents) {
    [] in at && at[[]] == root && Injective(at) && Linked(at, c)
  }

  /** Looking up a key: following its parts from an object down. */
  ghost function Find(at: Layout, n: Localization, parts: seq<string>): Option<Value>
    requires parts != []
    reads at.Values
  {
    if n !in at.Values || parts[0] !in n.entries then None
    else if |parts| == 1 then Some(n.entries[parts[0]])
    else if n.entries[parts[0]].Nested? then Find(at, n.entries[parts[0]].node, parts[1..])
    else None
  }

  function TextOf(v: Option<Value>): Option<string> {
    if v.Some? && v.value.Text? then Some(v.value.text) else None
  }

  /** What lies under a key of the object at a path. */
  ghost function Entry(c: Contents, p: seq<string>, k: string): Option<Value> {
    if p in c && k in c[p] then Some(c[p][k]) else None
  }

  /** What lies under a whole key. */
  ghost function EntryAt(c: Contents, q: seq<string>): Option<Value>
    requires q != []
  {
    Entry(c, q[..|q| - 1], q[|q| - 1])
  }

  /** Nothing lies below a path that the layout does not have. */
  lemma {:induction false} NothingBelow(at: Layout, c: Contents, p: seq<string>, q: seq<string>)
    requires Linked(at, c) && p !in at
    ensures p + q !in at
    decreases |q|
  {
    if q == [] {
      assert p + q == p;
    } else {
      var r := q[..|q| - 1];
      NothingBelow(at, c, p, r);
      assert p + q == (p + r) + [q[|q| - 1]];
    }
  }

  /** Following the parts finds what the layout says. */
  lemma {:induction false} FindIsEntry(at: Layout, p: seq<string>, q: seq<string>)
    requires Linked(at, ContentsOf(at)) && p in at && q != []
    ensures Find(at, at[p], q) == Entry(ContentsOf(at), p + q[..|q| - 1], q[|q| - 1])
    decreases |q|
  {
    if |q| == 1 {
      assert p + q[..0] == p;
    } else {
      var c := p + [q[0]];
      assert p + q[..|q| - 1] == c + q[1..][..|q| - 2];
      if q[0] in at[p].entries && at[p].entries[q[0]].Nested? {
        FindIsEntry(at, c, q[1..]);
      } else {
        assert c !in at;
        NothingBelow(at, ContentsOf(at), c, q[1..][..|q| - 2]);
      }
    }
  }

  /** In a tree, following a key from the root finds what lies under it. */
  lemma FindInTree(root: Localization, at: Layout, q: seq<string>)
    requires IsTree(root, at, ContentsOf(at)) && q != []
    ensures Find(at, root, q) == EntryAt(ContentsOf(at), q)
  {
    FindIsEntry(at, [], q);
    assert [] + q[..|q| - 1] == q[..|q| - 1];
  }

  lemma SnocInjective(q: seq<string>, k: string, p: seq<string>, j: string)
    ensures q + [k] == p + [j] ==> q == p && k == j
  {
    assert (q + [k])[..|q|] == q && (p + [j])[..|p|] == p;
  }

  function SetEntry(c: Contents, p: seq<string>, k: string, v: Value): Contents
    requires p in c
  {
    c[p := c[p][k := v]]
  }

  /** Hanging a new empty object into a tree leaves a tree with the same texts. */
  lemma Attached(at: Layout, c: Contents, p: seq<string>, part: string, entry: Localization)
    requires Linked(at, c) && Injective(at) && p in at && part !in c[p] && entry !in at.Values
    ensures p + [part] !in at
    ensures var now := SetEntry(c, p, part, Nested(entry))[p + [part] := map[]];
            && Injective(at[p + [part] := entry]) && Linked(at[p + [part] := entry], now)
            && forall q, k :: TextOf(Entry(now, q, k)) == TextOf(Entry(c, q, k))
  {
    assert p + [part] !in at;
    var now: Contents := SetEntry(c, p, part, Nested(entry))[p + [part] := map[]];
    forall q, k ensures TextOf(Entry(now, q, k)) == TextOf(Entry(c, q, k)) {
      SameTextAttached(c, p, part, entry, q, k);
    }
    AttachedLinks(at, c, p, part, entry);
  }

  lemma SameTextAttached(c: Contents, p: seq<string>, part: string, entry: Localization, q: seq<string>, k: string)
    requires p in c && part !in c[p] && p + [part] !in c
    ensures TextOf(Entry(SetEntry(c, p, part, Nested(entry))[p + [part] := map[]], q, k)) == TextOf(Entry(c, q, k))
  {
  }

  lemma AttachedLinks(at: Layout, c: Contents, p: seq<string>, part: string, entry: Localization)
    requires Linked(at, c) && p in at && part !in c[p] && p + [part] !in at
    ensures Linked(at[p + [part] := entry], SetEntry(c, p, part, Nested(entry))[p + [part] := map[]])
  {
    var more := at[p + [part] := entry];
    var now: Contents := SetEntry(c, p, part, Nested(entry))[p + [part] := map[]];
    forall q: seq<string>, k: string | q in now && k in now[q] && now[q][k].Nested?
      ensures q + [k] in more && more[q + [k]] == now[q][k].node
    {
      SnocInjective(q, k, p, part);
      if q != p || k != part {
        assert q in c && k in c[q];
        assert q + [k] in at;
      }
    }
    forall q, k {:trigger q + [k] in more} | q + [k] in more
      ensures q in now && k in now[q] && now[q][k] == Nested(more[q + [k]])
    {
      SnocInjective(q, k, p, part);
      if q + [k] != p + [part] {
        assert q + [k] in at;
      }
    }
  }

  /** Writing a text where there is no nested object leaves a tree. */
  lemma Written(at: Layout, c: Contents, p: seq<string>, part: string, value: string)
    requires Linked(at, c) && p in at && !(part in c[p] && c[p][part].Nested?)
    ensures Linked(at, SetEntry(c, p, part, Text(value)))
  {
    var now: Contents := SetEntry(c, p, part, Text(value));
    forall q, k {:trigger q + [k] in at} | q + [k] in at
      ensures q in now && k in now[q] && now[q][k] == Nested(at[q + [k]])
    {
      assert c[q][k].Nested?;
    }
  }

  /** Writing to the object at one path changes the contents at that path only. */
  lemma Overwritten(at: Layout, c: Contents, p: seq<string>, cur: Localization)
    requires Injective(at) && c.Keys == at.Keys && p in at && at[p] == cur
    requires forall q | q in at && at[q] != cur :: at[q].entries == c[q]
    ensures ContentsOf(at) == c[p := cur.entries]
  {
  }

  lemma ContentsOfMore(at: Layout, p: seq<string>, n: Localization)
    ensures ContentsOf(at[p := n]) == ContentsOf(at)[p := n.entries]
  {
  }

  /** The object under a key, created when there is none yet. */
  method Descend(ghost root: Localization, ghost at: Layout, ghost p: seq<string>, cur: Localization, part: string)
    returns (entry: Localization, ghost now: Layout)
    requires IsTree(root, at, ContentsOf(at)) && p in at && at[p] == cur
    requires part in cur.entries ==> cur.entries[part].Nested?
    modifies cur
    ensures IsTree(root, now, ContentsOf(now)) && p + [part] in now && now[p + [part]] == entry
    ensures part in old(cur.entries) ==> now == at && ContentsOf(at) == old(ContentsOf(at))
    ensures part !in old(cur.entries) ==> p + [part] !in at && now == at[p + [part] := entry]
    ensures part !in old(cur.entries) ==> fresh(entry) && entry.entries == map[]
    ensures forall q, k :: TextOf(Entry(ContentsOf(now), q, k)) == TextOf(Entry(old(ContentsOf(at)), q, k))
  {
    now := at;
    ghost var c := ContentsOf(at);
    if part in cur.entries {
      entry := cur.entries[part].node;
      cur.entries := cur.entries[part := Nested(entry)];
      assert cur.entries == old(cur.entries);
      Overwritten(at, c, p, cur);
      assert ContentsOf(at) == c;
    } else {
      entry := new Localization();
      Attached(at, c, p, part, entry);
      hide Linked, Injective, ContentsOf;
      now := now[p + [part] := entry];
      cur.entries := cur.entries[part := Nested(entry)];
      Overwritten(at, c, p, cur);
      ContentsOfMore(at, p + [part], entry);
      assert cur.entries == c[p][part := Nested(entry)];
    }
  }

  lemma OthersStay(c: Contents, p: seq<string>, k: string, v: Value)
    requires p in c
    ensures EntryAt(SetEntry(c, p, k, v), p + [k]) == Some(v)
    ensures forall q | q != [] && q != p + [k] :: EntryAt(SetEntry(c, p, k, v), q) == EntryAt(c, q)
  {
    forall q | q != [] && q != p + [k] ensures EntryAt(SetEntry(c, p, k, v), q) == EntryAt(c, q) {
      assert q == q[..|q| - 1] + [q[|q| - 1]];
    }
  }

  /** Writes a text; whatever lies under another key stays. */
  method SetText(ghost root: Localization, ghost at: Layout, ghost p: seq<string>, cur: Localization, part: string,
      value: string)
    requires IsTree(root, at, ContentsOf(at)) && p in at && at[p] == cur
    requires part in cur.entries ==> cur.entries[part].Text?
    modifies cur
    ensures IsTree(root, at, ContentsOf(at)) && EntryAt(ContentsOf(at), p + [part]) == Some(Text(value))
    ensures forall q | q != [] && q != p + [part] :: EntryAt(ContentsOf(at), q) == EntryAt(old(ContentsOf(at)), q)
  {
    ghost var c := ContentsOf(at);
    Written(at, c, p, part, value);
    hide Linked, Injective, ContentsOf;
    cur.entries := cur.entries[part := Text(value)];
    Overwritten(at, c, p, cur);
    assert ContentsOf(at) == SetEntry(c, p, part, Text(value));
    OthersStay(c, p, part, Text(value));
  }

  /** What stops an insertion: a string on the way, or a nested object where the string would go. */
  ghost predicate Blocked(c: Contents, parts: seq<string>)
    requires parts != []
  {
    || (exists j | 0 < j < |parts| :: TextOf(EntryAt(c, parts[..j])).Some?)
    || (EntryAt(c, parts).Some? && EntryAt(c, parts).value.Nested?)
  }

  /** None of the first i proper prefixes holds a text. */
  ghost predicate ClearTo(c: Contents, parts: seq<string>, i: nat)
    requires i <= |parts|
  {
    forall j | 0 < j <= i :: TextOf(EntryAt(c, parts[..j])).None?
  }

  lemma ClearNext(c: Contents, parts: seq<string>, i: nat)
    requires i < |parts| && ClearTo(c, parts, i) && TextOf(EntryAt(c, parts[..i + 1])).None?
    ensures ClearTo(c, parts, i + 1)
  {
  }

  lemma ClearStops(c: Contents, parts: seq<string>, i: nat, n: nat)
    requires i < n <= |parts| && TextOf(EntryAt(c, parts[..i + 1])).Some?
    ensures !ClearTo(c, parts, n)
  {
  }

  /** The objects are those that were there and those on the way to p. */
  ghost predicate Grown(at: Layout, now: Layout, p: seq<string>) {
    forall q :: q in now <==> q in at || q <= p
  }

  lemma GrownNext(at: Layout, was: Layout, now: Layout, p: seq<string>, k: string)
    requires Grown(at, was, p) && now.Keys == was.Keys + {p + [k]}
    ensures Grown(at, now, p + [k])
  {
    assert (p + [k])[..|p| + 1] == p + [k];
    forall q: seq<string> ensures q in now <==> q in at || q <= p + [k] {
      assert q in now <==> q in was || q == p + [k];
      assert q in was <==> q in at || q <= p;
      if q <= p + [k] {
        assert q == (p + [k])[..|q|];
        assert |q| <= |p| ==> q == p[..|q|];
      }
      if q <= p {
        assert q == p[..|q|] == (p + [k])[..|q|];
      }
    }
  }

  /** The walk has reached p: no text has changed, and either nothing has, or p is new and empty. */
  ghost predicate Arrived(at: Layout, before: Contents, now: Layout, after: Contents, p: seq<string>) {
    && p in now && p in after && Grown(at, now, p)
    && ((now == at && after == before) || (p !in at && after[p] == map[]))
    && forall q, k :: TextOf(Entry(after, q, k)) == TextOf(Entry(before, q, k))
  }

  /** One step down keeps what the walk has to keep. */
  lemma ArrivedNext(at: Layout, before: Contents, was: Layout, during: Contents, now: Layout, after: Contents,
      p: seq<string>, k: string)
    requires Arrived(at, before, was, during, p) && now.Keys == was.Keys + {p + [k]} && p + [k] in after
    requires p + [k] in was ==> now == was && after == during && k in during[p]
    requires p + [k] !in was ==> after[p + [k]] == map[]
    requires forall q, j :: TextOf(Entry(after, q, j)) == TextOf(Entry(during, q, j))
    ensures Arrived(at, before, now, after, p + [k])
  {
    GrownNext(at, was, now, p, k);
    assert p + [k] !in was ==> p + [k] !in at by {
      assert Grown(at, was, p);
    }
  }

  lemma Held(at: Layout, p: seq<string>)
    requires p in at
    ensures p in ContentsOf(at) && ContentsOf(at)[p] == at[p].entries
  {
  }

  /** A text met on the walk was there before, and then nothing has changed so far. */
  lemma TextOnTheWay(at: Layout, before: Contents, now: Layout, after: Contents, p: seq<string>, k: string)
    requires Arrived(at, before, now, after, p) && p in after
    ensures k in after[p] && after[p][k].Text? <==> TextOf(EntryAt(before, p + [k])).Some?
    ensures k in after[p] ==> now == at && after == before
  {
    hide Grown;
    assert (p + [k])[..|p|] == p;
    assert TextOf(Entry(after, p, k)) == TextOf(Entry(before, p, k));
  }

  lemma ObjectsOf(was: Layout, now: Layout, p: seq<string>, n: Localization)
    requires now == was || now == was[p := n]
    ensures now.Values <= was.Values + {n}
  {
  }

  lemma ObjectBelow(root: Localization, at: Layout, c: Contents, p: seq<string>, k: string)
    requires IsTree(root, at, c) && p in c
    ensures k in c[p] && c[p][k].Nested? <==> p + [k] in at
  {
    hide Injective;
  }

  /** One step of the walk. */
  method NextObject(ghost root: Localization, ghost at: Layout, ghost before: Contents, ghost was: Layout,
      ghost p: seq<string>, cur: Localization, part: string)
    returns (entry: Localization, ghost now: Layout)
    requires IsTree(root, was, ContentsOf(was)) && p in was && was[p] == cur
    requires Arrived(at, before, was, ContentsOf(was), p)
    requires part in cur.entries ==> cur.entries[part].Nested?
    modifies cur
    ensures IsTree(root, now, ContentsOf(now)) && p + [part] in now && now[p + [part]] == entry
    ensures Arrived(at, before, now, ContentsOf(now), p + [part])
    ensures (entry in was.Values || fresh(entry)) && now.Values <= was.Values + {entry}
  {
    hide Arrived, IsTree, ContentsOf, TextOf, Entry;
    ghost var during := ContentsOf(was);
    Held(was, p);
    ObjectBelow(root, was, during, p, part);
    entry, now := Descend(root, was, p, cur, part);
    Held(now, p + [part]);
    ArrivedNext(at, before, was, during, now, ContentsOf(now), p, part);
    ObjectsOf(was, now, p + [part], entry);
    assert now == was ==> entry in was.Values;
  }

  /** The loop over all parts but the last: goes down, creating objects, until a text is in the way. */
  method WalkDown(root: Localization, ghost at: Layout, parts: seq<string>)
    returns (ok: bool, cur: Localization, ghost now: Layout)
    requires parts != [] && IsTree(root, at, ContentsOf(at))
    modifies at.Values
    ensures IsTree(root, now, ContentsOf(now)) && ok == ClearTo(old(ContentsOf(at)), parts, |parts| - 1)
    ensures !ok ==> now == at && ContentsOf(at) == old(ContentsOf(at))
    ensures ok ==> Arrived(at, old(ContentsOf(at)), now, ContentsOf(now), parts[..|parts| - 1])
    ensures ok ==> now[parts[..|parts| - 1]] == cur
    ensures cur in at.Values || fresh(cur)
    ensures fresh(now.Values - at.Values)
  {
    cur := root;
    now := at;
    ghost var before := ContentsOf(at);
    assert Grown(at, at, []) && ClearTo(before, parts, 0);
    assert Arrived(at, before, now, before, parts[..0]);
    for i := 0 to |parts| - 1
      invariant IsTree(root, now, ContentsOf(now)) && Arrived(at, before, now, ContentsOf(now), parts[..i])
      invariant parts[..i] in now && now[parts[..i]] == cur && (cur in at.Values || fresh(cur))
      invariant fresh(now.Values - at.Values)
      invariant ClearTo(before, parts, i)
    {
      hide *;
      var part := parts[i];
      ghost var p, next := parts[..i], parts[..i + 1];
      assert next == p + [part];
      Held(now, p);
      TextOnTheWay(at, before, now, ContentsOf(now), p, part);
      if part in cur.entries && cur.entries[part].Text? {
        ClearStops(before, parts, i, |parts| - 1);
        return false, cur, now;
      }
      ClearNext(before, parts, i);
      cur, now := NextObject(root, at, before, now, p, cur, part);
    }
    return true, cur, now;
  }

  /** Inserts a text, creating the objects on its way; false stands for the thrown error. */
  method Insert(root: Localization, ghost at: Layout, parts: seq<string>, value: string)
    returns (ok: bool, ghost now: Layout)
    requires parts != [] && IsTree(root, at, ContentsOf(at))
    modifies at.Values
    ensures IsTree(root, now, ContentsOf(now)) && ok == !Blocked(old(ContentsOf(at)), parts)
    ensures ok ==> EntryAt(ContentsOf(now), parts) == Some(Text(value))
    ensures ok ==> forall q | q != [] && q != parts ::
                     TextOf(EntryAt(ContentsOf(now), q)) == TextOf(EntryAt(old(ContentsOf(at)), q))
    ensures !ok ==> now == at && ContentsOf(at) == old(ContentsOf(at))
    ensures ok ==> forall q :: q in now <==> q in at || q < parts
    ensures fresh(now.Values - at.Values)
  {
    hide Injective, Linked;
    ghost var before := ContentsOf(at);
    var last := |parts| - 1;
    var part := parts[last];
    ghost var p := parts[..last];
    assert parts == p + [part];
    var cur;
    ok, cur, now := WalkDown(root, at, parts);
    if !ok {
      assert exists j | 0 < j < |parts| :: TextOf(EntryAt(before, parts[..j])).Some?;
      return;
    }
    if part in cur.entries && cur.entries[part].Nested? {
      assert EntryAt(before, parts) == Some(cur.entries[part]);
      return false, now;
    }
    assert p in before ==> now == at && ContentsOf(at) == before;
    SetText(root, now, p, cur, part, value);
  }

  // ---------- whole keys ----------

  /** A key is its parts, separated by slashes. */
  function Parts(key: string): (parts: seq<string>)
    ensures parts != []
  {
    SplitOn(key, '/')
  }

  /** At every slash a key falls into the parts before it and those behind it. */
  lemma PartsConcat(a: string, b: string)
    ensures Parts(a + "/" + b) == Parts(a) + Parts(b)
  {
    SplitOnConcat(a, b, '/');
  }

  /** Without a slash a key is its only part. */
  lemma PartsAlone(a: string)
    requires '/' !in a
    ensures Parts(a) == [a]
  {
    SplitOnAlone(a, '/');
  }

  lemma PartsInjective(a: string, b: string)
    requires Parts(a) == Parts(b)
    ensures a == b
  {
    JoinSplitOn(a, '/');
    JoinSplitOn(b, '/');
  }

  /** After a successful insertion the key is found with its value, and no other key changed its text. */
  method InsertKey(root: Localization, ghost at: Layout, key: string, value: string)
    returns (ok: bool, ghost now: Layout)
    requires IsTree(root, at, ContentsOf(at))
    modifies at.Values
    ensures IsTree(root, now, ContentsOf(now)) && ok == !Blocked(old(ContentsOf(at)), Parts(key))
    ensures ok ==> Find(now, root, Parts(key)) == Some(Text(value))
    ensures ok ==> forall other | other != key ::
                     TextOf(Find(now, root, Parts(other))) == old(TextOf(Find(at, root, Parts(other))))
    ensures !ok ==> now == at && ContentsOf(at) == old(ContentsOf(at))
    ensures ok ==> forall q :: q in now <==> q in at || q < Parts(key)
    ensures fresh(now.Values - at.Values)
  {
    forall other ensures Find(at, root, Parts(other)) == EntryAt(ContentsOf(at), Parts(other)) {
      FindInTree(root, at, Parts(other));
    }
    ok, now := Insert(root, at, Parts(key), value);
    forall other ensures Find(now, root, Parts(other)) == EntryAt(ContentsOf(now), Parts(other)) {
      FindInTree(root, now, Parts(other));
    }
    forall other | other != key ensures Parts(other) != Parts(key) {
      if Parts(other) == Parts(key) { PartsInjective(other, key); }
    }
  }

  // ---------- a whole file ----------

  /** The texts under whole keys, by the parts of the keys. */
  type Texts = map<seq<string>, string>

  /** One key leads through the other. */
  predicate Clash(p: seq<string>, q: seq<string>) {
    p < q || q < p
  }

  predicate ClashesWith(m: Texts, p: seq<string>) {
    exists q | q in m :: Clash(p, q)
  }

  /** The first of two clashing keys stays; of two equal keys the last text stays. */
  function Inserted(es: seq<(string, string)>): Texts {
    if es == [] then map[] else
      var m, e := Inserted(es[..|es| - 1]), es[|es| - 1];
      if ClashesWith(m, Parts(e.0)) then m else m[Parts(e.0) := e.1]
  }

  /** The keys for which an error is reported. */
  function Rejected(es: seq<(string, string)>): seq<string> {
    if es == [] then [] else
      var e := es[|es| - 1];
      Rejected(es[..|es| - 1]) + if ClashesWith(Inserted(es[..|es| - 1]), Parts(e.0)) then [e.0] else []
  }

  /** One more key: reported when it leads through a key that is there or the other way round, and otherwise
      stored with its text; nothing else changes. */
  lemma OneMoreKey(es: seq<(string, string)>, key: string, text: string)
    ensures var more, p := es + [(key, text)], Parts(key);
            if exists q | q in Inserted(es) :: p < q || q < p
            then Rejected(more) == Rejected(es) + [key] && Inserted(more) == Inserted(es)
            else Rejected(more) == Rejected(es) && Inserted(more) == Inserted(es)[p := text]
  {
    var more := es + [(key, text)];
    assert more[..|more| - 1] == es;
    assert ClashesWith(Inserted(es), Parts(key)) <==>
           exists q | q in Inserted(es) :: Parts(key) < q || q < Parts(key) by {
      assert forall q :: Clash(Parts(key), q) <==> Parts(key) < q || q < Parts(key);
    }
  }

  /** The tree holds exactly these texts, and no object without a text below it. */
  ghost predicate Represents(at: Layout, c: Contents, m: Texts) {
    && [] !in m
    && (forall q | q != [] :: TextOf(EntryAt(c, q)) == if q in m then Some(m[q]) else None)
    && (forall q :: q in at <==> q == [] || exists r | r in m :: q < r)
  }

  /** A key is blocked exactly when it clashes. */
  lemma BlockedIsClash(at: Layout, c: Contents, m: Texts, p: seq<string>)
    requires Linked(at, c) && Represents(at, c, m) && p != []
    ensures Blocked(c, p) <==> ClashesWith(m, p)
  {
    NestedIsObject(at, c, p);
    hide Linked, EntryAt, TextOf;
    if j :| 0 < j < |p| && TextOf(EntryAt(c, p[..j])).Some? {
      assert p[..j] in m && Clash(p, p[..j]);
    }
    if p in at {
      var r :| r in m && p < r;
      assert Clash(p, r);
    }
    if q :| q in m && Clash(p, q) {
      if q < p {
        assert p[..|q|] == q && TextOf(EntryAt(c, q)).Some?;
      }
    }
  }

  lemma NestedIsObject(at: Layout, c: Contents, p: seq<string>)
    requires Linked(at, c) && p != []
    ensures (EntryAt(c, p).Some? && EntryAt(c, p).value.Nested?) <==> p in at
  {
    assert p == p[..|p| - 1] + [p[|p| - 1]];
  }

  lemma RepresentsMore(at: Layout, now: Layout, before: Contents, after: Contents, m: Texts, p: seq<string>,
      value: string)
    requires Represents(at, before, m) && p != []
    requires EntryAt(after, p) == Some(Text(value))
    requires forall q | q != [] && q != p :: TextOf(EntryAt(after, q)) == TextOf(EntryAt(before, q))
    requires forall q :: q in now <==> q in at || q < p
    ensures Represents(now, after, m[p := value])
  {
    var more := m[p := value];
    forall q ensures q in now <==> q == [] || exists r | r in more :: q < r {
      if q < p {
        assert p in more;
      }
      if r :| r in m && q < r {
        assert r in more;
      }
    }
  }

  /** Inserting the keys of a file one after the other; an error leaves its key out. */
  method InsertAll(es: seq<(string, string)>) returns (root: Localization, errors: seq<string>, ghost at: Layout)
    ensures IsTree(root, at, ContentsOf(at)) && fresh(at.Values)
    ensures errors == Rejected(es)
    ensures Represents(at, ContentsOf(at), Inserted(es))
    ensures forall key ::
              TextOf(Find(at, root, Parts(key))) ==
              if Parts(key) in Inserted(es) then Some(Inserted(es)[Parts(key)]) else None
  {
    hide Linked, Injective, Blocked, Represents, ClashesWith;
    root := new Localization();
    at := map[[] := root];
    EmptyTree(root, at);
    errors := [];
    for i := 0 to |es|
      invariant IsTree(root, at, ContentsOf(at)) && fresh(at.Values)
      invariant errors == Rejected(es[..i]) && Represents(at, ContentsOf(at), Inserted(es[..i]))
    {
      var parts := Parts(es[i].0);
      ghost var before, was := ContentsOf(at), at;
      BlockedIsClash(at, before, Inserted(es[..i]), parts);
      assert es[..i + 1][..i] == es[..i];
      var ok;
      ok, at := Insert(root, at, parts, es[i].1);
      if ok {
        RepresentsMore(was, at, before, ContentsOf(at), Inserted(es[..i]), parts, es[i].1);
      } else {
        errors := errors + [es[i].0];
      }
    }
    assert es[..|es|] == es;
    forall key
      ensures TextOf(Find(at, root, Parts(key))) ==
              if Parts(key) in Inserted(es) then Some(Inserted(es)[Parts(key)]) else None
    {
      FindInTree(root, at, Parts(key));
      TextUnder(at, ContentsOf(at), Inserted(es), Parts(key));
    }
  }

  lemma TextUnder(at: Layout, c: Contents, m: Texts, q: seq<string>)
    requires Represents(at, c, m) && q != []
    ensures TextOf(EntryAt(c, q)) == if q in m then Some(m[q]) else None
  {
  }

  lemma EmptyTree(root: Localization, at: Layout)
    requires at == map[[] := root] && root.entries == map[]
    ensures IsTree(root, at, ContentsOf(at)) && Represents(at, ContentsOf(at), map[])
  {
  }

  predicate ClashFree(m: Texts) {
    forall p, q | p in m && q in m :: !Clash(p, q)
  }

  lemma {:induction false} InsertedClashFree(es: seq<(string, string)>)
    ensures ClashFree(Inserted(es))
    ensures forall p | p in Inserted(es) :: exists i | 0 <= i < |es| :: Parts(es[i].0) == p
  {
    if es != [] {
      var before := es[..|es| - 1];
      InsertedClashFree(before);
      forall p | p in Inserted(es) ensures exists i | 0 <= i < |es| :: Parts(es[i].0) == p {
        if p in Inserted(before) {
          var i :| 0 <= i < |before| && Parts(before[i].0) == p;
          assert Parts(es[i].0) == p;
        } else {
          assert Parts(es[|es| - 1].0) == p;
        }
      }
    }
  }

  predicate NoneClash(es: seq<(string, string)>) {
    forall i, j | 0 <= i < |es| && 0 <= j < |es| :: !Clash(Parts(es[i].0), Parts(es[j].0))
  }

  lemma {:induction false} AllStored(es: seq<(string, string)>)
    requires Rejected(es) == []
    ensures forall i | 0 <= i < |es| :: Parts(es[i].0) in Inserted(es)
  {
    hide Parts, ClashesWith;
    if es != [] {
      var before, e := es[..|es| - 1], es[|es| - 1];
      AllStored(before);
      assert Inserted(es) == Inserted(before)[Parts(e.0) := e.1];
      hide Inserted, Rejected;
      forall i | 0 <= i < |es| ensures Parts(es[i].0) in Inserted(es) {
        assert i < |before| ==> before[i] == es[i];
      }
    }
  }

  lemma {:induction false} NothingRejected(es: seq<(string, string)>)
    requires NoneClash(es)
    ensures Rejected(es) == []
  {
    if es != [] {
      var before, p := es[..|es| - 1], Parts(es[|es| - 1].0);
      assert NoneClash(before);
      NothingRejected(before);
      InsertedClashFree(before);
      forall q | q in Inserted(before) ensures !Clash(p, q) {
        var i :| 0 <= i < |before| && Parts(before[i].0) == q;
        assert q == Parts(es[i].0);
      }
    }
  }

  /** A file is taken without an error iff no key of it leads through another, in whatever order they come. */
  lemma NoErrorExactly(es: seq<(string, string)>)
    ensures Rejected(es) == [] <==> NoneClash(es)
  {
    if Rejected(es) == [] {
      AllStored(es);
      InsertedClashFree(es);
    }
    if NoneClash(es) {
      NothingRejected(es);
    }
  }

  /** Every key taken has the last of its texts that was taken. */
  lemma {:induction false} LastTextWins(es: seq<(string, string)>, i: nat)
    requires i < |es| && NoneClash(es) && forall j | i < j < |es| :: Parts(es[j].0) != Parts(es[i].0)
    ensures Parts(es[i].0) in Inserted(es) && Inserted(es)[Parts(es[i].0)] == es[i].1
  {
    NothingRejected(es);
    var before := es[..|es| - 1];
    if i < |before| {
      assert NoneClash(before) && before[i] == es[i];
      LastTextWins(before, i);
    }
  }
}
