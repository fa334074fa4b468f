/** The registry client: an index of promised views that is kept while requests are under way. */
module NpmRegistry {
  import opened Wrappers

  datatype Outcome = Pending | Fulfilled | Rejected

  /** A request that was sent: for which package, to which registry, and whether its rejection was handled. */
  datatype Promised = Promised(name: string, registry: string, outcome: Outcome, handled: bool)

  datatype Options = Options(watchChanges: bool, defaultRegistry: string)

  /** The index points into the promises; the streams record which change streams are still open. */
  datatype State = State(
    registry: string, index: map<string, nat>, promises: seq<Promised>, changes: Option<nat>, streams: seq<bool>)

  datatype Event =
    | UpdateProps(registry: Option<string>)
    | View(name: string)
    | Change(stream: nat, name: string)
    | Settle(promise: nat, ok: bool)
    | HandleRejection(promise: nat)

  function CloseStream(s: State): seq<bool> {
    if s.changes.Some? && s.changes.value < |s.streams| then s.streams[s.changes.value := false] else s.streams
  }

  function ResetIndex(s: State, o: Options): State {
    if o.watchChanges && s.registry == o.defaultRegistry then
      s.(index := map[], changes := Some(|s.streams|), streams := CloseStream(s) + [true])
    else s.(index := map[])
  }

  function ViewNext(s: State, name: string): State {
    if name in s.index then s
    else
      var promised := Promised(name, s.registry, Pending, false);
      s.(index := s.index[name := |s.promises|], promises := s.promises + [promised])
  }

  function InvalidateNext(s: State, name: string): State {
    if name in s.index then ViewNext(s.(index := s.index - {name}), name) else s
  }

  function Next(s: State, o: Options, e: Event): State {
    match e
    case UpdateProps(r) =>
      if r.Some? && r.value != s.registry then ResetIndex(s.(registry := r.value), o) else s
    case View(name) => ViewNext(s, name)
    case Change(stream, name) =>
      if stream < |s.streams| && s.streams[stream] then InvalidateNext(s, name) else s
    case Settle(p, ok) =>
      if p < |s.promises| && s.promises[p].outcome == Pending then
        s.(promises := s.promises[p := s.promises[p].(outcome := if ok then Fulfilled else Rejected)])
      else s
    case HandleRejection(p) =>
      if p < |s.promises| && s.promises[p].outcome == Rejected && !s.promises[p].handled then
        s.(index := s.index - {s.promises[p].name}, promises := s.promises[p := s.promises[p].(handled := true)])
      else s
  }

  function Run(s: State, o: Options, es: seq<Event>): State
    decreases |es|
  {
    if es == [] then s else Run(Next(s, o, es[0]), o, es[1..])
  }

  function Initial(o: Options, registry: string): State {
    ResetIndex(State(registry, map[], [], None, []), o)
  }

  /** An indexed promise was requested for its own name from the current registry, and it is not a
      rejected one whose handler has run. */
  predicate IndexedWell(s: State, name: string)
    requires name in s.index
  {
    var p := s.index[name];
    p < |s.promises| && s.promises[p].name == name && s.promises[p].registry == s.registry &&
    !(s.promises[p].outcome == Rejected && s.promises[p].handled)
  }

  /** At most one change stream is open, the one that is kept. */
  predicate OneStream(s: State) {
    forall i | 0 <= i < |s.streams| :: s.streams[i] ==> s.changes == Some(i)
  }

  ghost predicate Inv(s: State) {
    && OneStream(s)
    && (forall p | 0 <= p < |s.promises| :: s.promises[p].handled ==> s.promises[p].outcome == Rejected)
    && forall name | name in s.index :: IndexedWell(s, name)
  }

  lemma NextKeepsInv(s: State, o: Options, e: Event)
    requires Inv(s)
    ensures Inv(Next(s, o, e))
  {
    var t := Next(s, o, e);
    forall name | name in t.index ensures IndexedWell(t, name) {
      if name in s.index {
        assert IndexedWell(s, name);
      }
    }
  }

  lemma {:induction false} RunKeepsInv(s: State, o: Options, es: seq<Event>)
    requires Inv(s)
    ensures Inv(Run(s, o, es))
    decreases |es|
  {
    if es != [] {
      NextKeepsInv(s, o, es[0]);
      RunKeepsInv(Next(s, o, es[0]), o, es[1..]);
    }
  }

  /** In every interleaving of calls, changes and settlements the index is well kept. */
  lemma IndexAlwaysWell(o: Options, registry: string, es: seq<Event>)
    ensures var s := Run(Initial(o, registry), o, es);
            OneStream(s) && forall name | name in s.index :: IndexedWell(s, name)
  {
    RunKeepsInv(Initial(o, registry), o, es);
  }

  /** A request that was sent is never sent for another name or registry, and never forgotten. */
  lemma {:induction false} RequestsStay(s: State, o: Options, es: seq<Event>, p: nat)
    requires p < |s.promises|
    ensures var t := Run(s, o, es);
            && p < |t.promises| && t.promises[p].name == s.promises[p].name
            && t.promises[p].registry == s.promises[p].registry
            && (s.promises[p].outcome != Pending ==> t.promises[p].outcome == s.promises[p].outcome)
    decreases |es|
  {
    if es != [] {
      RequestsStay(Next(s, o, es[0]), o, es[1..], p);
    }
  }

  /** What takes a name's entry away: another registry, a change to the package while its stream is open,
      or the handler of a rejected request for that name, be it the indexed one or an earlier one. */
  predicate Drops(s: State, e: Event, name: string) {
    match e
    case UpdateProps(r) => r.Some? && r.value != s.registry
    case Change(stream, n) => n == name && stream < |s.streams| && s.streams[stream]
    case HandleRejection(p) =>
      p < |s.promises| && s.promises[p].name == name && s.promises[p].outcome == Rejected && !s.promises[p].handled
    case _ => false
  }

  /** Every view of the name is answered by the promise p. */
  predicate Answers(s: State, name: string, p: nat) {
    name in s.index && s.index[name] == p
  }

  lemma EntryLostExactly(s: State, o: Options, e: Event, name: string, p: nat)
    requires Inv(s) && Answers(s, name, p)
    ensures Answers(Next(s, o, e), name, p) <==> !Drops(s, e, name)
  {
    assert IndexedWell(s, name);
  }

  /** Some event of the run takes the entry away when it comes. */
  predicate DropsSome(s: State, o: Options, es: seq<Event>, name: string)
    decreases |es|
  {
    es != [] && (Drops(s, es[0], name) || DropsSome(Next(s, o, es[0]), o, es[1..], name))
  }

  /** Until then, however often and with whatever else the name is viewed, one request answers. */
  lemma {:induction false} EntryStays(s: State, o: Options, es: seq<Event>, name: string, p: nat)
    requires Inv(s) && Answers(s, name, p)
    ensures Answers(Run(s, o, es), name, p) <==> !DropsSome(s, o, es, name)
    decreases |es|
  {
    if es != [] {
      EntryLostExactly(s, o, es[0], name, p);
      NextKeepsInv(s, o, es[0]);
      if Drops(s, es[0], name) {
        GoneForGood(Next(s, o, es[0]), o, es[1..], name, p);
      } else {
        EntryStays(Next(s, o, es[0]), o, es[1..], name, p);
      }
    }
  }

  /** A request that no longer answers never answers again. */
  lemma {:induction false} GoneForGood(s: State, o: Options, es: seq<Event>, name: string, p: nat)
    requires p < |s.promises| && !Answers(s, name, p)
    ensures !Answers(Run(s, o, es), name, p)
    decreases |es|
  {
    if es != [] {
      GoneForGood(Next(s, o, es[0]), o, es[1..], name, p);
    }
  }

  /** The rejection of an earlier request, handled late, takes away a later request that is still pending. */
  lemma LateRejection(o: Options, registry: string, name: string)
    requires o.watchChanges && registry == o.defaultRegistry
    ensures var es := [View(name), Change(0, name), Settle(0, false)];
            var s := Run(Initial(o, registry), o, es);
            && Answers(s, name, 1) && |s.promises| == 2 && s.promises[1].outcome == Pending
            && Drops(s, HandleRejection(0), name)
  {
    var e0, e1, e2 := View(name), Change(0, name), Settle(0, false);
    assert [e0, e1, e2][1..] == [e1, e2] && [e1, e2][1..] == [e2] && [e2][1..] == [];
    var s0 := Initial(o, registry);
    var s1 := Next(s0, o, e0);
    var s2 := Next(s1, o, e1);
    var s3 := Next(s2, o, e2);
    assert Run(s0, o, [e0, e1, e2]) == Run(s1, o, [e1, e2]) == Run(s2, o, [e2]) == Run(s3, o, []) == s3;
  }

  // ---------- streams and new requests ----------

  /** The registry changes to the default one, and changes are to be watched. */
  predicate Opens(s: State, o: Options, e: Event) {
    && e.UpdateProps? && e.registry.Some? && e.registry.value != s.registry
    && o.watchChanges && e.registry.value == o.defaultRegistry
  }

  /** Exactly then is a stream opened, and it is the only one that stays open. */
  lemma StreamOpened(s: State, o: Options, e: Event)
    requires Inv(s)
    ensures var t := Next(s, o, e);
            && (!Opens(s, o, e) ==> t.streams == s.streams && t.changes == s.changes)
            && (Opens(s, o, e) ==>
                  |t.streams| == |s.streams| + 1 && t.changes == Some(|s.streams|) &&
                  forall i | 0 <= i < |t.streams| :: t.streams[i] <==> i == |s.streams|)
  {
  }

  /** At some point of the run the registry is the default one. */
  predicate SeesDefault(s: State, o: Options, es: seq<Event>)
    decreases |es|
  {
    s.registry == o.defaultRegistry || (es != [] && SeesDefault(Next(s, o, es[0]), o, es[1..]))
  }

  predicate StreamOpen(s: State) {
    s.changes.Some? && s.changes.value < |s.streams| && s.streams[s.changes.value]
  }

  /** No stream is open yet, or the one that is kept is. */
  predicate StreamKept(s: State, o: Options) {
    && ((s.streams == [] && s.changes == None) || StreamOpen(s))
    && (o.watchChanges && s.registry == o.defaultRegistry ==> StreamOpen(s))
  }

  lemma {:induction false} StreamsFrom(s: State, o: Options, es: seq<Event>)
    requires Inv(s) && StreamKept(s, o)
    ensures StreamOpen(Run(s, o, es)) <==> StreamOpen(s) || (o.watchChanges && SeesDefault(s, o, es))
    ensures StreamKept(Run(s, o, es), o)
    decreases |es|
  {
    if es != [] {
      StreamOpened(s, o, es[0]);
      NextKeepsInv(s, o, es[0]);
      StreamsFrom(Next(s, o, es[0]), o, es[1..]);
    }
  }

  /** A stream is open iff changes are watched and the registry has been the default one; before that none
      was ever opened. */
  lemma StreamsExactly(o: Options, registry: string, es: seq<Event>)
    ensures var s := Run(Initial(o, registry), o, es);
            && (StreamOpen(s) <==> o.watchChanges && SeesDefault(Initial(o, registry), o, es))
            && (!StreamOpen(s) ==> s.streams == [])
  {
    RunKeepsInv(Initial(o, registry), o, []);
    StreamsFrom(Initial(o, registry), o, es);
  }

  /** The name is asked for anew at the registry, and that request answers from then on. */
  predicate RequestedAnew(s: State, t: State, name: string) {
    && t.promises == s.promises + [Promised(name, s.registry, Pending, false)]
    && t.index == s.index[name := |s.promises|]
  }

  /** A view sends a request iff none answers for the name. */
  lemma ViewRequests(s: State, o: Options, name: string)
    ensures name in s.index ==> Next(s, o, View(name)) == s
    ensures name !in s.index ==> RequestedAnew(s, Next(s, o, View(name)), name)
  {
  }

  /** A change on the open stream has an indexed name requested anew at once, and no other. */
  lemma ChangeRequests(s: State, o: Options, stream: nat, name: string)
    requires stream < |s.streams| && s.streams[stream]
    ensures name in s.index ==> RequestedAnew(s, Next(s, o, Change(stream, name)), name)
    ensures name !in s.index ==> Next(s, o, Change(stream, name)) == s
  {
    assert name in s.index ==> (s.index - {name})[name := |s.promises|] == s.index[name := |s.promises|];
  }

  /** The index is emptied iff the registry changes. */
  lemma RegistryChanges(s: State, o: Options, r: Option<string>)
    ensures var t := Next(s, o, UpdateProps(r));
            && t.promises == s.promises && t.registry == (if r.Some? then r.value else s.registry)
            && (t.registry != s.registry ==> t.index == map[]) && (t.registry == s.registry ==> t == s)
  {
  }

  /** The client as an object. The promises stand for the requests that the event loop knows of. */
  class NpmRegistry {
    const options: Options
    var registry: string
    var index: map<string, nat>
    var promises: seq<Promised>
    var changes: Option<nat>
    var streams: seq<bool>

    ghost function Abs(): State
      reads this
    {
      State(registry, index, promises, changes, streams)
    }

    constructor (options: Options, registry: string)
      ensures this.options == options && Abs() == Initial(options, registry) && Inv(Abs())
    {
      this.options, this.registry := options, registry;
      index, promises, changes, streams := map[], [], None, [];
      new;
      Reset();
      RunKeepsInv(Initial(options, registry), options, []);
    }

    method Reset()
      modifies this
      ensures Abs() == ResetIndex(old(Abs()), options)
    {
      index := map[];
      if options.watchChanges && registry == options.defaultRegistry {
        if changes.Some? && changes.value < |streams| {
          streams := streams[changes.value := false];
        }
        changes := Some(|streams|);
        streams := streams + [true];
      }
    }

    method UpdateProps(newRegistry: Option<string>)
      requires Inv(Abs())
      modifies this
      ensures Abs() == Next(old(Abs()), options, Event.UpdateProps(newRegistry)) && Inv(Abs())
    {
      NextKeepsInv(Abs(), options, Event.UpdateProps(newRegistry));
      var oldRegistry := registry;
      if newRegistry.Some? {
        registry := newRegistry.value;
      }
      if oldRegistry != registry {
        Reset();
      }
    }

    method View(name: string) returns (p: nat)
      requires Inv(Abs())
      modifies this
      ensures Abs() == ViewNext(old(Abs()), name) && Inv(Abs()) && name in index && index[name] == p
    {
      NextKeepsInv(Abs(), options, Event.View(name));
      if name in index {
        return index[name];
      }
      p := |promises|;
      promises := promises + [Promised(name, registry, Pending, false)];
      index := index[name := p];
    }

    method Invalidate(name: string)
      requires Inv(Abs())
      modifies this
      ensures Abs() == InvalidateNext(old(Abs()), name) && Inv(Abs())
    {
      if name in index {
        index := index - {name};
        forall n | n in index ensures IndexedWell(Abs(), n) {
          assert old(IndexedWell(Abs(), n));
        }
        var p := View(name);
      }
    }

    /** The handler that every view attaches to its promise. */
    method Rejection(p: nat)
      requires Inv(Abs()) && p < |promises| && promises[p].outcome == Rejected && !promises[p].handled
      modifies this
      ensures Abs() == Next(old(Abs()), options, HandleRejection(p)) && Inv(Abs())
      ensures forall name | name in index :: index[name] != p
    {
      NextKeepsInv(Abs(), options, HandleRejection(p));
      index := index - {promises[p].name};
      promises := promises[p := promises[p].(handled := true)];
      forall name | name in index ensures index[name] != p {
        assert IndexedWell(Abs(), name);
      }
    }
  }
}
