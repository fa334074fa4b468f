/** What a run without failures achieves: modules are backed up and rebuilt, and a revert undoes all of it. */
module RebuildEffect {
  import opened Wrappers
  import opened Rebuild
  import opened RebuildLoss

  /** A step that fails. That a module is not found is no failure. */
  predicate Failure(e: Event) {
    match e
    case ClearCopy(_, ok) => !ok
    case CopyEnd(_, ok) => !ok
    case FinishBackup(ok) => !ok
    case RemoveOriginal(_, ok) => !ok
    case RestoreEnd(_, ok) => !ok
    case DropCopy(_, ok) => !ok
    case FinishRevert(ok) => !ok
    case _ => false
  }

  predicate Smooth(e: Event) {
    !Failure(e) && !e.Start?
  }

  /** Events of one run, in any order and none of them a failure. */
  predicate AllSmooth(es: seq<Event>) {
    forall i | 0 <= i < |es| :: Smooth(es[i])
  }

  lemma {:induction false} IdleStays(s: State, es: seq<Event>)
    requires s.phase == Idle && AllSmooth(es)
    ensures Run(s, es) == s
    decreases |es|
  {
    if es != [] {
      assert Smooth(es[0]);
      IdleStays(s, es[1..]);
    }
  }

  // ---------- a manifest is never empty ----------

  predicate NoEmptyManifest(s: State) {
    s.manifest != Some({})
  }

  lemma {:induction false} NoEmptyFrom(s: State, es: seq<Event>)
    requires NoEmptyManifest(s)
    ensures NoEmptyManifest(Run(s, es))
    decreases |es|
  {
    if es != [] {
      NoEmptyFrom(Next(s, es[0]), es[1..]);
    }
  }

  /** Whatever happens, a manifest that is there has entries. */
  lemma ManifestHasEntries(modules: set<Module>, es: seq<Event>)
    ensures Run(Initial(modules), es).manifest != Some({})
  {
    NoEmptyFrom(Initial(modules), es);
  }

  // ---------- the backup and the rebuild ----------

  /** A module that is not started yet, or not there. */
  predicate Untouched(step: BackupStep) {
    step == ToClear || step == Absent
  }

  /** A backup of the requested modules is going on, started from s. */
  ghost predicate BackupGoes(s: State, requested: set<Module>, t: State) {
    && t.phase.Backup? && t.phase.success && t.phase.at.Keys == requested
    && t.original == s.original && t.manifest == None
    && (forall m | m in requested :: t.phase.at[m] == Ended <==> m in t.phase.json)
    && t.phase.json <= requested
    && ((forall m | m in requested :: Untouched(t.phase.at[m])) ==> t.cache == s.cache && !t.cacheExists)
  }

  /** The modules found are backed up, and at most they have changed since. */
  ghost predicate BackedUp(s: State, requested: set<Module>, t: State) {
    && t.manifest.Some? && t.manifest.value <= requested && t.cacheExists && Backed(t)
    && t.original.Keys == s.original.Keys
    && forall m | m in s.original && m !in t.manifest.value :: t.original[m] == s.original[m]
  }

  lemma BackupStarts(s: State, modules: set<Module>, requested: set<Module>)
    requires Inv(s, modules) && s.phase == Idle && !s.cacheExists && requested <= modules
    ensures BackupGoes(s, requested, Next(s, Start(ForElectron, requested)))
  {
  }

  /** A module is left out only when it is not found. */
  predicate Explained(t: State, requested: set<Module>, es: seq<Event>) {
    forall m | m in requested :: m in Listed(t) || NotFound(m) in es
  }

  ghost predicate AbsentExplained(t: State, es: seq<Event>) {
    t.phase.Backup? ==> forall m | m in t.phase.at && t.phase.at[m] == Absent :: NotFound(m) in es
  }

  lemma BackupGoesOn(s: State, requested: set<Module>, t: State, e: Event)
    requires BackupGoes(s, requested, t) && Smooth(e) && !e.FinishBackup?
    ensures BackupGoes(s, requested, Next(t, e))
    ensures forall m | m in requested && Next(t, e).phase.at[m] == Absent :: t.phase.at[m] == Absent || e == NotFound(m)
  {
  }

  lemma BackupFinishes(s: State, modules: set<Module>, requested: set<Module>, t: State)
    requires Inv(t, modules) && BackupGoes(s, requested, t) && s.phase == Idle && !s.cacheExists && s.manifest == None
    ensures var u := Next(t, FinishBackup(true));
            || u == t
            || u == s
            || (u.phase.Rebuilding? && BackedUp(s, requested, u) && u.phase.targets == Listed(u))
    ensures var u := Next(t, FinishBackup(true));
            forall m | m in requested && t != u :: t.phase.at[m] == Absent || m in Listed(u)
  {
    var u := Next(t, FinishBackup(true));
    if u != t {
      assert forall m | m in requested :: t.phase.at[m] == Ended || t.phase.at[m] == Absent;
      if t.phase.json == {} {
        assert forall m | m in requested :: Untouched(t.phase.at[m]);
        assert u == s;
      } else {
        assert u.phase.targets == t.phase.json;
      }
    }
  }

  lemma RebuildGoesOn(s: State, requested: set<Module>, t: State, e: Event)
    requires t.phase.Rebuilding? && BackedUp(s, requested, t)
    requires t.phase.targets == Listed(t) && Listed(t) <= s.original.Keys
    ensures var u := Next(t, e);
            BackedUp(s, requested, u) && Listed(u) == Listed(t) &&
            (u.phase == Idle || (u.phase.Rebuilding? && u.phase.targets == Listed(u)))
  {
  }

  lemma {:induction false} RebuildRuns(s: State, requested: set<Module>, t: State, es: seq<Event>)
    requires t.phase.Rebuilding? && BackedUp(s, requested, t)
    requires t.phase.targets == Listed(t) && Listed(t) <= s.original.Keys
    requires AllSmooth(es)
    ensures BackedUp(s, requested, Run(t, es)) && Listed(Run(t, es)) == Listed(t)
    decreases |es|
  {
    if es != [] {
      hide BackedUp;
      RebuildGoesOn(s, requested, t, es[0]);
      if Next(t, es[0]).phase == Idle {
        IdleStays(Next(t, es[0]), es[1..]);
      } else {
        RebuildRuns(s, requested, Next(t, es[0]), es[1..]);
      }
    }
  }

  lemma {:induction false} BackupRuns(s: State, modules: set<Module>, requested: set<Module>, t: State,
      past: seq<Event>, es: seq<Event>)
    requires s.phase == Idle && !s.cacheExists && s.manifest == None && s.original.Keys == modules
    requires Inv(t, modules) && BackupGoes(s, requested, t) && requested <= modules && AllSmooth(es)
    requires AbsentExplained(t, past) && Run(t, es).phase == Idle
    ensures Run(t, es) == s || BackedUp(s, requested, Run(t, es))
    ensures Explained(Run(t, es), requested, past + es)
    decreases |es|
  {
    if es != [] {
      var e := es[0];
      var u := Next(t, e);
      assert Smooth(e);
      assert past + es == (past + [e]) + es[1..];
      hide Inv;
      StepKeepsInv(t, e, modules);
      if e.FinishBackup? {
        BackupFinishes(s, modules, requested, t);
        BackupContinues(s, modules, requested, t, past, es);
      } else {
        BackupGoesOn(s, requested, t, e);
        forall m | m in u.phase.at && u.phase.at[m] == Absent ensures NotFound(m) in past + [e] {}
        hide BackupGoes, Next;
        BackupRuns(s, modules, requested, u, past + [e], es[1..]);
      }
    }
  }

  lemma BackupContinues(s: State, modules: set<Module>, requested: set<Module>, t: State, past: seq<Event>,
      es: seq<Event>)
    requires s.phase == Idle && !s.cacheExists && s.manifest == None && s.original.Keys == modules
    requires BackupGoes(s, requested, t) && requested <= modules && AllSmooth(es)
    requires es != [] && es[0] == FinishBackup(true)
    requires Inv(t, modules)
    requires AbsentExplained(t, past) && Run(t, es).phase == Idle
    ensures Run(t, es) == s || BackedUp(s, requested, Run(t, es))
    ensures Explained(Run(t, es), requested, past + es)
    decreases |es|, 0
  {
    var u := Next(t, es[0]);
    BackupFinishes(s, modules, requested, t);
    if u == t {
      assert past + es == (past + [es[0]]) + es[1..];
      BackupRuns(s, modules, requested, t, past + [es[0]], es[1..]);
    } else if u == s {
      IdleStays(s, es[1..]);
    } else {
      hide Inv, BackupGoes, Next;
      RebuildRuns(s, requested, u, es[1..]);
    }
  }

  /** An electron run without failures, started without a cache: either none of the modules is found and
      nothing changes, or all that are found are listed, with their browser builds in the cache. */
  lemma BackupEffect(s: State, modules: set<Module>, requested: set<Module>, es: seq<Event>)
    requires Inv(s, modules) && s.phase == Idle && !s.cacheExists && requested <= modules && AllSmooth(es)
    requires Run(s, [Start(ForElectron, requested)] + es).phase == Idle
    ensures var t := Run(s, [Start(ForElectron, requested)] + es);
            (t == s || BackedUp(s, requested, t)) && Explained(t, requested, es)
  {
    var start := Start(ForElectron, requested);
    var t := Next(s, start);
    assert ([start] + es)[1..] == es && Run(s, [start] + es) == Run(t, es);
    BackupStarts(s, modules, requested);
    StepKeepsInv(s, start, modules);
    assert AbsentExplained(t, []);
    assert [] + es == es;
    hide Inv, BackupGoes, Next, AbsentExplained;
    BackupRuns(s, modules, requested, t, [], es);
  }

  predicate NoStart(es: seq<Event>) {
    forall i | 0 <= i < |es| :: !es[i].Start?
  }

  /** Once a module could not be backed up, no module is touched any more in this run. */
  lemma {:induction false} FailedBackupTouchesNothing(s: State, es: seq<Event>)
    requires (s.phase.Backup? && !s.phase.success) || s.phase == Idle
    requires NoStart(es)
    ensures var t := Run(s, es);
            t.original == s.original && ((t.phase.Backup? && !t.phase.success) || t.phase == Idle)
    decreases |es|
  {
    if es != [] {
      assert !es[0].Start?;
      FailedBackupTouchesNothing(Next(s, es[0]), es[1..]);
    }
  }

  /** A module counts as not backed up when its folder in the cache cannot be cleared or written. */
  lemma BackupFails(s: State, m: Module)
    requires s.phase.Backup? && m in s.phase.at
    ensures s.phase.at[m] == ToClear ==>
              var t := Next(s, ClearCopy(m, false)); t.phase.Backup? && !t.phase.success
    ensures s.phase.at[m] == ToCopy ==>
              var t := Next(s, CopyEnd(m, false)); t.phase.Backup? && !t.phase.success
  {
  }

  // ---------- the revert ----------

  /** A revert of the requested modules is going on, started from s. */
  ghost predicate RevertGoes(s: State, requested: set<Module>, t: State) {
    && t.phase.Revert? && t.manifest.Some? && Listed(t) == Listed(s) && t.cacheExists
    && t.original.Keys == s.original.Keys && Listed(s) <= s.original.Keys
    && t.phase.todo.Keys == Listed(s) * requested && t.phase.entries <= Listed(s)
    && (forall m | m in Listed(s) * requested :: t.phase.todo[m] == Settled <==> m !in t.phase.entries)
    && (forall m | m in Listed(s) - requested :: m in t.phase.entries)
    && (forall m | m in s.original && m !in Listed(s) * requested :: t.original[m] == s.original[m])
  }

  /** The requested modules are browser builds and struck off. The others are as before, and without any
      others there is no cache and no manifest. */
  ghost predicate Reverted(s: State, requested: set<Module>, t: State) {
    var others := Listed(s) - requested;
    && t.phase == Idle && t.original.Keys == s.original.Keys
    && t.manifest == (if others == {} then None else Some(others))
    && t.cacheExists == (others != {}) && (others == {} ==> t.cache == map[])
    && (forall m | m in others :: At(t.cache, m) == Browser)
    && (forall m | m in s.original && m in Listed(s) * requested :: t.original[m] == Browser)
    && (forall m | m in s.original && m !in Listed(s) * requested :: t.original[m] == s.original[m])
  }

  lemma RevertStarts(s: State, modules: set<Module>, requested: set<Module>)
    requires Inv(s, modules) && s.phase == Idle && s.manifest.Some? && requested <= modules
    ensures RevertGoes(s, requested, Next(s, Start(ForBrowser, requested)))
  {
  }

  lemma CopyThere(s: State, requested: set<Module>, t: State, modules: set<Module>, m: Module)
    requires Inv(t, modules) && Intact(t) && RevertGoes(s, requested, t) && m in t.phase.todo
    requires t.phase.todo[m] == ToRestore
    ensures At(t.cache, m) == Browser && m in t.phase.entries
  {
    assert RevertOf(t, m) && !Gone(t, m);
  }

  lemma RevertGoesOn(s: State, modules: set<Module>, requested: set<Module>, t: State, e: Event)
    requires Inv(t, modules) && Intact(t) && RevertGoes(s, requested, t) && Smooth(e) && !e.FinishRevert?
    ensures RevertGoes(s, requested, Next(t, e))
  {
    if e.RestoreEnd? && e.m in t.phase.todo && t.phase.todo[e.m] == ToRestore {
      CopyThere(s, requested, t, modules, e.m);
    }
    hide Inv, Intact;
  }

  lemma RevertFinishes(s: State, modules: set<Module>, requested: set<Module>, t: State)
    requires Inv(t, modules) && Intact(t) && RevertGoes(s, requested, t)
    ensures var u := Next(t, FinishRevert(true)); u == t || Reverted(s, requested, u)
  {
    var u := Next(t, FinishRevert(true));
    if u != t {
      assert forall m | m in t.phase.todo :: t.phase.todo[m] == Settled;
      var others := Listed(s) - requested;
      assert t.phase.entries == others;
      forall m | m in Listed(s) * requested ensures t.original[m] == Browser {
        assert RevertOf(t, m);
      }
      forall m | m in others ensures At(t.cache, m) == Browser {
        assert RevertOf(t, m) && !Gone(t, m);
      }
    }
  }

  lemma {:induction false} RevertRuns(s: State, modules: set<Module>, requested: set<Module>, t: State, es: seq<Event>)
    requires Inv(t, modules) && Intact(t) && RevertGoes(s, requested, t) && AllSmooth(es)
    requires Run(t, es).phase == Idle
    ensures Reverted(s, requested, Run(t, es))
    decreases |es|
  {
    if es != [] {
      var e := es[0];
      var u := Next(t, e);
      assert Smooth(e);
      StepKeepsInv(t, e, modules);
      IntactNext(t, e, modules);
      assert !Harmful(t, e);
      hide Inv, Intact;
      if e.FinishRevert? {
        RevertFinishes(s, modules, requested, t);
      } else {
        RevertGoesOn(s, modules, requested, t, e);
      }
      if u.phase == Idle {
        IdleStays(u, es[1..]);
      } else {
        hide RevertGoes, Next;
        RevertRuns(s, modules, requested, u, es[1..]);
      }
    }
  }

  /** A browser run without failures, started with a cache, reverts exactly the requested modules. */
  lemma RevertEffect(s: State, modules: set<Module>, requested: set<Module>, es: seq<Event>)
    requires Inv(s, modules) && Intact(s) && s.phase == Idle && s.manifest.Some? && requested <= modules
    requires AllSmooth(es) && Run(s, [Start(ForBrowser, requested)] + es).phase == Idle
    ensures Reverted(s, requested, Run(s, [Start(ForBrowser, requested)] + es))
  {
    var start := Start(ForBrowser, requested);
    assert ([start] + es)[1..] == es && Run(s, [start] + es) == Run(Next(s, start), es);
    RevertStarts(s, modules, requested);
    StepKeepsInv(s, start, modules);
    IntactNext(s, start, modules);
    hide Inv, Intact, RevertGoes, Next;
    RevertRuns(s, modules, requested, Next(s, start), es);
  }

  // ---------- there and back ----------

  /** From the browser builds to electron and back, without failures: everything is as it was at first, with
      browser builds, no cache and no manifest, so that the next electron run begins a backup. */
  lemma ThereAndBackAgain(modules: set<Module>, requested: set<Module>, there: seq<Event>, back: seq<Event>)
    requires requested <= modules && AllSmooth(there) && AllSmooth(back)
    requires Run(Initial(modules), [Start(ForElectron, requested)] + there).phase == Idle
    requires var s := Run(Initial(modules), [Start(ForElectron, requested)] + there);
             Run(s, [Start(ForBrowser, requested)] + back).phase == Idle
    ensures var s := Run(Initial(modules), [Start(ForElectron, requested)] + there);
            var t := Run(s, [Start(ForBrowser, requested)] + back);
            && t == Initial(modules) && !t.cacheExists && t.manifest == None
            && (forall m | m in modules :: At(t.original, m) == Browser)
            && Next(t, Start(ForElectron, requested)).phase.Backup?
  {
    var first := Initial(modules);
    var s := Run(first, [Start(ForElectron, requested)] + there);
    InitialIntact(modules);
    BackupEffect(first, modules, requested, there);
    SmoothIsHarmless(first, [Start(ForElectron, requested)] + there);
    RunKeepsInv(first, [Start(ForElectron, requested)] + there, modules);
    var t := Run(s, [Start(ForBrowser, requested)] + back);
    if s == first {
      var start := Start(ForBrowser, requested);
      assert ([start] + back)[1..] == back && Next(first, start) == first;
      IdleStays(first, back);
    } else {
      hide Run, Inv, Intact;
      RevertEffect(s, modules, requested, back);
      BackToFirst(modules, requested, s, t);
    }
  }

  lemma SmoothIsHarmless(s: State, es: seq<Event>)
    requires forall i | 0 <= i < |es| :: !Failure(es[i])
    ensures HarmlessRun(s, es)
  {
    FinishingIsHarmless(s, es);
  }

  lemma BackToFirst(modules: set<Module>, requested: set<Module>, s: State, t: State)
    requires requested <= modules && BackedUp(Initial(modules), requested, s) && Reverted(s, requested, t)
    ensures t == Initial(modules)
  {
    assert Listed(s) - requested == {};
    forall m | m in modules ensures t.original[m] == Browser {
      assert m !in Listed(s) * requested ==> t.original[m] == s.original[m] == Initial(modules).original[m];
    }
    assert t.original == Initial(modules).original;
  }

  // ---------- such runs exist ----------

  /** The event that brings a module one step further in a revert. */
  function RevertEvent(m: Module, step: RevertStep): Event {
    match step
    case ToRemove => RemoveOriginal(m, true)
    case ToRestore => RestoreEnd(m, true)
    case ToDrop => DropCopy(m, true)
    case _ => Forget(m)
  }

  function StepsOf(step: RevertStep): nat {
    match step
    case ToRemove => 4
    case ToRestore => 3
    case ToDrop => 2
    case ToForget => 1
    case Settled => 0
  }

  lemma RevertAdvances(s: State, requested: set<Module>, t: State, modules: set<Module>, m: Module)
    requires Inv(t, modules) && Intact(t) && RevertGoes(s, requested, t) && m in Unsettled(t)
    ensures var u := Next(t, RevertEvent(m, t.phase.todo[m]));
            && u.phase.Revert? && m in u.phase.todo && StepsOf(u.phase.todo[m]) < StepsOf(t.phase.todo[m])
            && Unsettled(u) <= Unsettled(t) && (u.phase.todo[m] == Settled ==> m !in Unsettled(u))
  {
    if t.phase.todo[m] == ToRestore {
      CopyThere(s, requested, t, modules, m);
    }
  }

  function StepsFor(t: State, m: Module): nat {
    if t.phase.Revert? && m in t.phase.todo then StepsOf(t.phase.todo[m]) else 0
  }

  lemma AllSettledAtEnd(t: State)
    requires t.phase.Revert? && Unsettled(t) == {}
    ensures Run(t, [FinishRevert(true)]).phase == Idle
  {
    forall x | x in t.phase.todo ensures t.phase.todo[x] == Settled {
      assert x !in Unsettled(t);
    }
    FinishSettles(t);
    assert [FinishRevert(true)][1..] == [];
    assert Run(t, [FinishRevert(true)]) == Run(Next(t, FinishRevert(true)), []);
  }

  /** Every revert can come to its end without a failure. */
  lemma {:induction false} RevertCanEnd(s: State, modules: set<Module>, requested: set<Module>, t: State)
    returns (es: seq<Event>)
    requires Inv(t, modules) && Intact(t) && RevertGoes(s, requested, t)
    ensures AllSmooth(es) && Run(t, es).phase == Idle
    decreases |Unsettled(t)|, 5
  {
    if Unsettled(t) == {} {
      es := [FinishRevert(true)];
      AllSettledAtEnd(t);
    } else {
      var m :| m in Unsettled(t);
      es := RevertModule(s, modules, requested, t, m);
    }
  }

  lemma {:induction false} RevertModule(s: State, modules: set<Module>, requested: set<Module>, t: State, m: Module)
    returns (es: seq<Event>)
    requires Inv(t, modules) && Intact(t) && RevertGoes(s, requested, t) && m in Unsettled(t)
    ensures AllSmooth(es) && Run(t, es).phase == Idle
    decreases |Unsettled(t)|, StepsFor(t, m)
  {
    var e := RevertEvent(m, t.phase.todo[m]);
    var u := Next(t, e);
    assert Smooth(e) && !e.FinishRevert?;
    RevertAdvances(s, requested, t, modules, m);
    RevertGoesOn(s, modules, requested, t, e);
    StepKeepsInv(t, e, modules);
    IntactNext(t, e, modules);
    assert !Harmful(t, e);
    hide Inv, Intact, RevertGoes, Next, Run;
    var rest;
    if Unsettled(u) != Unsettled(t) {
      SubsetSmaller(Unsettled(u), Unsettled(t));
      rest := RevertCanEnd(s, modules, requested, u);
    } else {
      rest := RevertModule(s, modules, requested, u, m);
    }
    es := [e] + rest;
    RunFirst(t, e, rest);
  }

  lemma RunFirst(s: State, e: Event, es: seq<Event>)
    ensures Run(s, [e] + es) == Run(Next(s, e), es)
  {
    assert ([e] + es)[1..] == es;
  }

  function BackupSteps(step: BackupStep): nat {
    match step
    case ToClear => 3
    case ToCopy => 2
    case ToRecord => 1
    case _ => 0
  }

  function BackupEvent(m: Module, step: BackupStep): Event {
    match step
    case ToClear => ClearCopy(m, true)
    case ToCopy => CopyEnd(m, true)
    case _ => Record(m)
  }

  function NotBackedUp(t: State): set<Module> {
    if t.phase.Backup? then set m | m in t.phase.at && BackupSteps(t.phase.at[m]) > 0 else {}
  }

  lemma BackupAdvances(s: State, requested: set<Module>, t: State, m: Module)
    requires BackupGoes(s, requested, t) && m in NotBackedUp(t)
    ensures var u := Next(t, BackupEvent(m, t.phase.at[m]));
            && u.phase.Backup? && m in u.phase.at && BackupSteps(u.phase.at[m]) < BackupSteps(t.phase.at[m])
            && NotBackedUp(u) <= NotBackedUp(t)
            && (BackupSteps(u.phase.at[m]) > 0 <==> m in NotBackedUp(u))
  {
  }

  function StepsToBackUp(t: State, m: Module): nat {
    if t.phase.Backup? && m in t.phase.at then BackupSteps(t.phase.at[m]) else 0
  }

  lemma BackupAtEnd(s: State, requested: set<Module>, t: State)
    requires BackupGoes(s, requested, t) && NotBackedUp(t) == {}
    ensures Run(t, [FinishBackup(true), RebuildEnd]).phase == Idle
  {
    forall m | m in t.phase.at ensures t.phase.at[m] == Ended || t.phase.at[m] == Absent {
      assert m !in NotBackedUp(t);
    }
    RunThree(t, FinishBackup(true), RebuildEnd, RebuildEnd);
  }

  /** Every backup can come to its end without a failure. */
  lemma {:induction false} BackupCanEnd(s: State, requested: set<Module>, t: State) returns (es: seq<Event>)
    requires BackupGoes(s, requested, t)
    ensures AllSmooth(es) && Run(t, es).phase == Idle
    decreases |NotBackedUp(t)|, 4
  {
    if NotBackedUp(t) == {} {
      es := [FinishBackup(true), RebuildEnd];
      BackupAtEnd(s, requested, t);
    } else {
      var m :| m in NotBackedUp(t);
      es := BackUpModule(s, requested, t, m);
    }
  }

  lemma {:induction false} BackUpModule(s: State, requested: set<Module>, t: State, m: Module)
    returns (es: seq<Event>)
    requires BackupGoes(s, requested, t) && m in NotBackedUp(t)
    ensures AllSmooth(es) && Run(t, es).phase == Idle
    decreases |NotBackedUp(t)|, StepsToBackUp(t, m)
  {
    var e := BackupEvent(m, t.phase.at[m]);
    var u := Next(t, e);
    assert Smooth(e) && !e.FinishBackup?;
    BackupAdvances(s, requested, t, m);
    BackupGoesOn(s, requested, t, e);
    hide BackupGoes, Next, Run;
    var rest;
    if NotBackedUp(u) != NotBackedUp(t) {
      SubsetSmaller(NotBackedUp(u), NotBackedUp(t));
      rest := BackupCanEnd(s, requested, u);
    } else {
      rest := BackUpModule(s, requested, u, m);
    }
    es := [e] + rest;
    RunFirst(t, e, rest);
  }

  /** Runs there and back without failures exist for any modules. */
  lemma ThereAndBackExists(modules: set<Module>, requested: set<Module>)
    returns (there: seq<Event>, back: seq<Event>)
    requires requested <= modules
    ensures AllSmooth(there) && AllSmooth(back)
    ensures var s := Run(Initial(modules), [Start(ForElectron, requested)] + there);
            s.phase == Idle && Run(s, [Start(ForBrowser, requested)] + back).phase == Idle
  {
    var first, start := Initial(modules), Start(ForElectron, requested);
    InitialIntact(modules);
    BackupStarts(first, modules, requested);
    there := BackupCanEnd(first, requested, Next(first, start));
    RunFirst(first, start, there);
    var s, again := Run(first, [start] + there), Start(ForBrowser, requested);
    BackupEffect(first, modules, requested, there);
    SmoothIsHarmless(first, [start] + there);
    RunKeepsInv(first, [start] + there, modules);
    if s == first {
      back := [];
      RunFirst(first, again, []);
    } else {
      RevertStarts(s, modules, requested);
      StepKeepsInv(s, again, modules);
      IntactNext(s, again, modules);
      back := RevertCanEnd(s, modules, requested, Next(s, again));
      RunFirst(s, again, back);
    }
  }

  // ---------- a cache without a manifest ----------

  /** No run, whatever happens in it, changes anything any more. */
  ghost predicate Stuck(s: State) {
    forall es :: Run(s, es) == s
  }

  lemma {:induction false} StuckFrom(s: State, es: seq<Event>)
    requires s.phase == Idle && s.cacheExists && s.manifest == None
    ensures Run(s, es) == s
    decreases |es|
  {
    if es != [] {
      StuckFrom(s, es[1..]);
    }
  }

  /** Between runs that is so exactly when there is a cache without a manifest: an electron run takes the modules
      for rebuilt, and a browser run has nothing to go by. */
  lemma StuckExactly(s: State)
    requires s.phase == Idle
    ensures Stuck(s) <==> s.cacheExists && s.manifest == None
  {
    if s.cacheExists && s.manifest == None {
      forall es ensures Run(s, es) == s {
        StuckFrom(s, es);
      }
    } else {
      var e := Start(if s.cacheExists then ForBrowser else ForElectron, {});
      RunFirst(s, e, []);
      assert Run(Next(s, e), []) != s;
      assert !Stuck(s) by { assert Run(s, [e] + []) != s; }
    }
  }

  /** A copy that is begun leaves the cache folder, whether it succeeds or not. */
  lemma CopyLeavesFolder(s: State, m: Module)
    requires s.phase.Backup? && m in s.phase.at && s.phase.at[m] == ToCopy
    ensures Next(s, CopyPart(m)).cacheExists && Next(s, CopyEnd(m, true)).cacheExists
    ensures Next(s, CopyEnd(m, false)).cacheExists == s.cacheExists
  {
  }

  /** The only copy breaks off half-way: nothing is listed, and the folder stays. */
  function BrokenBackup(m: Module): seq<Event> {
    [Start(ForElectron, {m}), ClearCopy(m, true), CopyPart(m)] + [CopyEnd(m, false), FinishBackup(true)]
  }

  lemma StuckRun(m: Module)
    ensures Run(Initial({m}), BrokenBackup(m)).phase == Idle && Stuck(Run(Initial({m}), BrokenBackup(m)))
  {
    var s, a, b := Initial({m}), [Start(ForElectron, {m}), ClearCopy(m, true), CopyPart(m)],
      [CopyEnd(m, false), FinishBackup(true)];
    var t := State(map[m := Browser], map[m := Partial], true, None, Backup(map[m := ToCopy], {}, true));
    BrokenCopy(m);
    RunThree(t, b[0], b[1], b[1]);
    assert Next(t, b[0]).phase.at == map[m := Ended];
    RunConcat(s, a, b);
    StuckExactly(Run(s, a + b));
  }

  lemma BrokenCopy(m: Module)
    ensures Run(Initial({m}), [Start(ForElectron, {m}), ClearCopy(m, true), CopyPart(m)]) ==
            State(map[m := Browser], map[m := Partial], true, None, Backup(map[m := ToCopy], {}, true))
  {
    var s := Initial({m});
    RunThree(s, Start(ForElectron, {m}), ClearCopy(m, true), CopyPart(m));
    assert s.original == map[m := Browser];
    var s1 := Next(s, Start(ForElectron, {m}));
    assert s1.phase.at == map[m := ToClear];
    var s2 := Next(s1, ClearCopy(m, true));
    assert s2.phase.at == map[m := ToCopy];
    assert Next(s2, CopyPart(m)).cache == map[m := Partial];
  }
}
