/** Exactly when a browser build can be lost, and a run that loses one. */
module RebuildLoss {
  import opened Wrappers
  import opened Rebuild

  // ---------- exactly when a build can be lost ----------

  /** In this run no last step of a revert fails. */
  predicate RevertsFinish(es: seq<Event>) {
    FinishRevert(false) !in es
  }

  /** Some later events, none of which is such a failure, lose a browser build. */
  ghost predicate CanLose(s: State, modules: set<Module>) {
    exists es :: RevertsFinish(es) && !Safe(Run(s, es), modules)
  }

  lemma {:induction false} FinishingIsHarmless(s: State, es: seq<Event>)
    requires RevertsFinish(es)
    ensures HarmlessRun(s, es)
    decreases |es|
  {
    if es != [] {
      FinishingIsHarmless(Next(s, es[0]), es[1..]);
    }
  }

  lemma IntactCannotLose(s: State, modules: set<Module>)
    requires Inv(s, modules) && Intact(s)
    ensures !CanLose(s, modules)
  {
    hide Inv, Intact, Safe, RevertsFinish;
    forall es | RevertsFinish(es) ensures Safe(Run(s, es), modules) {
      FinishingIsHarmless(s, es);
      RunKeepsInv(s, es, modules);
      IntactIsSafe(Run(s, es), modules);
    }
  }

  lemma LoseModule(s: State, m: Module)
    requires s.phase == Idle && s.cacheExists && m in Listed(s) && At(s.cache, m) != Browser && m in s.original
    ensures !Kept(Run(s, [Start(ForBrowser, {m}), RemoveOriginal(m, true)]), m)
  {
    var first, second := Start(ForBrowser, {m}), RemoveOriginal(m, true);
    var t := Next(s, first);
    assert t.phase.Revert? && m in t.phase.todo && t.phase.todo[m] == ToRemove;
    assert [first, second][1..] == [second] && [second][1..] == [];
    assert Run(s, [first, second]) == Run(t, [second]) == Run(Next(t, second), []);
  }

  /** Between runs, a build can be lost iff some manifest entry has no browser build in the cache. */
  lemma LossExactlyWhenUnbacked(s: State, modules: set<Module>)
    requires Common(s, modules) && s.phase == Idle
    ensures CanLose(s, modules) <==> !Backed(s)
  {
    if Backed(s) {
      IntactCannotLose(s, modules);
    } else {
      var m :| m in Listed(s) && At(s.cache, m) != Browser;
      LoseModule(s, m);
      assert RevertsFinish([Start(ForBrowser, {m}), RemoveOriginal(m, true)]);
    }
  }

  lemma LoseLater(s: State, e: Event, modules: set<Module>)
    requires e != FinishRevert(false) && CanLose(Next(s, e), modules)
    ensures CanLose(s, modules)
  {
    hide Next, Safe;
    var es :| RevertsFinish(es) && !Safe(Run(Next(s, e), es), modules);
    assert ([e] + es)[1..] == es;
    assert RevertsFinish([e] + es);
    assert Run(s, [e] + es) == Run(Next(s, e), es);
  }

  function Unsettled(s: State): set<Module> {
    if s.phase.Revert? then set m | m in s.phase.todo && s.phase.todo[m] != Settled else {}
  }

  function StepsLeft(s: State): nat {
    |Unsettled(s)| + if s.phase.Revert? then 1 else 0
  }

  lemma FewerLeft(s: State, t: State)
    requires Unsettled(t) < Unsettled(s) && s.phase.Revert?
    ensures StepsLeft(t) < StepsLeft(s)
  {
    SubsetSmaller(Unsettled(t), Unsettled(s));
  }

  lemma SubsetSmaller(a: set<Module>, b: set<Module>)
    requires a < b
    ensures |a| < |b|
  {
    assert |b - a| == |b| - |a|;
    var x :| x in b && x !in a;
    assert x in b - a;
  }

  lemma LastLeft(s: State, t: State)
    requires s.phase.Revert? && t.phase == Idle
    ensures StepsLeft(t) < StepsLeft(s)
  {
  }

  /** The event by which a module's part in a revert ends at once. */
  function SettleEvent(m: Module, step: RevertStep): Event {
    match step
    case ToRemove => RemoveOriginal(m, false)
    case ToRestore => RestoreEnd(m, false)
    case ToDrop => DropCopy(m, false)
    case _ => Forget(m)
  }

  lemma SettleSettles(s: State, m: Module)
    requires s.phase.Revert? && m in Unsettled(s)
    ensures var e := SettleEvent(m, s.phase.todo[m]);
            e != FinishRevert(false) && Unsettled(Next(s, e)) < Unsettled(s) && Next(s, e).phase.Revert?
  {
    var t := Next(s, SettleEvent(m, s.phase.todo[m]));
    assert m !in Unsettled(t);
  }

  /** A copy that is gone can cost its build: let the revert come to its end and start another. */
  lemma {:induction false} GoneCanLose(s: State, modules: set<Module>, m: Module)
    requires Inv(s, modules) && Gone(s, m)
    ensures CanLose(s, modules)
    decreases StepsLeft(s)
  {
    hide Next, CanLose, DuringRevert, DuringBackup, StepsLeft;
    if s.phase == Idle {
      LossExactlyWhenUnbacked(s, modules);
    } else if s.phase.Revert? {
      var e: Event;
      if x :| x in Unsettled(s) {
        e := SettleEvent(x, s.phase.todo[x]);
        SettleSettles(s, x);
        FewerLeft(s, Next(s, e));
      } else {
        e := FinishRevert(true);
        assert AllSettled(s) by {
          forall x | x in s.phase.todo ensures s.phase.todo[x] == Settled { assert x !in Unsettled(s); }
        }
        FinishSettles(s);
        LastLeft(s, Next(s, e));
      }
      StepKeepsInv(s, e, modules);
      GoneNext(s, e, modules, m);
      GoneCanLose(Next(s, e), modules, m);
      LoseLater(s, e, modules);
    } else {
      NotGoneYet(s, modules, m);
    }
  }

  lemma FinishSettles(s: State)
    requires s.phase.Revert? && AllSettled(s)
    ensures Next(s, FinishRevert(true)).phase == Idle
  {
  }

  lemma NotGoneYet(s: State, modules: set<Module>, m: Module)
    requires Inv(s, modules) && !s.phase.Revert? && s.phase != Idle
    ensures !Gone(s, m)
  {
  }

  /** After any run whatsoever: a build can be lost later iff some last step of a revert failed in it after
      a module had been restored. */
  lemma LossExactly(modules: set<Module>, es: seq<Event>)
    ensures CanLose(Run(Initial(modules), es), modules) <==> !HarmlessRun(Initial(modules), es)
  {
    hide Inv, CanLose, HarmlessRun, Gone;
    var s := Run(Initial(modules), es);
    InitialIntact(modules);
    RunKeepsInv(Initial(modules), es, modules);
    if Intact(s) {
      IntactCannotLose(s, modules);
    } else {
      var m :| Gone(s, m);
      GoneCanLose(s, modules, m);
    }
  }

  /** If the last step of a revert fails, a later run can lose a build iff the revert had restored some module. */
  lemma FailedFinish(s: State, modules: set<Module>)
    requires Inv(s, modules) && Intact(s) && s.phase.Revert? && AllSettled(s)
    ensures CanLose(Next(s, FinishRevert(false)), modules) <==> s.phase.entries != Listed(s)
  {
    hide Inv, CanLose, Gone;
    var e := FinishRevert(false);
    var t := Next(s, e);
    StepKeepsInv(s, e, modules);
    IntactNext(s, e, modules);
    if Intact(t) {
      IntactCannotLose(t, modules);
    } else {
      var m :| Gone(t, m);
      GoneCanLose(t, modules, m);
    }
  }

  // ---------- a run that loses a build ----------

  lemma {:induction false} RunConcat(s: State, a: seq<Event>, b: seq<Event>)
    ensures Run(s, a + b) == Run(Run(s, a), b)
    decreases |a|
  {
    if a == [] {
      assert a + b == b;
    } else {
      assert (a + b)[1..] == a[1..] + b;
      RunConcat(Next(s, a[0]), a[1..], b);
    }
  }

  lemma RunThree(s: State, a: Event, b: Event, c: Event)
    ensures Run(s, [a, b]) == Next(Next(s, a), b)
    ensures Run(s, [a, b, c]) == Next(Next(Next(s, a), b), c)
  {
    hide Next;
    assert [a, b, c][1..] == [b, c] && [b, c][1..] == [c] && [c][1..] == [] && [a, b][1..] == [b] && [b][1..] == [];
    var s1 := Next(s, a);
    var s2 := Next(s1, b);
    var s3 := Next(s2, c);
    assert Run(s3, []) == s3 && Run(s2, []) == s2;
    assert Run(s2, [c]) == Run(s3, []);
    assert Run(s1, [b, c]) == Run(s2, [c]) && Run(s1, [b]) == Run(s2, []);
  }

  /** A single module, with its build, its copy and the manifest. */
  function Single(m: Module, build: Content, copy: Content, phase: Phase): State {
    State(map[m := build], map[m := copy], true, Some({m}), phase)
  }

  lemma CopyRun(m: Module)
    ensures Run(Initial({m}), [Start(ForElectron, {m}), ClearCopy(m, true), CopyEnd(m, true)]) ==
            State(map[m := Browser], map[m := Browser], true, None, Backup(map[m := ToRecord], {}, true))
  {
    var s := Initial({m});
    RunThree(s, Start(ForElectron, {m}), ClearCopy(m, true), CopyEnd(m, true));
    assert s.original == map[m := Browser];
    var s1 := Next(s, Start(ForElectron, {m}));
    assert s1.phase.at == map[m := ToClear];
    var s2 := Next(s1, ClearCopy(m, true));
    assert s2.phase.at == map[m := ToCopy];
    var s3 := Next(s2, CopyEnd(m, true));
    assert s3.phase.at == map[m := ToRecord] && s3.cache == map[m := Browser];
  }

  lemma RecordRun(m: Module)
    ensures Run(State(map[m := Browser], map[m := Browser], true, None, Backup(map[m := ToRecord], {}, true)),
                [Record(m), FinishBackup(true)]) == Single(m, Browser, Browser, Rebuilding({m}))
  {
    var s := State(map[m := Browser], map[m := Browser], true, None, Backup(map[m := ToRecord], {}, true));
    RunThree(s, Record(m), FinishBackup(true), RebuildEnd);
    var s1 := Next(s, Record(m));
    assert s1.phase.at == map[m := Ended] && s1.phase.json == {m};
    var s2 := Next(s1, FinishBackup(true));
    assert s2.phase.targets == {m};
  }

  lemma RebuildRun(m: Module)
    ensures Run(Single(m, Browser, Browser, Rebuilding({m})), [Touch(m, Electron), RebuildEnd]) ==
            Single(m, Electron, Browser, Idle)
  {
    var s := Single(m, Browser, Browser, Rebuilding({m}));
    RunThree(s, Touch(m, Electron), RebuildEnd, RebuildEnd);
    assert Next(s, Touch(m, Electron)).original == map[m := Electron];
  }

  lemma RestoreRun(m: Module)
    ensures Run(Single(m, Electron, Browser, Idle),
                [Start(ForBrowser, {m}), RemoveOriginal(m, true), RestoreEnd(m, true)]) ==
            Single(m, Browser, Browser, Revert(map[m := ToDrop], {m}))
  {
    var s := Single(m, Electron, Browser, Idle);
    RunThree(s, Start(ForBrowser, {m}), RemoveOriginal(m, true), RestoreEnd(m, true));
    var s1 := Next(s, Start(ForBrowser, {m}));
    assert s1.phase.todo == map[m := ToRemove];
    var s2 := Next(s1, RemoveOriginal(m, true));
    assert s2.phase.todo == map[m := ToRestore] && s2.original == map[m := Missing];
    var s3 := Next(s2, RestoreEnd(m, true));
    assert s3.phase.todo == map[m := ToDrop] && s3.original == map[m := Browser];
  }

  lemma ForgetRun(m: Module)
    ensures Next(Next(Single(m, Browser, Missing, Revert(map[m := ToForget], {m})), Forget(m)), FinishRevert(false)) ==
            Single(m, Browser, Missing, Idle)
  {
    var s := Single(m, Browser, Missing, Revert(map[m := ToForget], {m}));
    assert Next(s, Forget(m)).phase.todo == map[m := Settled];
  }

  lemma StrikeRun(m: Module)
    ensures Run(Single(m, Browser, Browser, Revert(map[m := ToDrop], {m})),
                [DropCopy(m, true), Forget(m), FinishRevert(false)]) ==
            Single(m, Browser, Missing, Idle)
  {
    var s := Single(m, Browser, Browser, Revert(map[m := ToDrop], {m}));
    RunThree(s, DropCopy(m, true), Forget(m), FinishRevert(false));
    var s1 := Next(s, DropCopy(m, true));
    assert s1.phase.todo == map[m := ToForget] && s1.cache == map[m := Missing];
    assert s1 == Single(m, Browser, Missing, Revert(map[m := ToForget], {m}));
    ForgetRun(m);
  }

  /** From the browser build to the electron build and back, with a failure at the very end. */
  function ThereAndBack(m: Module): seq<Event> {
    [Start(ForElectron, {m}), ClearCopy(m, true), CopyEnd(m, true)] + [Record(m), FinishBackup(true)]
    + [Touch(m, Electron), RebuildEnd]
    + [Start(ForBrowser, {m}), RemoveOriginal(m, true), RestoreEnd(m, true)]
    + [DropCopy(m, true), Forget(m), FinishRevert(false)]
  }

  lemma AfterThereAndBack(m: Module)
    ensures Run(Initial({m}), ThereAndBack(m)) == Single(m, Browser, Missing, Idle)
  {
    hide Next, Run, Single;
    var a, b := [Start(ForElectron, {m}), ClearCopy(m, true), CopyEnd(m, true)], [Record(m), FinishBackup(true)];
    var c := [Touch(m, Electron), RebuildEnd];
    var d := [Start(ForBrowser, {m}), RemoveOriginal(m, true), RestoreEnd(m, true)];
    var e := [DropCopy(m, true), Forget(m), FinishRevert(false)];
    CopyRun(m);
    RecordRun(m);
    RebuildRun(m);
    RestoreRun(m);
    StrikeRun(m);
    RunConcat(Initial({m}), a, b);
    RunConcat(Initial({m}), a + b, c);
    RunConcat(Initial({m}), a + b + c, d);
    RunConcat(Initial({m}), a + b + c + d, e);
  }

  /** The run after that finds neither a good original nor a copy once it has begun: the build is lost. */
  lemma LosingRun(m: Module)
    ensures !Safe(Run(Initial({m}), ThereAndBack(m) + [Start(ForBrowser, {m}), RemoveOriginal(m, true)]), {m})
  {
    hide Next, Run;
    AfterThereAndBack(m);
    RunConcat(Initial({m}), ThereAndBack(m), [Start(ForBrowser, {m}), RemoveOriginal(m, true)]);
    LoseModule(Single(m, Browser, Missing, Idle), m);
  }
}
