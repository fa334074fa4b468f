/** Switching native modules between browser and electron builds: backups, the rebuild and the revert,
    as a machine whose steps for different modules interleave and may fail. */
module Rebuild {
  import opened Wrappers

  type Module = string

  /** What lies in a module's folder, or in its folder inside the cache. */
  datatype Content = Missing | Partial | Browser | Electron

  datatype Target = ForElectron | ForBrowser

  /** A module that cannot be resolved is absent: it is neither backed up nor rebuilt. */
  datatype BackupStep = ToClear | ToCopy | ToRecord | Ended | Absent

  datatype RevertStep = ToRemove | ToRestore | ToDrop | ToForget | Settled

  datatype Phase =
    | Idle
    | Backup(at: map<Module, BackupStep>, json: set<Module>, success: bool)
    | Rebuilding(targets: set<Module>)
    | Revert(todo: map<Module, RevertStep>, entries: set<Module>)

  /** The module folders, the cache folder with the copies in it, and the manifest on disk. */
  datatype State = State(
    original: map<Module, Content>, cache: map<Module, Content>, cacheExists: bool, manifest: Option<set<Module>>,
      phase: Phase)

  function At(m: map<Module, Content>, x: Module): Content {
    if x in m then m[x] else Missing
  }

  datatype Event =
    | Start(target: Target, requested: set<Module>)
    | NotFound(m: Module)
    | ClearCopy(m: Module, ok: bool)
    | CopyPart(m: Module)
    | CopyEnd(m: Module, ok: bool)
    | Record(m: Module)
    | FinishBackup(ok: bool)
    | Touch(m: Module, c: Content)
    | RebuildEnd
    | RemoveOriginal(m: Module, ok: bool)
    | RestorePart(m: Module)
    | RestoreEnd(m: Module, ok: bool)
    | DropCopy(m: Module, ok: bool)
    | Forget(m: Module)
    | FinishRevert(ok: bool)

  function Initial(modules: set<Module>): State {
    State(map m | m in modules :: Browser, map[], false, None, Idle)
  }

  /** A run does nothing unless the cache is missing for electron or there for the browser. */
  function Begin(s: State, target: Target, requested: set<Module>): State {
    if target == ForElectron && !s.cacheExists then
      s.(phase := Backup(map m | m in requested :: ToClear, if s.manifest.Some? then s.manifest.value else {}, true))
    else if target == ForBrowser && s.cacheExists && s.manifest.Some? then
      s.(phase := Revert(map m | m in s.manifest.value && m in requested :: ToRemove, s.manifest.value))
    else s
  }

  function BackupNext(s: State, e: Event): State
    requires s.phase.Backup?
  {
    var Backup(at, json, success) := s.phase;
    match e
    case NotFound(m) =>
      if m in at && at[m] == ToClear then s.(phase := s.phase.(at := at[m := Absent])) else s
    case ClearCopy(m, ok) =>
      if m !in at || at[m] != ToClear then s
      else if ok then s.(cache := s.cache[m := Missing], phase := s.phase.(at := at[m := ToCopy]))
      else s.(phase := s.phase.(at := at[m := Ended], success := false))
    case CopyPart(m) =>
      if m in at && at[m] == ToCopy then s.(cache := s.cache[m := Partial], cacheExists := true) else s
    case CopyEnd(m, ok) =>
      if m !in at || at[m] != ToCopy then s
      else if ok then
        s.(cache := s.cache[m := At(s.original, m)], cacheExists := true, phase := s.phase.(at := at[m := ToRecord]))
      else s.(phase := s.phase.(at := at[m := Ended], success := false))
    case Record(m) =>
      if m in at && at[m] == ToRecord then s.(phase := s.phase.(at := at[m := Ended], json := json + {m})) else s
    case FinishBackup(ok) =>
      if exists m | m in at :: at[m] != Ended && at[m] != Absent then s
      else if json == {} || !ok then s.(phase := Idle)
      else s.(manifest := Some(json), cacheExists := true,
              phase := if success then Rebuilding(set m | m in at && at[m] == Ended) else Idle)
    case _ => s
  }

  function RevertNext(s: State, e: Event): State
    requires s.phase.Revert?
  {
    var Revert(at, json) := s.phase;
    match e
    case RemoveOriginal(m, ok) =>
      if m !in at || at[m] != ToRemove then s
      else if ok then s.(original := s.original[m := Missing], phase := s.phase.(todo := at[m := ToRestore]))
      else s.(phase := s.phase.(todo := at[m := Settled]))
    case RestorePart(m) =>
      if m in at && at[m] == ToRestore then s.(original := s.original[m := Partial]) else s
    case RestoreEnd(m, ok) =>
      if m !in at || at[m] != ToRestore then s
      else if ok && At(s.cache, m) != Missing then
        s.(original := s.original[m := At(s.cache, m)], phase := s.phase.(todo := at[m := ToDrop]))
      else s.(phase := s.phase.(todo := at[m := Settled]))
    case DropCopy(m, ok) =>
      if m !in at || at[m] != ToDrop then s
      else if ok then s.(cache := s.cache[m := Missing], phase := s.phase.(todo := at[m := ToForget]))
      else s.(phase := s.phase.(todo := at[m := Settled]))
    case Forget(m) =>
      if m in at && at[m] == ToForget then s.(phase := s.phase.(todo := at[m := Settled], entries := json - {m})) else s
    case FinishRevert(ok) =>
      if exists m | m in at :: at[m] != Settled then s
      else if !ok then s.(phase := Idle)
      else if json == {} then s.(cache := map[], cacheExists := false, manifest := None, phase := Idle)
      else s.(manifest := Some(json), phase := Idle)
    case _ => s
  }

  /** The state after an event; an event that is not due changes nothing. */
  function Next(s: State, e: Event): State {
    match s.phase
    case Idle => if e.Start? && e.requested <= s.original.Keys then Begin(s, e.target, e.requested) else s
    case Backup(_, _, _) => BackupNext(s, e)
    case Rebuilding(targets) =>
      if e.Touch? && e.m in targets then s.(original := s.original[e.m := e.c])
      else if e == RebuildEnd then s.(phase := Idle)
      else s
    case Revert(_, _) => RevertNext(s, e)
  }

  function Run(s: State, es: seq<Event>): State
    decreases |es|
  {
    if es == [] then s else Run(Next(s, es[0]), es[1..])
  }

  // ---------- safety ----------

  function Listed(s: State): set<Module> {
    if s.manifest.Some? then s.manifest.value else {}
  }

  /** The browser build is in place, or it is in the cache under a manifest entry. */
  predicate Kept(s: State, m: Module) {
    At(s.original, m) == Browser || (At(s.cache, m) == Browser && m in Listed(s))
  }

  ghost predicate Safe(s: State, modules: set<Module>) {
    && (forall m | m in modules :: Kept(s, m))
    && (forall m | m in s.cache :: s.cache[m] != Electron)
  }

  /** What every step keeps, besides the demands of the current phase. */
  ghost predicate Common(s: State, modules: set<Module>) {
    && s.original.Keys == modules && Listed(s) <= modules
    && (!s.cacheExists ==> s.manifest == None)
    && (forall m | m in s.cache :: s.cache[m] != Electron)
    && (forall m | m in modules && m !in Listed(s) :: s.original[m] == Browser)
  }

  /** Every entry has its browser build in the cache. */
  ghost predicate Backed(s: State) {
    forall m | m in Listed(s) :: At(s.cache, m) == Browser
  }

  ghost predicate DuringBackup(s: State)
    requires s.phase.Backup?
  {
    && s.manifest == None && s.phase.json <= s.phase.at.Keys <= s.original.Keys
    && forall m | m in s.phase.at ::
         && (s.phase.at[m] == ToRecord ==> At(s.cache, m) == Browser)
         && (m in s.phase.json ==> At(s.cache, m) == Browser && s.phase.at[m] == Ended)
         && (s.phase.success && s.phase.at[m] == Ended ==> m in s.phase.json)
  }

  /** A copy is whole or it is not there. */
  predicate WholeOrMissing(s: State, m: Module) {
    At(s.cache, m) == Browser || At(s.cache, m) == Missing
  }

  /** An entry's place in the revert: it is struck off when its original is back and its copy is gone. */
  predicate RevertOf(s: State, m: Module)
    requires s.phase.Revert? && m in s.original
  {
    var todo, entries := s.phase.todo, s.phase.entries;
    if m !in entries then s.original[m] == Browser && At(s.cache, m) == Missing && (m in todo ==> todo[m] == Settled)
    else if m in todo && todo[m] == ToForget then s.original[m] == Browser && At(s.cache, m) == Missing
    else
      && WholeOrMissing(s, m)
      && (m in todo && todo[m] == ToDrop ==> s.original[m] == Browser && At(s.cache, m) == Browser)
  }

  ghost predicate DuringRevert(s: State)
    requires s.phase.Revert? && Listed(s) <= s.original.Keys
  {
    && s.manifest.Some? && s.cacheExists && s.phase.entries <= Listed(s) && s.phase.todo.Keys <= Listed(s)
    && forall m | m in Listed(s) :: RevertOf(s, m)
  }

  /** What every step keeps, failing or not. */
  ghost predicate Inv(s: State, modules: set<Module>) {
    && Common(s, modules)
    && match s.phase
       case Idle => forall m | m in Listed(s) :: WholeOrMissing(s, m)
       case Backup(_, _, _) => DuringBackup(s)
       case Rebuilding(targets) => Backed(s) && targets <= Listed(s) && s.cacheExists
       case Revert(_, _) => DuringRevert(s)
  }

  /** The entry has lost its copy, other than by the revert that is about to strike it off. */
  predicate Gone(s: State, m: Module) {
    && m in Listed(s) && At(s.cache, m) == Missing
    && !(s.phase.Revert? && (m !in s.phase.entries || (m in s.phase.todo && s.phase.todo[m] == ToForget)))
  }

  ghost predicate Intact(s: State) {
    forall m :: !Gone(s, m)
  }

  lemma IntactIsSafe(s: State, modules: set<Module>)
    requires Inv(s, modules) && Intact(s)
    ensures Safe(s, modules)
  {
    forall m | m in modules ensures Kept(s, m) {
      assert !Gone(s, m);
      if s.phase.Revert? && m in Listed(s) {
        assert RevertOf(s, m);
      }
    }
  }

  // ---------- every step keeps the invariant ----------

  lemma BackupKeepsInv(s: State, e: Event, modules: set<Module>)
    requires Inv(s, modules) && s.phase.Backup?
    ensures Inv(BackupNext(s, e), modules)
  {
    match e
    case FinishBackup(_) => BackupFinishKeepsInv(s, e, modules);
    case ClearCopy(_, _) => BackupClearKeepsInv(s, e, modules);
    case CopyPart(_) => BackupCopyKeepsInv(s, e, modules);
    case CopyEnd(_, _) => BackupCopyKeepsInv(s, e, modules);
    case _ => BackupListKeepsInv(s, e, modules);
  }

  lemma BackupFinishKeepsInv(s: State, e: Event, modules: set<Module>)
    requires Inv(s, modules) && s.phase.Backup? && e.FinishBackup?
    ensures Inv(BackupNext(s, e), modules)
  {
  }

  lemma BackupListKeepsInv(s: State, e: Event, modules: set<Module>)
    requires Inv(s, modules) && s.phase.Backup? && !(e.FinishBackup? || e.ClearCopy? || e.CopyPart? || e.CopyEnd?)
    ensures Inv(BackupNext(s, e), modules)
  {
  }

  lemma BackupClearKeepsInv(s: State, e: Event, modules: set<Module>)
    requires Inv(s, modules) && s.phase.Backup? && e.ClearCopy?
    ensures Inv(BackupNext(s, e), modules)
  {
  }

  lemma BackupCopyKeepsInv(s: State, e: Event, modules: set<Module>)
    requires Inv(s, modules) && s.phase.Backup? && (e.CopyPart? || e.CopyEnd?)
    ensures Inv(BackupNext(s, e), modules)
  {
  }

  lemma RevertKeepsInv(s: State, e: Event, modules: set<Module>)
    requires Inv(s, modules) && s.phase.Revert?
    ensures Inv(RevertNext(s, e), modules)
  {
    hide RevertOf;
    if e.FinishRevert? {
      RevertFinishKeepsInv(s, e, modules);
    } else {
      var t := RevertNext(s, e);
      forall m | m in Listed(s) ensures t.phase.Revert? && m in t.original && RevertOf(t, m) {
        EntryKeepsPlace(s, e, modules, m);
      }
      RevertKeepsRest(s, e, modules);
    }
  }

  lemma RevertKeepsRest(s: State, e: Event, modules: set<Module>)
    requires Inv(s, modules) && s.phase.Revert? && !e.FinishRevert?
    ensures var t := RevertNext(s, e);
            Common(t, modules) && Listed(t) == Listed(s) && t.manifest.Some? && t.cacheExists && t.phase.Revert?
            && t.phase.entries <= Listed(s) && t.phase.todo.Keys <= Listed(s)
  {
  }

  lemma RevertFinishKeepsInv(s: State, e: Event, modules: set<Module>)
    requires Inv(s, modules) && s.phase.Revert? && e.FinishRevert?
    ensures Inv(RevertNext(s, e), modules)
  {
    forall m | m in modules && m in Listed(s) ensures RevertOf(s, m) {}
  }

  /** A revert's step keeps each entry in its place. */
  lemma EntryKeepsPlace(s: State, e: Event, modules: set<Module>, m: Module)
    requires s.original.Keys == modules && Listed(s) <= modules && s.phase.Revert? && !e.FinishRevert?
    requires m in Listed(s) && RevertOf(s, m)
    ensures RevertNext(s, e).phase.Revert? && m in RevertNext(s, e).original && RevertOf(RevertNext(s, e), m)
  {
  }

  lemma StepKeepsInv(s: State, e: Event, modules: set<Module>)
    requires Inv(s, modules)
    ensures Inv(Next(s, e), modules)
  {
    match s.phase
    case Idle =>
    case Backup(_, _, _) => BackupKeepsInv(s, e, modules);
    case Rebuilding(_) =>
    case Revert(_, _) => RevertKeepsInv(s, e, modules);
  }

  // ---------- what loses a copy ----------

  predicate AllSettled(s: State)
    requires s.phase.Revert?
  {
    forall m | m in s.phase.todo :: s.phase.todo[m] == Settled
  }

  /** The last step of a revert, removing the cache or rewriting the manifest, fails after some module was
      restored. */
  predicate Harmful(s: State, e: Event) {
    e == FinishRevert(false) && s.phase.Revert? && AllSettled(s) && s.phase.entries != Listed(s)
  }

  predicate HarmlessRun(s: State, es: seq<Event>)
    decreases |es|
  {
    es != [] ==> !Harmful(s, es[0]) && HarmlessRun(Next(s, es[0]), es[1..])
  }

  /** The module was restored, and the failure leaves it in the manifest. */
  predicate Harmed(s: State, e: Event, m: Module) {
    Harmful(s, e) && m in Listed(s) && m !in s.phase.entries
  }

  /** An entry is left without its copy by such a failure only, and then for good. */
  lemma GoneNext(s: State, e: Event, modules: set<Module>, m: Module)
    requires Inv(s, modules)
    ensures Gone(Next(s, e), m) <==> Gone(s, m) || Harmed(s, e, m)
  {
    match s.phase
    case Idle =>
    case Backup(_, _, _) => GoneInBackup(s, e, modules, m);
    case Rebuilding(_) =>
    case Revert(_, _) =>
      if m in Listed(s) {
        assert RevertOf(s, m);
        if e.FinishRevert? {
          GoneAtFinish(s, e, modules, m);
        } else {
          GoneInRevert(s, e, m);
        }
      }
  }

  lemma GoneInBackup(s: State, e: Event, modules: set<Module>, m: Module)
    requires Inv(s, modules) && s.phase.Backup?
    ensures !Gone(BackupNext(s, e), m)
  {
    if e.FinishBackup? {
      FinishBacked(s, e, modules);
      hide Inv, BackupNext;
    }
  }

  lemma FinishBacked(s: State, e: Event, modules: set<Module>)
    requires Inv(s, modules) && s.phase.Backup? && e.FinishBackup?
    ensures Backed(BackupNext(s, e))
  {
  }

  lemma GoneAtFinish(s: State, e: Event, modules: set<Module>, m: Module)
    requires Inv(s, modules) && s.phase.Revert? && e.FinishRevert? && m in Listed(s) && RevertOf(s, m)
    ensures Gone(RevertNext(s, e), m) <==> Gone(s, m) || Harmed(s, e, m)
  {
  }

  lemma GoneInRevert(s: State, e: Event, m: Module)
    requires s.phase.Revert? && !e.FinishRevert? && m in Listed(s) && m in s.original && RevertOf(s, m)
    ensures Gone(RevertNext(s, e), m) <==> Gone(s, m)
  {
  }

  lemma IntactNext(s: State, e: Event, modules: set<Module>)
    requires Inv(s, modules)
    ensures Intact(Next(s, e)) <==> Intact(s) && !Harmful(s, e)
  {
    forall m ensures Gone(Next(s, e), m) <==> Gone(s, m) || Harmed(s, e, m) {
      GoneNext(s, e, modules, m);
    }
    if Harmful(s, e) {
      var m :| m in Listed(s) && m !in s.phase.entries;
      assert Harmed(s, e, m);
      hide Inv, Gone, Next;
      assert Gone(Next(s, e), m);
    }
  }

  // ---------- whole runs ----------

  lemma {:induction false} RunKeepsInv(s: State, es: seq<Event>, modules: set<Module>)
    requires Inv(s, modules)
    ensures Inv(Run(s, es), modules)
    ensures Intact(Run(s, es)) <==> Intact(s) && HarmlessRun(s, es)
    decreases |es|
  {
    hide Inv, Intact, Harmful, Next;
    if es != [] {
      StepKeepsInv(s, es[0], modules);
      IntactNext(s, es[0], modules);
      RunKeepsInv(Next(s, es[0]), es[1..], modules);
    }
  }

  lemma InitialIntact(modules: set<Module>)
    ensures Inv(Initial(modules), modules) && Intact(Initial(modules))
  {
  }

  /** After any events, in any order and with any failures other than that, no browser build is lost. */
  lemma NoBuildIsLost(modules: set<Module>, es: seq<Event>)
    requires HarmlessRun(Initial(modules), es)
    ensures Safe(Run(Initial(modules), es), modules)
  {
    hide Inv, Intact;
    InitialIntact(modules);
    RunKeepsInv(Initial(modules), es, modules);
    IntactIsSafe(Run(Initial(modules), es), modules);
  }

  /** Whenever there is no cache between runs, every module is a browser build, whatever has failed. */
  lemma NoCacheMeansBrowser(modules: set<Module>, es: seq<Event>, m: Module)
    requires m in modules && Run(Initial(modules), es).phase == Idle && !Run(Initial(modules), es).cacheExists
    ensures At(Run(Initial(modules), es).original, m) == Browser
  {
    InitialIntact(modules);
    RunKeepsInv(Initial(modules), es, modules);
  }
}
