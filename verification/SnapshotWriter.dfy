/** The dirty-flag protocol of src/RegisterPersistenceRuntime.cpp. */
module SnapshotWriter {
  import opened Machine
  import opened RegisterMerge
  import opened RegisterState
  import RegisterStore
  import AntiEntropy
  import P = RegisterPersistence
  import SealedSnapshot

  // A step relation between the threads that mutate the register store and the one that writes the
  // snapshot file: each step is what one thread does while it holds a lock. The key is fixed and
  // saves succeed.

  /** Where the writer thread is. `taken` is what a snapshot not yet in the file will open to. */
  datatype Place =
    | Waiting
    | Debouncing
    | Saving
    | Snapshotted(taken: Records)
    | FinalSaving
    | FinalSnapshotted(taken: Records)
    | Finished
  {
    predicate Final() {
      FinalSaving? || FinalSnapshotted? || Finished?
    }
  }

  /**
   The store, the time, the listener calls not yet made, the writer's flags, the records that the
   file opens to, and the writer.
   */
  datatype System = System(store: State, now: u64, outstanding: nat, dirty: bool, stop: bool,
                           file: Records, writer: Place)

  datatype Action =
    | Operate(op: Op, at: u64)
    | Hear
    | Pass(to: u64)
    | Wake
    | EndDebounce
    | TakeSnapshot(opens: bool)
    | WriteFile
    | Stop
    | Start(loaded: State, changed: bool)

  function Replicated(cfg: Config, m: Records, now: u64): Records {
    RegisterStore.Replicated(m, now, cfg.ttlMs)
  }

  /** What a file that holds a snapshot opens to: nothing when the count is over what the frame can tell. */
  function Opened(taken: Records): Records {
    if |taken| <= SealedSnapshot.MAX_RECORDS then taken else map[]
  }

  /** Two record maps a reader at `now` cannot tell apart, the mirror aside. */
  predicate Same(cfg: Config, a: Records, b: Records, now: u64) {
    Replicated(cfg, a, now) == Replicated(cfg, b, now)
  }

  predicate InFile(cfg: Config, s: System) {
    Same(cfg, s.file, s.store.records, s.now)
  }

  ghost predicate Step(cfg: Config, s: System, a: Action, s': System) {
    match a
    // A store operation under the store's mutex; its listener call is still to come.
    case Operate(op, at) =>
      && s.now <= at
      && var (store, result) := RegisterState.Step(cfg, s.store, op, at);
         s' == s.(store := store, now := at,
                  outstanding := s.outstanding + if RegisterStore.Notifies(op, result) then 1 else 0)
    // The change listener.
    case Hear =>
      s.outstanding > 0 && s' == s.(outstanding := s.outstanding - 1, dirty := true)
    case Pass(to) =>
      s.now <= to && s' == s.(now := to)
    // The wait ends; a stop leads to the final check, which leaves the flag as it is.
    case Wake =>
      && s.writer.Waiting? && (s.dirty || s.stop)
      && s' == s.(writer := if !s.stop then Debouncing else if s.dirty then FinalSaving else Finished)
    // The quiet period is over or cut short; the lock is released for the save.
    case EndDebounce =>
      s.writer.Debouncing? && s' == s.(dirty := false, writer := Saving)
    // `opens` says whether the file will open again, which depends on the count.
    case TakeSnapshot(opens) =>
      && (s.writer.Saving? || s.writer.FinalSaving?)
      && var pruned := Prune(s.store.records, s.now, cfg.ttlMs);
         var taken := if opens then pruned - {MIRROR} else map[];
         s' == s.(store := s.store.(records := pruned),
                  writer := if s.writer.Saving? then Snapshotted(taken) else FinalSnapshotted(taken))
    case WriteFile =>
      && (s.writer.Snapshotted? || s.writer.FinalSnapshotted?)
      && s' == s.(file := s.writer.taken, writer := if s.writer.Snapshotted? then Waiting else Finished)
    case Stop =>
      s' == s.(stop := true)
    // A later start merges the file back in; a mark left behind by the last run is still there.
    case Start(loaded, changed) =>
      && s.writer.Finished?
      && AntiEntropy.IsPointwiseJoin(cfg, s.store.records, s.file, s.now, Prune(loaded.records, s.now, cfg.ttlMs))
      && s' == s.(store := loaded, dirty := s.dirty || changed, stop := false, writer := Waiting)
  }

  ghost predicate IsRun(cfg: Config, actions: seq<Action>, trace: seq<System>) {
    && |trace| == |actions| + 1
    && forall k | 0 <= k < |actions| :: Step(cfg, trace[k], actions[k], trace[k + 1])
  }

  // ---- No change is forgotten ----

  /** The records the file holds once the save in progress, if any, is written; none while it may still include anything. */
  ghost predicate WillHold(cfg: Config, s: System) {
    match s.writer
    case Saving => true
    case FinalSaving => true
    case Snapshotted(taken) => Same(cfg, taken, s.store.records, s.now)
    case FinalSnapshotted(taken) => Same(cfg, taken, s.store.records, s.now)
    case _ => InFile(cfg, s)
  }

  /**
   A replicated change missing from the file has its listener call outstanding, or the flag
   set, or a save in progress that includes it.
   */
  ghost predicate Accounted(cfg: Config, s: System) {
    WillHold(cfg, s) || s.outstanding > 0 || s.dirty
  }

  lemma SameLater(cfg: Config, a: Records, b: Records, now: u64, later: u64)
    requires now <= later && Same(cfg, a, b, now)
    ensures Same(cfg, a, b, later)
  {
    ReplicatedLater(cfg, a, now, later);
    ReplicatedLater(cfg, b, now, later);
  }

  lemma ReplicatedLater(cfg: Config, m: Records, now: u64, later: u64)
    requires now <= later
    ensures Replicated(cfg, m, later) == Prune(Replicated(cfg, m, now), later, cfg.ttlMs)
  {}

  /** A silent call, at any time, leaves the replicated records as they were. */
  lemma SilentSame(cfg: Config, m: Records, s: System, op: Op, at: u64)
    requires s.now <= at && Same(cfg, m, s.store.records, s.now)
    requires !RegisterStore.Notifies(op, RegisterState.Step(cfg, s.store, op, at).1)
    ensures Same(cfg, m, RegisterState.Step(cfg, s.store, op, at).0.records, at)
  {
    SameLater(cfg, m, s.store.records, s.now, at);
    RegisterStore.SilentCallsChangeNothing(cfg, s.store, op, at);
  }

  lemma SilentWillHold(cfg: Config, s: System, op: Op, at: u64)
    requires s.now <= at && WillHold(cfg, s)
    requires !RegisterStore.Notifies(op, RegisterState.Step(cfg, s.store, op, at).1)
    ensures WillHold(cfg, s.(store := RegisterState.Step(cfg, s.store, op, at).0, now := at))
  {
    if InFile(cfg, s) {
      SilentSame(cfg, s.file, s, op, at);
    }
    if (s.writer.Snapshotted? || s.writer.FinalSnapshotted?) && Same(cfg, s.writer.taken, s.store.records, s.now) {
      SilentSame(cfg, s.writer.taken, s, op, at);
    }
  }

  lemma WillHoldLater(cfg: Config, s: System, to: u64)
    requires s.now <= to && WillHold(cfg, s)
    ensures WillHold(cfg, s.(now := to))
  {
    if InFile(cfg, s) {
      SameLater(cfg, s.file, s.store.records, s.now, to);
    }
    if (s.writer.Snapshotted? || s.writer.FinalSnapshotted?) && Same(cfg, s.writer.taken, s.store.records, s.now) {
      SameLater(cfg, s.writer.taken, s.store.records, s.now, to);
    }
  }

  lemma SnapshotIsSame(cfg: Config, m: Records, now: u64)
    ensures Same(cfg, Prune(m, now, cfg.ttlMs) - {MIRROR}, m, now)
    ensures Same(cfg, Prune(m, now, cfg.ttlMs) - {MIRROR}, Prune(m, now, cfg.ttlMs), now)
    ensures Same(cfg, Prune(m, now, cfg.ttlMs), m, now)
  {}

  /** Merging a file that already holds the same records changes nothing. */
  lemma LoadSame(cfg: Config, s: System, loaded: State)
    requires InFile(cfg, s)
    requires AntiEntropy.IsPointwiseJoin(cfg, s.store.records, s.file, s.now, Prune(loaded.records, s.now, cfg.ttlMs))
    ensures Same(cfg, s.file, loaded.records, s.now)
  {
    var mine, theirs := Prune(s.store.records, s.now, cfg.ttlMs), Prune(s.file, s.now, cfg.ttlMs);
    var after := Prune(loaded.records, s.now, cfg.ttlMs);
    forall n | n != MIRROR ensures AntiEntropy.Get(after, n) == AntiEntropy.Get(theirs, n) {
      assert AntiEntropy.Get(mine - {MIRROR}, n) == AntiEntropy.Get(theirs - {MIRROR}, n);
      if n in theirs {
        MergeLaws(theirs[n], theirs[n], theirs[n]);
      }
    }
    SameByNames(after, theirs);
  }

  lemma SameByNames(a: Records, b: Records)
    requires forall n | n != MIRROR :: AntiEntropy.Get(a, n) == AntiEntropy.Get(b, n)
    ensures a - {MIRROR} == b - {MIRROR}
  {
    forall n | n in a - {MIRROR} ensures n in b - {MIRROR} && b[n] == a[n] {
      assert AntiEntropy.Get(a, n) == AntiEntropy.Get(b, n);
    }
    forall n | n in b - {MIRROR} ensures n in a - {MIRROR} {
      assert AntiEntropy.Get(a, n) == AntiEntropy.Get(b, n);
    }
  }

  /** Loading the bytes of a snapshot taken at `t`, at any time, is the merge that Start makes of what the file opens to. */
  lemma StartIsALoad(a: SealedSnapshot.Aead, cfg: Config, saved: State, t: u64, st: State, now: u64,
                     key: SealedSnapshot.SealKey, nonce: SealedSnapshot.Nonce)
    requires SealedSnapshot.Ideal(a) && P.InCap(saved.records)
    ensures var loaded := P.LoadedInto(a, cfg, st, Some(P.SavedFile(a, cfg, saved, key, nonce, t)), key, now);
      AntiEntropy.IsPointwiseJoin(cfg, st.records, Opened(Replicated(cfg, saved.records, t)), now,
                                  Prune(loaded.records, now, cfg.ttlMs))
  {
    var loaded := P.LoadedInto(a, cfg, st, Some(P.SavedFile(a, cfg, saved, key, nonce, t)), key, now);
    P.InCapSealable(saved.records);
    P.SnapshotCount(cfg, saved, t);
    forall n | n != MIRROR
      ensures AntiEntropy.Get(Prune(loaded.records, now, cfg.ttlMs), n)
           == AntiEntropy.JoinOption(AntiEntropy.Get(Prune(st.records, now, cfg.ttlMs), n),
                                     AntiEntropy.Get(Prune(Opened(Replicated(cfg, saved.records, t)), now, cfg.ttlMs), n))
    {
      P.LoadIsTheJoin(a, cfg, saved, t, st, now, key, nonce, n);
      OpenedShows(cfg, saved, t, now, n);
    }
  }

  lemma OpenedShows(cfg: Config, saved: State, t: u64, now: u64, n: Bytes)
    requires P.InCap(saved.records) && n != MIRROR
    requires |P.SnapshotList(cfg, saved, t)| == |Replicated(cfg, saved.records, t)|
    ensures P.FileShows(cfg, saved, t, now, n)
         == AntiEntropy.Get(Prune(Opened(Replicated(cfg, saved.records, t)), now, cfg.ttlMs), n)
  {
    if n in saved.records {
      assert P.W.RecordInCap(saved.records[n]);
    }
  }

  /** A snapshot whose file will not open again. */
  predicate Overfull(a: Action) {
    a.TakeSnapshot? && !a.opens
  }

  /** A file opens again if and only if it holds no more records than the frame can tell. */
  ghost predicate TellsCount(cfg: Config, s: System, a: Action) {
    a.TakeSnapshot? ==> (a.opens <==> |Replicated(cfg, s.store.records, s.now)| <= SealedSnapshot.MAX_RECORDS)
  }

  lemma OverfullHolds(m: Records)
    requires |m| > SealedSnapshot.MAX_RECORDS
    ensures m != map[]
  {}

  lemma UnopenedIsLost(cfg: Config, s: System, s': System)
    requires Step(cfg, s, TakeSnapshot(false), s') && Replicated(cfg, s.store.records, s.now) != map[]
    ensures !WillHold(cfg, s')
  {
    SnapshotIsSame(cfg, s.store.records, s.now);
    var none: Records := map[];
    assert Replicated(cfg, none, s.now) == none;
  }

  /** An overfull snapshot with no mark to follow does lose what it was taken of. */
  lemma OverfullIsLost(cfg: Config, s: System, a: Action, s': System)
    requires Step(cfg, s, a, s') && Overfull(a) && TellsCount(cfg, s, a) && !s.dirty && s.outstanding == 0
    ensures !Accounted(cfg, s')
  {
    OverfullHolds(Replicated(cfg, s.store.records, s.now));
    UnopenedIsLost(cfg, s, s');
  }

  /** Every step keeps every change accounted for, except one that takes an overfull snapshot with no mark to follow. */
  lemma StepAccounted(cfg: Config, s: System, a: Action, s': System)
    requires Accounted(cfg, s) && Step(cfg, s, a, s')
    requires Overfull(a) ==> s.dirty || s.outstanding > 0
    ensures Accounted(cfg, s')
  {
    match a
    case Operate(op, at) =>
      if WillHold(cfg, s) && !RegisterStore.Notifies(op, RegisterState.Step(cfg, s.store, op, at).1) {
        SilentWillHold(cfg, s, op, at);
      }
    case Pass(to) =>
      if WillHold(cfg, s) {
        WillHoldLater(cfg, s, to);
      }
    case TakeSnapshot(opens) =>
      SnapshotIsSame(cfg, s.store.records, s.now);
    case Start(loaded, changed) =>
      if InFile(cfg, s) {
        LoadSame(cfg, s, loaded);
      }
    case _ =>
  }

  /** No snapshot between steps j and k is overfull. */
  predicate Fitting(actions: seq<Action>, j: nat, k: nat)
    requires k <= |actions|
  {
    forall i | j <= i < k :: !Overfull(actions[i])
  }

  /** In every interleaving of mutators, listener calls and the writer, from a start on. */
  lemma {:induction false} NoLostSnapshot(cfg: Config, actions: seq<Action>, trace: seq<System>, k: nat)
    requires IsRun(cfg, actions, trace) && k <= |actions| && Fitting(actions, 0, k)
    requires Accounted(cfg, trace[0])
    ensures Accounted(cfg, trace[k])
  {
    if k > 0 {
      NoLostSnapshot(cfg, actions, trace, k - 1);
      StepAccounted(cfg, trace[k - 1], actions[k - 1], trace[k]);
    }
  }

  // ---- Shutdown ----

  /** Only a stop leads to the final check. */
  predicate FinalOnlyAfterStop(s: System) {
    s.writer.Final() ==> s.stop
  }

  lemma {:induction false} RunFinalOnlyAfterStop(cfg: Config, actions: seq<Action>, trace: seq<System>, k: nat)
    requires IsRun(cfg, actions, trace) && k <= |actions|
    requires FinalOnlyAfterStop(trace[0])
    ensures FinalOnlyAfterStop(trace[k])
  {
    if k > 0 {
      RunFinalOnlyAfterStop(cfg, actions, trace, k - 1);
      assert Step(cfg, trace[k - 1], actions[k - 1], trace[k]);
    }
  }

  /** A step that is not a restart and not a change the listeners would hear of. */
  ghost predicate Quiet(cfg: Config, s: System, a: Action) {
    && !a.Start?
    && (a.Operate? ==> !RegisterStore.Notifies(a.op, RegisterState.Step(cfg, s.store, a.op, a.at).1))
  }

  /** After the mutators are done and heard, and stop has been called. */
  ghost predicate Stopping(cfg: Config, s: System) {
    && s.stop && s.outstanding == 0
    && (WillHold(cfg, s) || (s.dirty && !s.writer.Final()))
  }

  lemma StepStopping(cfg: Config, s: System, a: Action, s': System)
    requires Stopping(cfg, s) && Step(cfg, s, a, s') && Quiet(cfg, s, a) && !Overfull(a)
    ensures Stopping(cfg, s')
  {
    match a
    case Operate(op, at) =>
      if WillHold(cfg, s) {
        SilentWillHold(cfg, s, op, at);
      }
    case Pass(to) =>
      if WillHold(cfg, s) {
        WillHoldLater(cfg, s, to);
      }
    case TakeSnapshot(_) =>
      SnapshotIsSame(cfg, s.store.records, s.now);
    case _ =>
  }

  /** From step `j` on, nothing notifies and nothing restarts. */
  ghost predicate QuietFrom(cfg: Config, actions: seq<Action>, trace: seq<System>, j: nat)
    requires |trace| == |actions| + 1
  {
    forall i | j <= i < |actions| :: Quiet(cfg, trace[i], actions[i])
  }

  lemma QuietStep(cfg: Config, actions: seq<Action>, trace: seq<System>, j: nat, k: nat, i: nat)
    requires IsRun(cfg, actions, trace) && j <= i < k <= |actions|
    requires QuietFrom(cfg, actions, trace, j) && Fitting(actions, j, k)
    ensures Step(cfg, trace[i], actions[i], trace[i + 1]) && Quiet(cfg, trace[i], actions[i]) && !Overfull(actions[i])
  {}

  lemma {:induction false} RunStopping(cfg: Config, actions: seq<Action>, trace: seq<System>, j: nat, k: nat)
    requires IsRun(cfg, actions, trace) && j <= k <= |actions|
    requires QuietFrom(cfg, actions, trace, j) && Stopping(cfg, trace[j]) && Fitting(actions, j, k)
    ensures Stopping(cfg, trace[k])
  {
    if j < k {
      var i := k - 1;
      RunStopping(cfg, actions, trace, j, i);
      QuietStep(cfg, actions, trace, j, k, i);
      StepStopping(cfg, trace[i], actions[i], trace[i + 1]);
    }
  }

  /**
   Once the mutators have finished and been heard, stopping and joining the writer leaves the
   file holding the final replicated state, up to expired records -- whatever the writer was
   doing when stop was called, and whatever silent calls are still made.
   */
  lemma StopLeavesEverythingInTheFile(cfg: Config, actions: seq<Action>, trace: seq<System>, j: nat, k: nat)
    requires IsRun(cfg, actions, trace) && j < k <= |actions|
    requires Accounted(cfg, trace[0]) && FinalOnlyAfterStop(trace[0])
    requires actions[j] == Stop && !trace[j].stop && trace[j].outstanding == 0
    requires QuietFrom(cfg, actions, trace, j) && Fitting(actions, 0, k)
    requires trace[k].writer.Finished?
    ensures InFile(cfg, trace[k])
  {
    NoLostSnapshot(cfg, actions, trace, j);
    RunFinalOnlyAfterStop(cfg, actions, trace, j);
    assert Step(cfg, trace[j], actions[j], trace[j + 1]);
    RunStopping(cfg, actions, trace, j + 1, k);
  }

  // ---- What the final check decides ----

  /** From the final check on: either the save is still to come or done, or no save comes. */
  ghost predicate AfterCheck(cfg: Config, from: System, s: System) {
    && s.writer.Final() && from.now <= s.now
    && if from.dirty then WillHold(cfg, s)
       else s.writer.Finished? && s.file == from.file && Same(cfg, from.store.records, s.store.records, s.now)
  }

  lemma StepAfterCheck(cfg: Config, from: System, s: System, a: Action, s': System)
    requires AfterCheck(cfg, from, s) && Step(cfg, s, a, s') && Quiet(cfg, s, a) && !Overfull(a)
    ensures AfterCheck(cfg, from, s')
  {
    match a
    case Operate(op, at) =>
      if from.dirty {
        SilentWillHold(cfg, s, op, at);
      } else {
        SilentSame(cfg, from.store.records, s, op, at);
      }
    case Pass(to) =>
      if from.dirty {
        WillHoldLater(cfg, s, to);
      } else {
        SameLater(cfg, from.store.records, s.store.records, s.now, to);
      }
    case TakeSnapshot(_) =>
      SnapshotIsSame(cfg, s.store.records, s.now);
    case _ =>
  }

  lemma CheckDecides(cfg: Config, s: System, s': System)
    requires s.stop && Step(cfg, s, Wake, s')
    ensures AfterCheck(cfg, s, s')
  {}

  lemma {:induction false} RunAfterCheck(cfg: Config, actions: seq<Action>, trace: seq<System>, j: nat, k: nat)
    requires IsRun(cfg, actions, trace) && j < k <= |actions| && QuietFrom(cfg, actions, trace, j)
    requires actions[j] == Wake && trace[j].stop && Fitting(actions, j, k)
    ensures AfterCheck(cfg, trace[j], trace[k])
  {
    if k == j + 1 {
      CheckDecides(cfg, trace[j], trace[k]);
    } else {
      var i := k - 1;
      RunAfterCheck(cfg, actions, trace, j, i);
      QuietStep(cfg, actions, trace, j, k, i);
      StepAfterCheck(cfg, trace[j], trace[i], actions[i], trace[i + 1]);
    }
  }

  /**
   When the writer makes its final check at step j and the mutators are done, the file it leaves
   holds the final replicated records if and only if the mark was set at the check, or the file held
   everything already, up to what has expired since.
   */
  lemma FinalCheckExact(cfg: Config, actions: seq<Action>, trace: seq<System>, j: nat, k: nat)
    requires IsRun(cfg, actions, trace) && j < k <= |actions| && QuietFrom(cfg, actions, trace, j)
    requires actions[j] == Wake && trace[j].stop && trace[k].writer.Finished? && Fitting(actions, j, k)
    ensures InFile(cfg, trace[k]) <==>
      trace[j].dirty || Same(cfg, trace[j].file, trace[j].store.records, trace[k].now)
  {
    RunAfterCheck(cfg, actions, trace, j, k);
    if !trace[j].dirty {
      SameLater(cfg, trace[j].store.records, trace[j].store.records, trace[j].now, trace[k].now);
    }
  }

  /** A listener call made after the final check leaves a mark, and a restart keeps it for the next run. */
  lemma {:induction false} LateMarkStays(cfg: Config, actions: seq<Action>, trace: seq<System>, j: nat, i: nat, k: nat)
    requires IsRun(cfg, actions, trace) && j < i < k <= |actions|
    requires actions[j] == Wake && trace[j].stop && actions[i] == Hear
    requires forall l | j <= l < k - 1 :: Quiet(cfg, trace[l], actions[l])
    requires actions[k - 1].Start? || Quiet(cfg, trace[k - 1], actions[k - 1])
    ensures trace[k].dirty
  {
    assert Step(cfg, trace[k - 1], actions[k - 1], trace[k]);
    if i < k - 1 {
      LateMarkStays(cfg, actions, trace, j, i, k - 1);
      StaysFinal(cfg, actions, trace, j, k - 1);
    }
  }

  lemma {:induction false} StaysFinal(cfg: Config, actions: seq<Action>, trace: seq<System>, j: nat, k: nat)
    requires IsRun(cfg, actions, trace) && j < k <= |actions|
    requires actions[j] == Wake && trace[j].stop
    requires forall l | j <= l < k :: Quiet(cfg, trace[l], actions[l])
    ensures trace[k].writer.Final()
  {
    assert Step(cfg, trace[k - 1], actions[k - 1], trace[k]);
    if j + 1 < k {
      StaysFinal(cfg, actions, trace, j, k - 1);
    }
  }

  /** The run in which that happens: a record is merged in, and its listener call is overtaken by a stop. */
  lemma LateCallMissesTheSave(cfg: Config, r: Record, now: u64) returns (actions: seq<Action>, trace: seq<System>)
    requires r.name != MIRROR && !IsExpired(r, now, cfg.ttlMs)
    ensures actions == [Operate(ApplyRemote(r), now), Stop, Wake, Hear] && IsRun(cfg, actions, trace)
    ensures trace[0].writer == Waiting && InFile(cfg, trace[0])
    ensures trace[4].writer.Finished? && trace[4].outstanding == 0 && trace[4].dirty && !InFile(cfg, trace[4])
  {
    actions := [Operate(ApplyRemote(r), now), Stop, Wake, Hear];
    var s0 := System(State(map[], r.written), now, 0, false, false, map[], Waiting);
    var s1 := s0.(store := RegisterState.Step(cfg, s0.store, ApplyRemote(r), now).0, outstanding := 1);
    var s2 := s1.(stop := true);
    var s3 := s2.(writer := Finished);
    trace := [s0, s1, s2, s3, s3.(outstanding := 0, dirty := true)];
    assert r.name in Replicated(cfg, s1.store.records, now) && r.name !in Replicated(cfg, map[], now);
  }

  // ---- The writer saves, and then rests ----

  /** No listener call is made between steps j and k, and nothing restarts. */
  predicate Unheard(actions: seq<Action>, j: nat, k: nat)
    requires k <= |actions|
  {
    forall i | j < i < k :: actions[i] != Hear && !actions[i].Start?
  }

  /** After a save has begun, the mark stays off until a listener is called again, so the writer waits. */
  lemma {:induction false} WriterRests(cfg: Config, actions: seq<Action>, trace: seq<System>, j: nat, k: nat)
    requires IsRun(cfg, actions, trace) && j < k <= |actions|
    requires actions[j] == EndDebounce && Unheard(actions, j, k)
    ensures !trace[k].dirty
    ensures trace[k].writer.Waiting? && !trace[k].stop ==> forall s :: !Step(cfg, trace[k], Wake, s)
  {
    var i := k - 1;
    assert Step(cfg, trace[i], actions[i], trace[i + 1]);
    if j < i {
      assert Unheard(actions, j, i) && actions[i] != Hear;
      WriterRests(cfg, actions, trace, j, i);
    }
  }

  /** A marked writer can always go on to save everything: it wakes, waits a little, and writes what is there. */
  lemma MarkLeadsToSave(cfg: Config, s: System) returns (s1: System, s2: System, s3: System, s4: System)
    requires s.writer.Waiting? && s.dirty && !s.stop
    ensures Step(cfg, s, Wake, s1) && Step(cfg, s1, EndDebounce, s2)
    ensures Step(cfg, s2, TakeSnapshot(true), s3) && Step(cfg, s3, WriteFile, s4)
    ensures s4.writer.Waiting? && !s4.dirty && InFile(cfg, s4)
  {
    var pruned := Prune(s.store.records, s.now, cfg.ttlMs);
    SnapshotIsSame(cfg, s.store.records, s.now);
    s1 := s.(writer := Debouncing);
    s2 := s1.(dirty := false, writer := Saving);
    s3 := s2.(store := s.store.(records := pruned), writer := Snapshotted(pruned - {MIRROR}));
    s4 := s3.(file := pruned - {MIRROR}, writer := Waiting);
  }
}
