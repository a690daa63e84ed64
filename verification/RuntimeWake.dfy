/** The event-driven loop of the network runtime. */
module RuntimeWake {
  import opened Machine
  import S = ReconcilerState
  import PeerTable
  import Reconciler

  // When the runtime thread must wake, and what it does then. The hash of the interface addresses and
  // whether discovery starts come from outside. Times are milliseconds of the steady clock.

  const MIN_REPUBLISH_INTERVAL_MS := 10_000

  datatype Runtime = Runtime(lastAddrHash: u64, pendingHash: u64, republishPending: bool, lastRepublish: int,
                             discoveryRunning: bool, interfacesChanged: bool)

  // ---- One wake ----

  /** A changed fingerprint asks for a re-announcement; 0 means that reading it failed. */
  function Rehashed(r: Runtime, hash: u64): Runtime {
    if !r.interfacesChanged then r
    else if hash != 0 && hash != r.lastAddrHash
    then r.(interfacesChanged := false, republishPending := true, pendingHash := hash)
    else r.(interfacesChanged := false)
  }

  predicate RepublishDue(r: Runtime, now: int) {
    r.republishPending && now - r.lastRepublish >= MIN_REPUBLISH_INTERVAL_MS
  }

  /** Discovery is restarted; until that works it is tried again after each interval. */
  function Republished(r: Runtime, now: int, starts: bool): Runtime {
    if !RepublishDue(r, now) then r
    else if starts then r.(lastAddrHash := r.pendingHash, lastRepublish := now, republishPending := false, discoveryRunning := true)
    else r.(lastRepublish := now, discoveryRunning := false)
  }

  function Processed(r: Runtime, now: int, hash: u64, starts: bool): Runtime {
    Republished(Rehashed(r, hash), now, starts)
  }

  /** Whether a wake at `now` restarts discovery. */
  predicate Attempts(r: Runtime, now: int, hash: u64) {
    RepublishDue(Rehashed(r, hash), now)
  }

  // ---- Deadlines ----

  /** Something is waiting for the clock to reach `t`. */
  ghost predicate WorkDue(r: Runtime, pending: map<Bytes, int>, t: int) {
    RepublishDue(r, t) || exists h :: h in pending && t >= pending[h]
  }

  /** The next wake is exact: from it on, and no earlier, there is work to do. */
  ghost predicate IsNextWake(r: Runtime, pending: map<Bytes, int>, deadline: Option<int>) {
    forall t: int :: WorkDue(r, pending, t) <==> deadline.Some? && t >= deadline.value
  }

  /** Nothing is left due after a wake, so the thread sleeps to a time in the future. */
  lemma NothingLeftDue(r: Runtime, st: S.State, now: int, hash: u64, starts: bool)
    ensures !WorkDue(Processed(r, now, hash, starts), S.OnSweep(st, now).pending, now)
    ensures forall d | IsNextWake(Processed(r, now, hash, starts), S.OnSweep(st, now).pending, Some(d)) :: d > now
  {
    S.SweepPending(st, now);
    var after, pending := Processed(r, now, hash, starts), S.OnSweep(st, now).pending;
    forall d | IsNextWake(after, pending, Some(d)) ensures d > now {
      assert !WorkDue(after, pending, now);
    }
  }

  /** A wake before anything is due, with no interface event, does nothing. */
  lemma EarlyWakeIsIdle(r: Runtime, st: S.State, now: int, hash: u64, starts: bool)
    requires !r.interfacesChanged && !WorkDue(r, st.pending, now)
    ensures Processed(r, now, hash, starts) == r && S.OnSweep(st, now) == st
  {
    assert S.Expired(st, now) == {};
    assert S.Leaving(st, now) == {};
    PeerTable.WithoutNothing(st.peers, {});
    assert st.active - {} == st.active && st.pending - {} == st.pending;
  }

  // ---- Restarts are spaced out ----

  datatype Event = Interfaces | Wake(now: int, hash: u64, starts: bool)

  function Next(r: Runtime, e: Event): Runtime {
    match e
    case Interfaces => r.(interfacesChanged := true)
    case Wake(now, hash, starts) => Processed(r, now, hash, starts)
  }

  ghost predicate IsRun(events: seq<Event>, trace: seq<Runtime>) {
    && |trace| == |events| + 1
    && forall k | 0 <= k < |events| :: trace[k + 1] == Next(trace[k], events[k])
  }

  predicate AttemptAt(events: seq<Event>, trace: seq<Runtime>, k: nat)
    requires k < |events| < |trace|
  {
    events[k].Wake? && Attempts(trace[k], events[k].now, events[k].hash)
  }

  lemma {:induction false} LastAttempt(events: seq<Event>, trace: seq<Runtime>, i: nat, k: nat)
    requires IsRun(events, trace) && i < k <= |events| && AttemptAt(events, trace, i)
    ensures events[i].now <= trace[k].lastRepublish
  {
    if i < k - 1 {
      LastAttempt(events, trace, i, k - 1);
    }
    assert trace[k] == Next(trace[k - 1], events[k - 1]);
  }

  /** However interfaces flap, discovery is restarted at most once in ten seconds. */
  lemma RestartsAreSpaced(events: seq<Event>, trace: seq<Runtime>, i: nat, j: nat)
    requires IsRun(events, trace) && i < j < |events| && AttemptAt(events, trace, i) && AttemptAt(events, trace, j)
    ensures events[j].now - events[i].now >= MIN_REPUBLISH_INTERVAL_MS
  {
    LastAttempt(events, trace, i, j);
  }

  /** An event seen during the cooldown is not lost: it stays pending until a restart succeeds. */
  lemma {:induction false} ChangeStaysPending(events: seq<Event>, trace: seq<Runtime>, i: nat, k: nat)
    requires IsRun(events, trace) && i <= k <= |events| && trace[i].republishPending
    requires forall j | i <= j < k :: AttemptAt(events, trace, j) ==> !events[j].starts
    ensures trace[k].republishPending
  {
    if i < k {
      ChangeStaysPending(events, trace, i, k - 1);
      assert trace[k] == Next(trace[k - 1], events[k - 1]);
    }
  }

  /** Discovery runs if and only if the last attempt to start it worked, and the cooldown counts from that attempt. */
  lemma {:induction false} LastAttemptDecides(events: seq<Event>, trace: seq<Runtime>, i: nat, k: nat)
    requires IsRun(events, trace) && i < k <= |events| && AttemptAt(events, trace, i)
    requires forall j | i < j < k :: !AttemptAt(events, trace, j)
    ensures trace[k].discoveryRunning == events[i].starts && trace[k].lastRepublish == events[i].now
    ensures events[i].starts || trace[k].republishPending
  {
    var last := k - 1;
    assert trace[last + 1] == Next(trace[last], events[last]);
    if i < last {
      LastAttemptDecides(events, trace, i, last);
      assert !AttemptAt(events, trace, last);
    }
  }

  // ---- Which fingerprint a restart records ----

  /** The wake reads the interface addresses, and reading them works. */
  predicate Reads(r: Runtime, e: Event) {
    e.Wake? && r.interfacesChanged && e.hash != 0
  }

  /** `readings[k]` is the last fingerprint read before event k. The run starts from a baseline, with nothing pending. */
  ghost predicate IsRunReading(events: seq<Event>, trace: seq<Runtime>, readings: seq<u64>) {
    && IsRun(events, trace) && |readings| == |trace|
    && readings[0] == trace[0].lastAddrHash && !trace[0].republishPending
    && forall k | 0 <= k < |events| :: readings[k + 1] == if Reads(trace[k], events[k]) then events[k].hash else readings[k]
  }

  /** What waits to be acted on is news, and is the last reading unless the addresses went back. */
  predicate PendingIsNews(r: Runtime, read: u64) {
    r.republishPending ==> r.pendingHash != r.lastAddrHash && (read == r.pendingHash || read == r.lastAddrHash)
  }

  lemma {:induction false} RunPendingIsNews(events: seq<Event>, trace: seq<Runtime>, readings: seq<u64>, k: nat)
    requires IsRunReading(events, trace, readings) && k <= |events|
    ensures PendingIsNews(trace[k], readings[k])
  {
    if k > 0 {
      RunPendingIsNews(events, trace, readings, k - 1);
      assert trace[k] == Next(trace[k - 1], events[k - 1]);
    }
  }

  predicate RestartAt(events: seq<Event>, trace: seq<Runtime>, k: nat)
    requires k < |events| < |trace|
  {
    AttemptAt(events, trace, k) && events[k].starts
  }

  /**
   Every restart of every run, the timer's included, records the fingerprint last read if and
   only if that is not the one acted on before: a change that was not undone.
   */
  lemma RestartRecordsFingerprint(events: seq<Event>, trace: seq<Runtime>, readings: seq<u64>, k: nat)
    requires IsRunReading(events, trace, readings) && k < |events| && RestartAt(events, trace, k)
    ensures trace[k + 1].lastAddrHash == readings[k + 1] <==> readings[k + 1] != trace[k].lastAddrHash
  {
    RunPendingIsNews(events, trace, readings, k);
    assert trace[k + 1] == Next(trace[k], events[k]);
  }

  // ---- Which changes are announced ----

  /** A reading that differs from the one before, and that neither restarts discovery nor leaves a restart pending. */
  predicate MissedAt(events: seq<Event>, trace: seq<Runtime>, readings: seq<u64>, k: nat)
    requires k < |events| < |trace| == |readings|
  {
    && Reads(trace[k], events[k]) && events[k].hash != readings[k]
    && !AttemptAt(events, trace, k) && !trace[k + 1].republishPending
  }

  /** A restart for a change that had been undone, after which nothing is read before event k. */
  predicate UndoneAt(events: seq<Event>, trace: seq<Runtime>, readings: seq<u64>, i: nat, k: nat)
    requires i < k <= |events| < |trace| == |readings|
  {
    && RestartAt(events, trace, i) && readings[i + 1] == trace[i].lastAddrHash
    && forall j | i < j < k :: !Reads(trace[j], events[j])
  }

  /** At rest with a fingerprint recorded that is not the one last read. */
  predicate Astray(r: Runtime, read: u64) {
    !r.republishPending && r.lastAddrHash != read
  }

  lemma {:induction false} AstrayBecauseUndone(events: seq<Event>, trace: seq<Runtime>, readings: seq<u64>, k: nat)
    returns (i: nat)
    requires IsRunReading(events, trace, readings) && k <= |events| && Astray(trace[k], readings[k])
    ensures i < k && UndoneAt(events, trace, readings, i, k) && trace[i + 1].lastAddrHash == trace[k].lastAddrHash
  {
    assert k > 0;
    i := k - 1;
    assert trace[k] == Next(trace[i], events[i]);
    RunPendingIsNews(events, trace, readings, i);
    if RestartAt(events, trace, i) {
      RestartRecordsFingerprint(events, trace, readings, i);
    } else {
      i := AstrayBecauseUndone(events, trace, readings, i);
    }
  }

  lemma {:induction false} UndoneStaysAstray(events: seq<Event>, trace: seq<Runtime>, readings: seq<u64>, i: nat, k: nat)
    requires IsRunReading(events, trace, readings) && i < k <= |events| && UndoneAt(events, trace, readings, i, k)
    ensures Astray(trace[k], readings[k]) && trace[k].lastAddrHash == trace[i + 1].lastAddrHash
  {
    assert trace[k] == Next(trace[k - 1], events[k - 1]);
    if k == i + 1 {
      RestartRecordsFingerprint(events, trace, readings, i);
    } else {
      UndoneStaysAstray(events, trace, readings, i, k - 1);
    }
  }

  /**
   Over every run, a change of addresses goes unannounced if and only if the last restart was for
   a change that had been undone, nothing was read since, and the addresses now are the ones
   which that restart recorded.
   */
  lemma MissedExactlyAfterUndone(events: seq<Event>, trace: seq<Runtime>, readings: seq<u64>, k: nat)
    requires IsRunReading(events, trace, readings) && k < |events| && Reads(trace[k], events[k])
    ensures MissedAt(events, trace, readings, k) <==>
      exists i: nat | i < k :: UndoneAt(events, trace, readings, i, k) && trace[i + 1].lastAddrHash == events[k].hash
  {
    assert trace[k + 1] == Next(trace[k], events[k]);
    if MissedAt(events, trace, readings, k) {
      var i := AstrayBecauseUndone(events, trace, readings, k);
    }
    forall i: nat | i < k && UndoneAt(events, trace, readings, i, k) && trace[i + 1].lastAddrHash == events[k].hash
      ensures MissedAt(events, trace, readings, k)
    {
      UndoneStaysAstray(events, trace, readings, i, k);
    }
  }

  /** A change and its undoing are read within the cooldown, the timer restarts, and the addresses change again. */
  function UndoneRun(t1: int, h1: u64, t2: int, h0: u64, t3: int, t4: int): seq<Event> {
    [Interfaces, Wake(t1, h1, true), Interfaces, Wake(t2, h0, true), Wake(t3, h0, true), Interfaces, Wake(t4, h1, true)]
  }

  /**
   Such runs exist, the undoing at any time within the cooldown: the restart records the change
   undone, and the same change, when it comes to stay, is missed.
   */
  lemma UndoneChangeHidesTheNext(start: Runtime, h0: u64, h1: u64, t1: int, t2: int, t3: int, t4: int)
    returns (trace: seq<Runtime>, readings: seq<u64>)
    requires !start.republishPending && start.lastAddrHash == h0 && h0 != h1 && h0 != 0 && h1 != 0
    requires start.lastRepublish <= t1 <= t2 < start.lastRepublish + MIN_REPUBLISH_INTERVAL_MS <= t3 <= t4
    ensures IsRunReading(UndoneRun(t1, h1, t2, h0, t3, t4), trace, readings) && trace[0] == start
    ensures readings[5] == h0 && trace[5].lastAddrHash == h1 && MissedAt(UndoneRun(t1, h1, t2, h0, t3, t4), trace, readings, 6)
  {
    var events := UndoneRun(t1, h1, t2, h0, t3, t4);
    var r1 := Next(start, events[0]);
    var r2 := Next(r1, events[1]);
    var r3 := Next(r2, events[2]);
    var r4 := Next(r3, events[3]);
    var r5 := Next(r4, events[4]);
    var r6 := Next(r5, events[5]);
    trace := [start, r1, r2, r3, r4, r5, r6, Next(r6, events[6])];
    readings := [h0, h0, h1, h1, h0, h0, h0, h1];
  }

  // ---- The object ----

  class NetworkRuntime {
    var runtime: Runtime
    const reconciler: Reconciler.OutgoingReconciler

    constructor (reconciler: Reconciler.OutgoingReconciler)
      ensures this.reconciler == reconciler && runtime == Runtime(0, 0, false, 0, false, false)
    {
      this.reconciler := reconciler;
      runtime := Runtime(0, 0, false, 0, false, false);
    }

    method SignalInterfacesChanged()
      modifies this
      ensures runtime == Next(old(runtime), Interfaces)
    {
      runtime := runtime.(interfacesChanged := true);
    }

    method ComputeNextWake() returns (deadline: Option<int>)
      ensures IsNextWake(runtime, reconciler.pendingRemoval, deadline)
    {
      deadline := None;
      if runtime.republishPending {
        deadline := Some(runtime.lastRepublish + MIN_REPUBLISH_INTERVAL_MS);
      }
      var removal := reconciler.NextRemovalDeadline();
      if removal.Some? {
        if deadline.None? || removal.value < deadline.value {
          deadline := removal;
        }
      }
    }

    method ProcessWake(now: int, hash: u64, starts: bool)
      requires reconciler.pendingRemoval.Keys <= reconciler.active.Keys
      modifies this, reconciler, reconciler.manager
      ensures runtime == Processed(old(runtime), now, hash, starts)
      ensures reconciler.Abstract() == S.OnSweep(old(reconciler.Abstract()), now)
    {
      if runtime.interfacesChanged {
        runtime := runtime.(interfacesChanged := false);
        if hash != 0 && hash != runtime.lastAddrHash {
          runtime := runtime.(republishPending := true, pendingHash := hash);
        }
      }
      if runtime.republishPending {
        if now - runtime.lastRepublish >= MIN_REPUBLISH_INTERVAL_MS {
          runtime := runtime.(discoveryRunning := starts);
          if starts {
            runtime := runtime.(lastAddrHash := runtime.pendingHash, lastRepublish := now, republishPending := false);
          } else {
            runtime := runtime.(lastRepublish := now);
          }
        }
      }
      reconciler.Sweep(now);
    }
  }
}
