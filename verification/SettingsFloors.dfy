/** The reserved-ahead floors of src/Settings.cpp. */
module SettingsFloors {
  import opened Machine
  import opened HybridClock

  // Sequence numbers and register-clock readings that stay monotone across crashes, because storage
  // is written before a reserved block is used.

  const ORIGIN_SEQUENCE_BATCH := 500
  const REGISTER_HLC_FLOOR_BATCH_MS := 60_000

  function Wrap(x: nat): u64 {
    x % 0x1_0000_0000_0000_0000
  }

  /** The counters in memory, what storage holds, and the register clock seeded from it. */
  datatype State = State(counter: u64, sequenceFloor: u64, hlcFloor: u64,
                         storedSequenceFloor: u64, storedHlcFloor: u64, last: Hlc)

  // ---- Steps ----

  /** The next sequence number, the floor it leaves, and whether that floor is written. */
  function NextNumber(counter: u64, floor: u64): (u64, u64, bool) {
    var next := Wrap(counter + 1);
    if next >= floor then (next, Wrap(next + ORIGIN_SEQUENCE_BATCH), true) else (next, floor, false)
  }

  function NotedFloor(wallMs: u64, floor: u64): (u64, bool) {
    if wallMs >= floor then (Wrap(wallMs + REGISTER_HLC_FLOOR_BATCH_MS), true) else (floor, false)
  }

  /** A new process: counters from storage, and the clock seeded from the stored floor. */
  function Restarted(s: State): State {
    State(s.storedSequenceFloor, s.storedSequenceFloor, s.storedHlcFloor,
          s.storedSequenceFloor, s.storedHlcFloor, Later(ZERO, Hlc(s.storedHlcFloor, 0)))
  }

  /** A crash inside a call happens before or after its write, and nothing is returned. */
  datatype Action =
    | TakeNumber
    | Note(wallMs: u64)
    | Mint(now: u64)
    | Witness(seen: Hlc)
    | Restart
    | CrashTakingNumber(written: bool)
    | CrashNoting(wallMs: u64, written: bool)

  function Next(s: State, a: Action): State {
    match a
    case TakeNumber =>
      var (next, floor, write) := NextNumber(s.counter, s.sequenceFloor);
      s.(counter := next, sequenceFloor := floor, storedSequenceFloor := if write then floor else s.storedSequenceFloor)
    case Note(wallMs) =>
      var (floor, write) := NotedFloor(wallMs, s.hlcFloor);
      s.(hlcFloor := floor, storedHlcFloor := if write then floor else s.storedHlcFloor)
    case Mint(now) => s.(last := Tick(s.last, now))
    case Witness(seen) => s.(last := Later(s.last, seen))
    case Restart => Restarted(s)
    case CrashTakingNumber(written) =>
      var (_, floor, write) := NextNumber(s.counter, s.sequenceFloor);
      Restarted(s.(storedSequenceFloor := if write && written then floor else s.storedSequenceFloor))
    case CrashNoting(wallMs, written) =>
      var (floor, write) := NotedFloor(wallMs, s.hlcFloor);
      Restarted(s.(storedHlcFloor := if write && written then floor else s.storedHlcFloor))
  }

  /** No 64-bit addition of the step wraps. */
  predicate NoOverflow(s: State, a: Action) {
    match a
    case TakeNumber => s.counter + 1 + ORIGIN_SEQUENCE_BATCH <= U64_MAX
    case CrashTakingNumber(_) => s.counter + 1 + ORIGIN_SEQUENCE_BATCH <= U64_MAX
    case Note(wallMs) => wallMs + REGISTER_HLC_FLOOR_BATCH_MS <= U64_MAX
    case CrashNoting(wallMs, _) => wallMs + REGISTER_HLC_FLOOR_BATCH_MS <= U64_MAX
    case Mint(now) => CanTick(s.last, now)
    case _ => true
  }

  predicate Restarts(a: Action) {
    a.Restart? || a.CrashTakingNumber? || a.CrashNoting?
  }

  /** A run from a freshly started process. */
  ghost predicate IsRun(actions: seq<Action>, trace: seq<State>) {
    && |trace| == |actions| + 1
    && trace[0] == Restarted(trace[0])
    && (forall k | 0 <= k < |actions| :: trace[k + 1] == Next(trace[k], actions[k]))
    && (forall k | 0 <= k < |actions| :: NoOverflow(trace[k], actions[k]))
  }

  // ---- One call ----

  /** A number taken is below the floor in force afterwards exactly when reserving did not wrap. */
  lemma NumberIsReserved(counter: u64, floor: u64)
    ensures var (next, floor', write) := NextNumber(counter, floor);
      next < floor' <==> next < floor || next + ORIGIN_SEQUENCE_BATCH <= U64_MAX
  {}

  /** A reading noted is below the floor in force afterwards exactly when reserving did not wrap. */
  lemma ReadingIsReserved(wallMs: u64, floor: u64)
    ensures wallMs < NotedFloor(wallMs, floor).0 <==> wallMs < floor || wallMs + REGISTER_HLC_FLOOR_BATCH_MS <= U64_MAX
  {}

  // ---- Whole runs ----

  /** Memory and storage agree between calls, and nothing beyond the stored floor is in use. */
  ghost predicate Durable(s: State) {
    s.sequenceFloor == s.storedSequenceFloor && s.hlcFloor == s.storedHlcFloor && s.counter <= s.storedSequenceFloor
  }

  lemma StepDurable(s: State, a: Action)
    requires Durable(s) && NoOverflow(s, a)
    ensures Durable(Next(s, a))
    ensures s.storedSequenceFloor <= Next(s, a).storedSequenceFloor && s.storedHlcFloor <= Next(s, a).storedHlcFloor
    ensures s.counter <= Next(s, a).counter
  {}

  lemma {:induction false} RunDurable(actions: seq<Action>, trace: seq<State>, k: nat)
    requires IsRun(actions, trace) && k <= |actions|
    ensures Durable(trace[k])
  {
    if k > 0 {
      RunDurable(actions, trace, k - 1);
      StepDurable(trace[k - 1], actions[k - 1]);
    }
  }

  /** The value a TakeNumber returns. */
  function Returned(s: State): u64 {
    NextNumber(s.counter, s.sequenceFloor).0
  }

  /** A returned number stays at or below the counter and below the stored floor, whatever crashes. */
  lemma {:induction false} NumbersStayReserved(actions: seq<Action>, trace: seq<State>, i: nat, k: nat)
    requires IsRun(actions, trace) && i < k <= |actions| && actions[i].TakeNumber?
    ensures Returned(trace[i]) <= trace[k].counter && Returned(trace[i]) < trace[k].storedSequenceFloor
  {
    RunDurable(actions, trace, k - 1);
    StepDurable(trace[k - 1], actions[k - 1]);
    if i < k - 1 {
      NumbersStayReserved(actions, trace, i, k - 1);
    }
  }

  /** Sequence numbers strictly increase over any run of calls, crashes and restarts. */
  lemma NumbersIncrease(actions: seq<Action>, trace: seq<State>, i: nat, j: nat)
    requires IsRun(actions, trace) && i < j < |actions| && actions[i].TakeNumber? && actions[j].TakeNumber?
    ensures Returned(trace[i]) < Returned(trace[j])
  {
    NumbersStayReserved(actions, trace, i, j);
  }

  /** How many numbers are taken between steps i and j. */
  function Takes(actions: seq<Action>, i: nat, j: nat): nat
    requires i <= j <= |actions|
    decreases j
  {
    if i == j then 0 else Takes(actions, i, j - 1) + if actions[j - 1].TakeNumber? then 1 else 0
  }

  predicate NoRestart(actions: seq<Action>, i: nat, j: nat)
    requires j <= |actions|
  {
    forall k | i <= k < j :: !Restarts(actions[k])
  }

  lemma {:induction false} CountsUp(actions: seq<Action>, trace: seq<State>, i: nat, j: nat)
    requires IsRun(actions, trace) && i <= j <= |actions| && NoRestart(actions, i, j)
    ensures trace[j].counter == trace[i].counter + Takes(actions, i, j)
    ensures trace[i].sequenceFloor <= trace[j].sequenceFloor
    decreases j
  {
    if i < j {
      var k := j - 1;
      RunDurable(actions, trace, k);
      CountsUp(actions, trace, i, k);
      StepDurable(trace[k], actions[k]);
      assert trace[k + 1] == Next(trace[k], actions[k]) && !Restarts(actions[k]);
    }
  }

  /** Between restarts the numbers are consecutive. */
  lemma {:induction false} NumbersConsecutive(actions: seq<Action>, trace: seq<State>, i: nat, j: nat)
    requires IsRun(actions, trace) && i <= j < |actions| && NoRestart(actions, i, j)
    requires actions[i].TakeNumber? && actions[j].TakeNumber?
    ensures Returned(trace[j]) == Returned(trace[i]) + Takes(actions, i, j)
  {
    CountsUp(actions, trace, i, j);
    ReturnsNext(trace[i]);
    ReturnsNext(trace[j]);
  }

  lemma ReturnsNext(s: State)
    requires NoOverflow(s, TakeNumber)
    ensures Returned(s) == s.counter + 1
  {}

  /** Storage is written once in 500 numbers: after a write the next one is at least that far off. */
  lemma {:induction false} WritesAreRare(actions: seq<Action>, trace: seq<State>, i: nat, j: nat)
    requires IsRun(actions, trace) && i < j < |actions| && NoRestart(actions, i, j)
    requires actions[i].TakeNumber? && actions[j].TakeNumber?
    requires trace[i + 1].storedSequenceFloor != trace[i].storedSequenceFloor
    requires trace[j + 1].storedSequenceFloor != trace[j].storedSequenceFloor
    ensures Returned(trace[j]) >= Returned(trace[i]) + 500
  {
    RunDurable(actions, trace, i);
    RunDurable(actions, trace, j);
    WriteReserves(trace[i], trace[i + 1]);
    WriteReserves(trace[j], trace[j + 1]);
    CountsUp(actions, trace, i + 1, j);
  }

  lemma {:induction false} WriteReserves(s: State, s': State)
    requires Durable(s) && NoOverflow(s, TakeNumber) && s' == Next(s, TakeNumber)
    requires s'.storedSequenceFloor != s.storedSequenceFloor
    ensures s.sequenceFloor <= Returned(s) && s'.sequenceFloor == Returned(s) + 500
  {}

  /** A noted reading stays below the stored floor, whatever crashes. */
  lemma {:induction false} ReadingsStayReserved(actions: seq<Action>, trace: seq<State>, i: nat, k: nat)
    requires IsRun(actions, trace) && i < k <= |actions| && actions[i].Note?
    ensures actions[i].wallMs < trace[k].storedHlcFloor
  {
    RunDurable(actions, trace, k - 1);
    StepDurable(trace[k - 1], actions[k - 1]);
    if i < k - 1 {
      ReadingsStayReserved(actions, trace, i, k - 1);
    }
  }

  /** The clock of a later process is past every reading noted before it started. */
  lemma {:induction false} ClockPastReadings(actions: seq<Action>, trace: seq<State>, i: nat, r: nat, k: nat)
    requires IsRun(actions, trace) && i < r < k <= |actions|
    requires actions[i].Note? && Restarts(actions[r])
    ensures actions[i].wallMs < trace[k].last.wallMs
  {
    RunDurable(actions, trace, k - 1);
    ReadingsStayReserved(actions, trace, i, k - 1);
    StepDurable(trace[k - 1], actions[k - 1]);
    if r < k - 1 {
      ClockPastReadings(actions, trace, i, r, k - 1);
      if actions[k - 1].Mint? {
        TickAdvances(trace[k - 1].last, actions[k - 1].now);
      }
    }
  }

  /**
   Every stamp minted after a restart is strictly above every stamp whose wall-clock part was
   noted before it, whatever the wall clock reads by then.
   */
  lemma StampsIncreaseAcrossRestarts(actions: seq<Action>, trace: seq<State>, i: nat, r: nat, j: nat, noted: Hlc)
    requires IsRun(actions, trace) && i < r < j < |actions|
    requires actions[i].Note? && noted.wallMs == actions[i].wallMs
    requires Restarts(actions[r]) && actions[j].Mint?
    ensures Less(noted, trace[j + 1].last)
  {
    ClockPastReadings(actions, trace, i, r, j + 1);
  }

  /** At the end of the range the floor wraps to a small number, and a reading noted there is lost. */
  lemma WrappedFloorForgets(s: State, wallMs: u64)
    requires wallMs >= s.hlcFloor && wallMs + REGISTER_HLC_FLOOR_BATCH_MS > U64_MAX
    ensures Restarted(Next(s, Note(wallMs))).last.wallMs < wallMs
  {}

  // ---- The object ----

  /** What survives a crash. */
  class Storage {
    var sequenceFloor: u64
    var hlcFloor: u64
  }

  class Settings {
    var originSequenceCounter: u64
    var originSequencePersistedFloor: u64
    var registerHlcFloorMs: u64
    const storage: Storage

    function Abstract(last: Hlc): State
      reads this, storage
    {
      State(originSequenceCounter, originSequencePersistedFloor, registerHlcFloorMs,
            storage.sequenceFloor, storage.hlcFloor, last)
    }

    constructor (storage: Storage)
      ensures this.storage == storage
      ensures Abstract(Later(ZERO, Hlc(registerHlcFloorMs, 0))) == Restarted(old(State(0, 0, 0, storage.sequenceFloor, storage.hlcFloor, ZERO)))
    {
      this.storage := storage;
      originSequenceCounter := storage.sequenceFloor;
      originSequencePersistedFloor := storage.sequenceFloor;
      registerHlcFloorMs := storage.hlcFloor;
    }

    method NextOriginSequenceNumber(ghost last: Hlc) returns (next: u64)
      modifies this`originSequenceCounter, this`originSequencePersistedFloor, storage`sequenceFloor
      ensures next == Returned(old(Abstract(last)))
      ensures Abstract(last) == Next(old(Abstract(last)), TakeNumber)
    {
      originSequenceCounter := Wrap(originSequenceCounter + 1);
      next := originSequenceCounter;
      if next >= originSequencePersistedFloor {
        originSequencePersistedFloor := Wrap(next + ORIGIN_SEQUENCE_BATCH);
        storage.sequenceFloor := originSequencePersistedFloor;
      }
    }

    method NoteRegisterHlcWallMs(wallMs: u64, ghost last: Hlc)
      modifies this`registerHlcFloorMs, storage`hlcFloor
      ensures Abstract(last) == Next(old(Abstract(last)), Note(wallMs))
    {
      if wallMs >= registerHlcFloorMs {
        registerHlcFloorMs := Wrap(wallMs + REGISTER_HLC_FLOOR_BATCH_MS);
        storage.hlcFloor := registerHlcFloorMs;
      }
    }
  }
}
