/** Drop-on-access expiry refines eager expiry. */
module LazyExpiry {
  import opened Machine
  import opened HybridClock
  import opened RegisterMerge
  import opened RegisterState
  import ByteOrder
  import RegisterName

  // The store erases an expired record only when an operation meets it; the reference store below
  // erases every expired record before each operation and never tests a resident record for expiry.
  // No caller can tell them apart, except by counting resident records.

  // ---- The reference store ----

  function ValueNames(m: Records): set<Bytes> {
    set n | n in m && !m[n].IsTombstone()
  }

  function RefUpsert(cfg: Config, st: State, name: Bytes, value: Bytes, flags: byte, origin: HostId, now: u64)
    : (State, WriteResult)
  {
    if !RegisterName.IsValid(name) then (st, InvalidName)
    else if |value| > cfg.maxValueBytes then (st, ValueTooLarge)
    else if name !in ValueNames(st.records) && |ValueNames(st.records) - {MIRROR}| >= cfg.maxCount then (st, CapExceeded)
    else
      var ts := Tick(st.last, now);
      (State(st.records[name := Record(name, value, ts, ts, origin, flags - flags % 2)], ts), Ok)
  }

  function RefRead(st: State, name: Bytes, now: u64): (State, Option<Record>) {
    if name !in ValueNames(st.records) then (st, None)
    else
      var ts := Tick(st.last, now);
      var r := st.records[name].(touched := ts);
      (State(st.records[name := r], ts), Some(r))
  }

  function RefDelete(st: State, name: Bytes, origin: HostId, now: u64): (State, DeleteResult) {
    if name !in ValueNames(st.records) then (st, NotFound)
    else
      var ts := Tick(st.last, now);
      (State(st.records[name := Record(st.records[name].name, [], ts, ts, origin, TOMBSTONE)], ts), Deleted)
  }

  function RefApplyRemote(cfg: Config, st: State, incoming: Record, now: u64): (State, bool) {
    if incoming.name == MIRROR then (st, false)
    else
      var seen := st.(last := Later(Later(st.last, incoming.written), incoming.touched));
      var name := incoming.name;
      var merged := if name in st.records then Merge(st.records[name], incoming) else incoming;
      if IsExpired(incoming, now, cfg.ttlMs) || (name in st.records && merged == st.records[name]) then (seen, false)
      else (seen.(records := st.records[name := merged]), true)
  }

  ghost function RefStep(cfg: Config, st: State, op: Op, now: u64): (State, Result) {
    var m := st.records;
    match op
    case Upsert(name, value, flags, origin) =>
      var (st', r) := RefUpsert(cfg, st, name, value, flags, origin, now); (st', Wrote(r))
    case Read(name) => var (st', r) := RefRead(st, name, now); (st', Found(r))
    case Delete(name, origin) => var (st', r) := RefDelete(st, name, origin, now); (st', Deletion(r))
    case MirrorDefault(value, localHost) => (MirrorStep(st, value, localHost, now), Done)
    case ListNames => (st, Names(ByteOrder.Sorted(ValueNames(m))))
    case List => (st, Listed(Select(m, ValueNames(m))))
    case Digest => (st, Digested(Entries(Select(m, m.Keys - {MIRROR}))))
    case SnapshotForSync => (st, Listed(Select(m, m.Keys - {MIRROR})))
    case GetForBroadcast(name) => (st, Found(if name in m then Some(m[name]) else None))
    case RecordsToPush(remote) => (st, Listed(Select(m, PushNames(m, remote))))
    case PlanPush(remote) => (st, Names(NamesOf(Select(m, PushNames(m, remote)))))
    case ApplyRemote(incoming) => var (st', r) := RefApplyRemote(cfg, st, incoming, now); (st', Applied(r))
    case SeedClockFloor(floor) => (st.(last := Later(st.last, floor)), Done)
    case ClockHighWater => (st, Clock(st.last))
    case LiveCounted => (st, Count(|ValueNames(m) - {MIRROR}|))
    case PhysicalCount => (st, Count(|m|))
  }

  ghost function Expire(cfg: Config, st: State, now: u64): State {
    st.(records := Prune(st.records, now, cfg.ttlMs))
  }

  /** Expired records vanish, then the operation runs. */
  ghost function RefNext(cfg: Config, st: State, call: Call): State {
    RefStep(cfg, Expire(cfg, st, call.now), call.op, call.now).0
  }

  ghost function RefAnswer(cfg: Config, st: State, call: Call): Result {
    RefStep(cfg, Expire(cfg, st, call.now), call.op, call.now).1
  }

  ghost predicate IsRefRun(cfg: Config, calls: seq<Call>, trace: seq<State>) {
    && |trace| == |calls| + 1
    && forall k | 0 <= k < |calls| :: trace[k + 1] == RefNext(cfg, trace[k], calls[k])
  }

  // ---- The refinement ----

  /** The same clock, and the same records once the expired ones are ignored. */
  ghost predicate Alike(cfg: Config, lazy: State, eager: State, now: u64) {
    lazy.last == eager.last && Prune(lazy.records, now, cfg.ttlMs) == Prune(eager.records, now, cfg.ttlMs)
  }

  lemma PruneLater(m: Records, now: u64, later: u64, ttl: u64)
    requires now <= later
    ensures Prune(m, later, ttl) == Prune(Prune(m, now, ttl), later, ttl)
  {}

  lemma AlikeLater(cfg: Config, lazy: State, eager: State, now: u64, later: u64)
    requires Alike(cfg, lazy, eager, now) && now <= later
    ensures Alike(cfg, lazy, eager, later)
  {
    PruneLater(lazy.records, now, later, cfg.ttlMs);
    PruneLater(eager.records, now, later, cfg.ttlMs);
  }

  lemma PruneUpdate(m: Records, p: Records, n: Bytes, r: Record, now: u64, ttl: u64)
    requires p == Prune(m, now, ttl)
    ensures Prune(m[n := r], now, ttl) == Prune(p[n := r], now, ttl)
  {}

  lemma PruneDrop(m: Records, n: Bytes, now: u64, ttl: u64)
    requires n in m && IsExpired(m[n], now, ttl)
    ensures Prune(m - {n}, now, ttl) == Prune(m, now, ttl)
  {}

  lemma PruneAgain(m: Records, now: u64, ttl: u64)
    ensures Prune(Prune(m, now, ttl), now, ttl) == Prune(m, now, ttl)
    ensures LiveNames(m, now, ttl) == ValueNames(Prune(m, now, ttl))
    ensures LiveNames(Prune(m, now, ttl), now, ttl) == ValueNames(Prune(m, now, ttl))
  {}

  lemma PruneSmaller(m: Records, now: u64, ttl: u64)
    ensures |Prune(m, now, ttl)| <= |m|
  {
    var p := Prune(m, now, ttl);
    assert p.Keys <= m.Keys;
    SubsetSize(p.Keys, m.Keys);
    assert |p| == |p.Keys| && |m| == |m.Keys|;
  }

  lemma SubsetSize<T>(a: set<T>, b: set<T>)
    requires a <= b
    ensures |a| <= |b|
  {
    assert b == a + (b - a);
  }

  /** Equal answers; a count of resident records may be larger. */
  ghost predicate Indistinguishable(op: Op, lazy: Result, eager: Result) {
    if op.PhysicalCount? then lazy.Count? && eager.Count? && lazy.count >= eager.count else lazy == eager
  }

  ghost predicate StepsAlike(cfg: Config, st: State, op: Op, now: u64) {
    var (lazy, rl) := Step(cfg, st, op, now);
    var (eager, re) := RefStep(cfg, Expire(cfg, st, now), op, now);
    Alike(cfg, lazy, eager, now) && Indistinguishable(op, rl, re)
  }

  lemma UpsertAlike(cfg: Config, st: State, name: Bytes, value: Bytes, flags: byte, origin: HostId, now: u64)
    ensures StepsAlike(cfg, st, Upsert(name, value, flags, origin), now)
  {
    var p := Prune(st.records, now, cfg.ttlMs);
    PruneAgain(st.records, now, cfg.ttlMs);
    assert ValueNames(p) == LiveNames(p, now, cfg.ttlMs);
    assert UpsertStep(cfg, st, name, value, flags, origin, now).1 == RefUpsert(cfg, Expire(cfg, st, now), name, value, flags, origin, now).1;
  }

  lemma ReadAlike(cfg: Config, st: State, name: Bytes, now: u64)
    ensures StepsAlike(cfg, st, Read(name), now)
  {
    var m, p := st.records, Prune(st.records, now, cfg.ttlMs);
    PruneAgain(m, now, cfg.ttlMs);
    if name in m && IsExpired(m[name], now, cfg.ttlMs) {
      PruneDrop(m, name, now, cfg.ttlMs);
    } else if name in m {
      PruneUpdate(m, p, name, m[name].(touched := Tick(st.last, now)), now, cfg.ttlMs);
    }
  }

  lemma DeleteAlike(cfg: Config, st: State, name: Bytes, origin: HostId, now: u64)
    ensures StepsAlike(cfg, st, Delete(name, origin), now)
  {
    var m, p := st.records, Prune(st.records, now, cfg.ttlMs);
    PruneAgain(m, now, cfg.ttlMs);
    if name in m && IsExpired(m[name], now, cfg.ttlMs) {
      PruneDrop(m, name, now, cfg.ttlMs);
    } else if name in m {
      var ts := Tick(st.last, now);
      PruneUpdate(m, p, name, Record(m[name].name, [], ts, ts, origin, TOMBSTONE), now, cfg.ttlMs);
    }
  }

  lemma MirrorAlike(cfg: Config, st: State, value: Bytes, localHost: HostId, now: u64)
    ensures StepsAlike(cfg, st, MirrorDefault(value, localHost), now)
  {
    var m, p := st.records, Prune(st.records, now, cfg.ttlMs);
    PruneUpdate(m, p, MIRROR, MirrorStep(st, value, localHost, now).records[MIRROR], now, cfg.ttlMs);
  }

  lemma ListingsAlike(cfg: Config, st: State, op: Op, now: u64)
    requires op.ListNames? || op.List? || op.Digest? || op.SnapshotForSync? || op.RecordsToPush? || op.PlanPush?
    ensures StepsAlike(cfg, st, op, now)
  {
    var p := Prune(st.records, now, cfg.ttlMs);
    PruneAgain(st.records, now, cfg.ttlMs);
    ByteOrder.FilterSorted(p.Keys, ValueNames(p));
    assert p.Keys * ValueNames(p) == ValueNames(p);
  }

  lemma ApplyRemoteAlike(cfg: Config, st: State, incoming: Record, now: u64)
    ensures StepsAlike(cfg, st, ApplyRemote(incoming), now)
  {
    var m, p, name := st.records, Prune(st.records, now, cfg.ttlMs), incoming.name;
    PruneAgain(m, now, cfg.ttlMs);
    PruneUpdate(m, p, name, incoming, now, cfg.ttlMs);
    if name in p {
      PruneUpdate(m, p, name, Merge(m[name], incoming), now, cfg.ttlMs);
    }
  }

  lemma EveryStepAlike(cfg: Config, st: State, op: Op, now: u64)
    ensures StepsAlike(cfg, st, op, now)
  {
    PruneAgain(st.records, now, cfg.ttlMs);
    match op {
      case Upsert(name, value, flags, origin) => UpsertAlike(cfg, st, name, value, flags, origin, now);
      case Read(name) => ReadAlike(cfg, st, name, now);
      case Delete(name, origin) => DeleteAlike(cfg, st, name, origin, now);
      case MirrorDefault(value, localHost) => MirrorAlike(cfg, st, value, localHost, now);
      case ApplyRemote(incoming) => ApplyRemoteAlike(cfg, st, incoming, now);
      case GetForBroadcast(name) =>
        if name in st.records && IsExpired(st.records[name], now, cfg.ttlMs) {
          PruneDrop(st.records, name, now, cfg.ttlMs);
        }
      case SeedClockFloor(_) =>
      case ClockHighWater =>
      case LiveCounted =>
      case PhysicalCount => PruneSmaller(st.records, now, cfg.ttlMs);
      case _ => ListingsAlike(cfg, st, op, now);
    }
  }

  lemma NextAlike(cfg: Config, lazy: State, eager: State, call: Call)
    requires Alike(cfg, lazy, eager, call.now)
    ensures Alike(cfg, Next(cfg, lazy, call), RefNext(cfg, eager, call), call.now)
    ensures Indistinguishable(call.op, Answer(cfg, lazy, call), RefAnswer(cfg, eager, call))
  {
    assert Expire(cfg, eager, call.now) == Expire(cfg, lazy, call.now);
    EveryStepAlike(cfg, lazy, call.op, call.now);
  }

  lemma {:induction false} StatesAlike(cfg: Config, calls: seq<Call>, lazy: seq<State>, eager: seq<State>, start: u64, k: nat)
    requires IsRun(cfg, calls, lazy) && IsRefRun(cfg, calls, eager) && lazy[0] == eager[0]
    requires MonotoneTime(calls, start) && k < |calls|
    ensures Alike(cfg, lazy[k], eager[k], calls[k].now)
  {
    if k > 0 {
      StatesAlike(cfg, calls, lazy, eager, start, k - 1);
      NextAlike(cfg, lazy[k - 1], eager[k - 1], calls[k - 1]);
      AlikeLater(cfg, lazy[k], eager[k], calls[k - 1].now, calls[k].now);
    }
  }

  /**
   For every run of operations with monotone time and fixed limits, from any state, every
   operation answers as the reference store does.
   */
  lemma LazyRefinesEager(cfg: Config, calls: seq<Call>, lazy: seq<State>, eager: seq<State>, start: u64, k: nat)
    requires IsRun(cfg, calls, lazy) && IsRefRun(cfg, calls, eager) && lazy[0] == eager[0]
    requires MonotoneTime(calls, start) && k < |calls|
    ensures Indistinguishable(calls[k].op, Answer(cfg, lazy[k], calls[k]), RefAnswer(cfg, eager[k], calls[k]))
  {
    StatesAlike(cfg, calls, lazy, eager, start, k);
    NextAlike(cfg, lazy[k], eager[k], calls[k]);
  }

  /** Monotone time is needed: a clock that steps back revives what only the lazy store still holds. */
  lemma SteppingBackRevives(r: Record)
    requires r.name != MIRROR && r.touched.wallMs == 0
    ensures var cfg, st := Config(10, 1, 1), State(map[r.name := r], r.touched);
      var first, second := Call(ClockHighWater, 20), Call(GetForBroadcast(r.name), 5);
      && Answer(cfg, Next(cfg, st, first), second) == Found(Some(r))
      && RefAnswer(cfg, RefNext(cfg, st, first), second) == Found(None)
  {
    assert IsExpired(r, 20, 10) && !IsExpired(r, 5, 10);
  }
}
