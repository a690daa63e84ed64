/** The cap on the number of registers. */
module CountCap {
  import opened Machine
  import opened HybridClock
  import opened RegisterMerge
  import opened RegisterState
  import RegisterName
  import LazyExpiry

  // Writes made on a device never take it past the cap. What the cap does not bound is shown too:
  // records merged in, and tombstones.

  function Capped(m: Records, now: u64, cfg: Config): set<Bytes> {
    LiveNames(m, now, cfg.ttlMs) - {MIRROR}
  }

  lemma SmallerCount(a: set<Bytes>, b: set<Bytes>)
    requires a <= b
    ensures |a| <= |b|
  {
    LazyExpiry.SubsetSize(a, b);
  }

  /** A write of a good name and size is refused if and only if it would take the count past the cap and make it grow. */
  lemma CapIsExact(cfg: Config, st: State, name: Bytes, value: Bytes, flags: byte, origin: HostId, now: u64)
    requires RegisterName.IsValid(name) && |value| <= cfg.maxValueBytes
    ensures var live := Capped(st.records, now, cfg);
      UpsertStep(cfg, st, name, value, flags, origin, now).1 == CapExceeded <==>
        |live + {name}| > cfg.maxCount && |live + {name}| > |live|
  {
    var pruned := Prune(st.records, now, cfg.ttlMs);
    var live := Capped(st.records, now, cfg);
    assert Capped(pruned, now, cfg) == live;
    if name in live {
      assert live + {name} == live;
    } else {
      assert |live + {name}| == |live| + 1;
    }
  }

  // ---- Every step ----

  lemma OtherNames(cfg: Config, st: State, op: Op, now: u64)
    requires !op.Upsert? && !op.ApplyRemote?
    ensures Capped(Step(cfg, st, op, now).0.records, now, cfg) <= Capped(st.records, now, cfg)
  {}

  lemma UpsertNames(cfg: Config, st: State, name: Bytes, value: Bytes, flags: byte, origin: HostId, now: u64)
    ensures var (st', r) := UpsertStep(cfg, st, name, value, flags, origin, now);
      Capped(st'.records, now, cfg) <= Capped(st.records, now, cfg) + (if r == Ok then {name} else {})
  {}

  /** No call made on this device takes the count past the cap or, when it is past it already, makes it grow. */
  lemma StepCapped(cfg: Config, st: State, op: Op, now: u64)
    requires !op.ApplyRemote?
    ensures var before := LiveCount(st.records, now, cfg.ttlMs);
      var after := LiveCount(Step(cfg, st, op, now).0.records, now, cfg.ttlMs);
      after <= cfg.maxCount || after <= before
  {
    var live, live' := Capped(st.records, now, cfg), Capped(Step(cfg, st, op, now).0.records, now, cfg);
    match op
    case Upsert(name, value, flags, origin) =>
      UpsertNames(cfg, st, name, value, flags, origin, now);
      if UpsertStep(cfg, st, name, value, flags, origin, now).1 == Ok {
        CapIsExact(cfg, st, name, value, flags, origin, now);
        SmallerCount(live', live + {name});
      } else {
        SmallerCount(live', live);
      }
    case _ =>
      OtherNames(cfg, st, op, now);
      SmallerCount(live', live);
  }

  lemma CountLater(m: Records, now: u64, later: u64, ttl: u64)
    requires now <= later
    ensures LiveCount(m, later, ttl) <= LiveCount(m, now, ttl)
  {
    SmallerCount(LiveNames(m, later, ttl) - {MIRROR}, LiveNames(m, now, ttl) - {MIRROR});
  }

  /** Over every run of calls made on this device, under monotone time, the count stays within the cap. */
  lemma {:induction false} RunCapped(cfg: Config, calls: seq<Call>, trace: seq<State>, start: u64, k: nat, at: u64)
    requires IsRun(cfg, calls, trace) && MonotoneTime(calls, start) && k <= |calls|
    requires forall i | 0 <= i < k :: !calls[i].op.ApplyRemote?
    requires LiveCount(trace[0].records, start, cfg.ttlMs) <= cfg.maxCount
    requires at >= if k == 0 then start else calls[k - 1].now
    ensures LiveCount(trace[k].records, at, cfg.ttlMs) <= cfg.maxCount
  {
    if k == 0 {
      CountLater(trace[0].records, start, at, cfg.ttlMs);
    } else {
      var now := calls[k - 1].now;
      RunCapped(cfg, calls, trace, start, k - 1, now);
      StepCapped(cfg, trace[k - 1], calls[k - 1].op, now);
      CountLater(trace[k].records, now, at, cfg.ttlMs);
    }
  }

  // ---- What is not bounded ----

  /** A live record of a new name is merged in whatever the count. */
  lemma MergesAreNotCapped(cfg: Config, st: State, incoming: Record, now: u64)
    requires incoming.name != MIRROR && !incoming.IsTombstone() && !IsExpired(incoming, now, cfg.ttlMs)
    requires incoming.name !in st.records
    ensures LiveCount(ApplyRemoteStep(cfg, st, incoming, now).0.records, now, cfg.ttlMs)
         == LiveCount(st.records, now, cfg.ttlMs) + 1
  {
    assert ApplyRemoteStep(cfg, st, incoming, now).0.records == st.records[incoming.name := incoming];
    NewLive(cfg, st.records, incoming, now);
  }

  lemma NewLive(cfg: Config, m: Records, r: Record, now: u64)
    requires r.name != MIRROR && !r.IsTombstone() && !IsExpired(r, now, cfg.ttlMs) && r.name !in m
    ensures LiveCount(m[r.name := r], now, cfg.ttlMs) == LiveCount(m, now, cfg.ttlMs) + 1
  {
    var live, live' := Capped(m, now, cfg), Capped(m[r.name := r], now, cfg);
    forall n ensures n in live' <==> n in live || n == r.name {}
    assert live' == live + {r.name} && r.name !in live;
  }

  /** Each name written and deleted again. */
  function Churned(cfg: Config, names: seq<Bytes>, host: HostId, now: u64): State {
    if names == [] then State(map[], ZERO)
    else
      var st, name := Churned(cfg, names[..|names| - 1], host, now), names[|names| - 1];
      DeleteStep(cfg, UpsertStep(cfg, st, name, [], 0, host, now).0, name, host, now).0
  }

  ghost predicate AllTombstones(m: Records, now: u64) {
    forall n | n in m :: m[n].IsTombstone() && m[n].touched.wallMs >= now
  }

  lemma ChurnOne(cfg: Config, st: State, name: Bytes, host: HostId, now: u64)
    requires cfg.maxCount > 0 && cfg.ttlMs > 0 && RegisterName.IsValid(name)
    requires AllTombstones(st.records, now)
    ensures var st' := DeleteStep(cfg, UpsertStep(cfg, st, name, [], 0, host, now).0, name, host, now).0;
      AllTombstones(st'.records, now) && st'.records.Keys == st.records.Keys + {name}
  {
    TickAdvances(st.last, now);
    assert Prune(st.records, now, cfg.ttlMs) == st.records;
    assert Capped(st.records, now, cfg) == {};
    var up := UpsertStep(cfg, st, name, [], 0, host, now).0;
    TickAdvances(up.last, now);
    assert up.records.Keys == st.records.Keys + {name};
  }

  lemma NoneLive(cfg: Config, m: Records, now: u64)
    requires AllTombstones(m, now)
    ensures LiveCount(m, now, cfg.ttlMs) == 0
  {
    assert Capped(m, now, cfg) == {};
  }

  function NameSet(names: seq<Bytes>): set<Bytes> {
    set n | n in names
  }

  lemma OneNameMore(names: seq<Bytes>)
    requires names != [] && forall i, j | 0 <= i < j < |names| :: names[i] != names[j]
    ensures var init, name := names[..|names| - 1], names[|names| - 1];
      NameSet(names) == NameSet(init) + {name} && name !in NameSet(init)
  {
    assert names == names[..|names| - 1] + [names[|names| - 1]];
  }

  /**
   Tombstones pile up without bound under any cap: writing and deleting names one by one leaves a
   record for each while never more than one register is live.
   */
  lemma {:induction false} TombstonesPileUp(cfg: Config, names: seq<Bytes>, host: HostId, now: u64)
    requires cfg.maxCount > 0 && cfg.ttlMs > 0
    requires forall n | n in names :: RegisterName.IsValid(n)
    requires forall i, j | 0 <= i < j < |names| :: names[i] != names[j]
    ensures var m := Churned(cfg, names, host, now).records;
      AllTombstones(m, now) && m.Keys == NameSet(names) && |NameSet(names)| == |names| && LiveCount(m, now, cfg.ttlMs) == 0
  {
    if names != [] {
      var init, name := names[..|names| - 1], names[|names| - 1];
      assert forall n | n in init :: n in names;
      TombstonesPileUp(cfg, init, host, now);
      OneNameMore(names);
      assert name in names;
      ChurnOne(cfg, Churned(cfg, init, host, now), name, host, now);
    }
    NoneLive(cfg, Churned(cfg, names, host, now).records, now);
  }
}
