/**
 Deletes stick: after a delete, and until the tombstone's own idle time runs out, no older
 value of that name comes back, whatever is merged in.
 */
module StickyDelete {
  import opened Machine
  import opened HybridClock
  import opened RegisterMerge
  import opened RegisterState
  import opened ClockBound

  /** No answer carries a record, or advertises one, of `name` written before `ts`. */
  ghost predicate NothingOlder(result: Result, name: Bytes, ts: Hlc) {
    match result
    case Found(record) => record.Some? && record.value.name == name ==> AtMost(ts, record.value.written)
    case Listed(records) => forall r | r in records && r.name == name :: AtMost(ts, r.written)
    case Digested(entries) => forall e | e in entries && e.name == name :: AtMost(ts, e.written)
    case _ => true
  }

  ghost predicate Guarded(st: State, name: Bytes, ts: Hlc) {
    name in st.records && AtMost(ts, st.records[name].written)
  }

  lemma ListingsGuarded(m: Records, names: set<Bytes>, name: Bytes, ts: Hlc)
    requires Keyed(m) && (name in m ==> AtMost(ts, m[name].written))
    ensures NothingOlder(Listed(Select(m, names)), name, ts)
    ensures NothingOlder(Digested(Entries(Select(m, names))), name, ts)
  {
    SelectFacts(m, names);
    forall e | e in Entries(Select(m, names)) && e.name == name ensures AtMost(ts, e.written) {
      var i :| 0 <= i < |Select(m, names)| && Entries(Select(m, names))[i] == e;
      assert Select(m, names)[i] in Select(m, names);
    }
  }

  lemma OthersGuarded(cfg: Config, st: State, op: Op, now: u64, name: Bytes)
    requires name in st.records && name != MIRROR && Target(op) != name
    requires !IsExpired(st.records[name], now, cfg.ttlMs)
    ensures var m' := Step(cfg, st, op, now).0.records; name in m' && m'[name] == st.records[name]
  {}

  lemma MergeGuarded(cfg: Config, st: State, incoming: Record, now: u64, name: Bytes, ts: Hlc)
    requires Guarded(st, name, ts) && name != MIRROR && incoming.name == name
    requires !IsExpired(st.records[name], now, cfg.ttlMs)
    ensures var st' := ApplyRemoteStep(cfg, st, incoming, now).0;
      Guarded(st', name, ts) && AtMost(st.records[name].touched, st'.records[name].touched)
  {}

  /** While the own record is unexpired, every operation keeps the guard and only postpones expiry. */
  lemma StepGuarded(cfg: Config, st: State, op: Op, now: u64, name: Bytes, ts: Hlc)
    requires Bounded(st) && Guarded(st, name, ts) && name != MIRROR
    requires CanRun(st, op, now) && !IsExpired(st.records[name], now, cfg.ttlMs)
    ensures Guarded(Step(cfg, st, op, now).0, name, ts)
    ensures AtMost(st.records[name].touched, Step(cfg, st, op, now).0.records[name].touched)
  {
    if Target(op) != name {
      OthersGuarded(cfg, st, op, now, name);
    } else if op.ApplyRemote? {
      MergeGuarded(cfg, st, op.incoming, now, name, ts);
    } else {
      TickAdvances(st.last, now);
    }
  }

  /** ... and answers with nothing older. */
  lemma StepAnswers(cfg: Config, st: State, op: Op, now: u64, name: Bytes, ts: Hlc)
    requires Keyed(st.records) && Guarded(st, name, ts)
    ensures NothingOlder(Step(cfg, st, op, now).1, name, ts)
  {
    var pruned := Prune(st.records, now, cfg.ttlMs);
    match op {
      case List => ListingsGuarded(pruned, LiveNames(pruned, now, cfg.ttlMs), name, ts);
      case Digest => ListingsGuarded(pruned, pruned.Keys - {MIRROR}, name, ts);
      case SnapshotForSync => ListingsGuarded(pruned, pruned.Keys - {MIRROR}, name, ts);
      case RecordsToPush(remote) => ListingsGuarded(pruned, PushNames(pruned, remote), name, ts);
      case _ =>
    }
  }

  /** The own record of `name` has not expired at any of the first k calls. */
  ghost predicate AliveBefore(cfg: Config, calls: seq<Call>, trace: seq<State>, name: Bytes, k: nat)
    requires k <= |calls| < |trace|
  {
    forall j | 0 <= j < k ::
      name in trace[j].records ==> !IsExpired(trace[j].records[name], calls[j].now, cfg.ttlMs)
  }

  ghost predicate SoundAndGuarded(st: State, name: Bytes, ts: Hlc, touched: Hlc) {
    && Bounded(st) && Keyed(st.records) && Guarded(st, name, ts)
    && AtMost(touched, st.records[name].touched)
  }

  lemma StepSoundAndGuarded(cfg: Config, st: State, op: Op, now: u64, name: Bytes, ts: Hlc, touched: Hlc)
    requires SoundAndGuarded(st, name, ts, touched) && name != MIRROR
    requires CanRun(st, op, now) && !IsExpired(st.records[name], now, cfg.ttlMs)
    ensures SoundAndGuarded(Step(cfg, st, op, now).0, name, ts, touched)
  {
    StepBounded(cfg, st, op, now);
    StepKeyed(cfg, st, op, now);
    StepGuarded(cfg, st, op, now, name, ts);
  }

  lemma {:induction false} RunGuarded(cfg: Config, calls: seq<Call>, trace: seq<State>, name: Bytes, ts: Hlc, k: nat)
    requires IsRun(cfg, calls, trace) && k <= |calls| && name != MIRROR
    requires SoundAndGuarded(trace[0], name, ts, ts)
    requires RunsBefore(calls, trace, k) && AliveBefore(cfg, calls, trace, name, k)
    ensures SoundAndGuarded(trace[k], name, ts, ts)
  {
    if k > 0 {
      RunGuarded(cfg, calls, trace, name, ts, k - 1);
      StepSoundAndGuarded(cfg, trace[k - 1], calls[k - 1].op, calls[k - 1].now, name, ts, ts);
    }
  }

  /**
   After a successful delete stamped ts: for every later run, of any operations in any order,
   as long as the store's own record of the name has not expired, call k neither returns nor
   advertises a record of that name written before ts, and the record's last touch, which
   alone decides its expiry, is never before ts.
   */
  lemma DeleteSticks(cfg: Config, st: State, name: Bytes, origin: HostId, now: u64,
                     calls: seq<Call>, trace: seq<State>, k: nat)
    requires Bounded(st) && Keyed(st.records) && name != MIRROR && CanTick(st.last, now)
    requires DeleteStep(cfg, st, name, origin, now).1 == Deleted
    requires IsRun(cfg, calls, trace) && trace[0] == DeleteStep(cfg, st, name, origin, now).0
    requires k < |calls|
    requires RunsBefore(calls, trace, k + 1) && AliveBefore(cfg, calls, trace, name, k + 1)
    ensures var ts := Tick(st.last, now);
      && NothingOlder(Answer(cfg, trace[k], calls[k]), name, ts)
      && Guarded(trace[k + 1], name, ts) && AtMost(ts, trace[k + 1].records[name].touched)
  {
    var deleted, ts := DeleteStep(cfg, st, name, origin, now).0, Tick(st.last, now);
    assert Step(cfg, st, Delete(name, origin), now).0 == deleted;
    StepBounded(cfg, st, Delete(name, origin), now);
    StepKeyed(cfg, st, Delete(name, origin), now);
    RunGuarded(cfg, calls, trace, name, ts, k + 1);
    RunGuarded(cfg, calls, trace, name, ts, k);
    StepAnswers(cfg, trace[k], calls[k].op, calls[k].now, name, ts);
  }

  /**
   Exactly until then: a replica holding a record refuses an older, unexpired copy's value if
   and only if its own record has not expired; and merging that copy never brings expiry closer.
   */
  lemma OlderCopyRefusedExactlyUntilExpiry(cfg: Config, st: State, incoming: Record, now: u64)
    requires Keyed(st.records) && incoming.name != MIRROR && incoming.name in st.records
    requires Less(incoming.written, st.records[incoming.name].written)
    requires !IsExpired(incoming, now, cfg.ttlMs)
    ensures var own, after := st.records[incoming.name], ApplyRemoteStep(cfg, st, incoming, now).0.records[incoming.name];
      && (SameValue(after, own) <==> !IsExpired(own, now, cfg.ttlMs))
      && (!IsExpired(own, now, cfg.ttlMs) ==> AtMost(own.touched, after.touched))
      && (IsExpired(own, now, cfg.ttlMs) ==> after == incoming)
  {}

  /**
   The residual resurrection, exactly: a copy of a deleted value, merged in and then read, comes back
   if and only if the tombstone has been idle for the whole limit and the copy has not; so the copy
   was read somewhere after the tombstone was last touched.
   */
  lemma ResurrectsExactly(cfg: Config, st: State, copy: Record, now: u64)
    requires Keyed(st.records) && copy.name != MIRROR && copy.name in st.records
    requires st.records[copy.name].IsTombstone() && !copy.IsTombstone()
    requires Less(copy.written, st.records[copy.name].written)
    ensures var own := st.records[copy.name];
      var shown := ReadStep(cfg, ApplyRemoteStep(cfg, st, copy, now).0, copy.name, now).1;
      && (shown.Some? <==> own.touched.wallMs + cfg.ttlMs <= now < copy.touched.wallMs + cfg.ttlMs)
      && (shown.Some? ==> SameValue(shown.value, copy) && Less(own.touched, copy.touched))
  {}
}
