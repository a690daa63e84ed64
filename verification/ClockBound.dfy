/** The clock is at or above every resident stamp, so a fresh stamp is above them all. */
module ClockBound {
  import opened Machine
  import opened HybridClock
  import opened RegisterMerge
  import opened RegisterState

  // The invariant that lets local writes assign in place.

  ghost predicate BoundedBy(m: Records, last: Hlc) {
    forall n | n in m :: AtMost(m[n].written, last) && AtMost(m[n].touched, last)
  }

  ghost predicate Bounded(st: State) {
    BoundedBy(st.records, st.last)
  }

  /** The operations that mint a stamp need room in the counter. */
  predicate CanRun(st: State, op: Op, now: u64) {
    op.Upsert? || op.Read? || op.Delete? || op.MirrorDefault? ==> CanTick(st.last, now)
  }

  /** The clock never goes back as long as the counter does not wrap. */
  lemma StepAdvances(cfg: Config, st: State, op: Op, now: u64)
    requires CanRun(st, op, now)
    ensures AtMost(st.last, Step(cfg, st, op, now).0.last)
  {
    TickAdvances(st.last, now);
  }

  /** The one name an operation can write. */
  function Target(op: Op): Bytes {
    match op
    case Upsert(name, _, _, _) => name
    case Read(name) => name
    case Delete(name, _) => name
    case ApplyRemote(incoming) => incoming.name
    case _ => MIRROR
  }

  /** Other records stay or go, unchanged. */
  lemma StepFrame(cfg: Config, st: State, op: Op, now: u64)
    ensures var m' := Step(cfg, st, op, now).0.records;
      forall k | k in m' && k != Target(op) :: k in st.records && m'[k] == st.records[k]
  {}

  predicate Within(m: Records, n: Bytes, last: Hlc) {
    n in m ==> AtMost(m[n].written, last) && AtMost(m[n].touched, last)
  }

  lemma ApplyRemoteStamp(cfg: Config, st: State, incoming: Record, now: u64)
    requires Within(st.records, incoming.name, st.last)
    ensures var st' := ApplyRemoteStep(cfg, st, incoming, now).0; Within(st'.records, incoming.name, st'.last)
  {}

  /** The written record is within the new clock. */
  lemma StepStamp(cfg: Config, st: State, op: Op, now: u64)
    requires CanRun(st, op, now) && Within(st.records, Target(op), st.last)
    ensures var st' := Step(cfg, st, op, now).0; Within(st'.records, Target(op), st'.last)
  {
    TickAdvances(st.last, now);
    if op.ApplyRemote? {
      ApplyRemoteStamp(cfg, st, op.incoming, now);
    }
  }

  /** Every operation keeps the bound as long as the counter does not wrap. */
  lemma StepBounded(cfg: Config, st: State, op: Op, now: u64)
    requires Bounded(st) && CanRun(st, op, now)
    ensures Bounded(Step(cfg, st, op, now).0)
  {
    StepFrame(cfg, st, op, now);
    StepStamp(cfg, st, op, now);
    StepAdvances(cfg, st, op, now);
    BoundedAfter(st, Step(cfg, st, op, now).0, Target(op));
  }

  lemma BoundedAfter(st: State, st': State, n: Bytes)
    requires Bounded(st) && AtMost(st.last, st'.last)
    requires forall k | k in st'.records && k != n :: k in st.records && st'.records[k] == st.records[k]
    requires Within(st'.records, n, st'.last)
    ensures Bounded(st')
  {}

  /** No stamp minted by the first k calls wraps the counter. */
  ghost predicate RunsBefore(calls: seq<Call>, trace: seq<State>, k: nat)
    requires k <= |calls| < |trace|
  {
    forall j | 0 <= j < k :: CanRun(trace[j], calls[j].op, calls[j].now)
  }

  /** The bound holds throughout a run from any bounded state, the empty store in particular. */
  lemma {:induction false} RunBounded(cfg: Config, calls: seq<Call>, trace: seq<State>, k: nat)
    requires IsRun(cfg, calls, trace) && k <= |calls| && RunsBefore(calls, trace, k)
    requires Bounded(trace[0])
    ensures Bounded(trace[k])
  {
    if k > 0 {
      RunBounded(cfg, calls, trace, k - 1);
      StepBounded(cfg, trace[k - 1], calls[k - 1].op, calls[k - 1].now);
    }
  }

  /**
   The in-place assignments of Upsert and Delete are the join exactly because of the bound:
   a record stamped `ts` on both sides absorbs every record the clock bounds iff the counter
   did not wrap when `ts` was minted.
   */
  lemma FreshWriteIsTheJoin(last: Hlc, now: u64, minted: Record)
    requires minted.written == minted.touched == Tick(last, now)
    ensures CanTick(last, now) <==>
      forall resident: Record | resident.name == minted.name && AtMost(resident.written, last) && AtMost(resident.touched, last)
        :: Merge(resident, minted) == minted
  {
    TickAdvances(last, now);
    if !CanTick(last, now) {
      var highest := minted.(written := last, touched := last);
      assert highest.name == minted.name && AtMost(highest.written, last);
      assert Merge(highest, minted) != minted;
    }
  }

  /** Read's refresh of `touched` is the join with the refreshed copy. */
  lemma RefreshIsTheJoin(r: Record, ts: Hlc)
    requires AtMost(r.touched, ts)
    ensures Merge(r, r.(touched := ts)) == r.(touched := ts)
  {}
}
