/** The register store's operations as functions of its replicated state. */
module RegisterState {
  import opened Machine
  import opened HybridClock
  import opened RegisterMerge
  import ByteOrder
  import RegisterName

  // The class in RegisterStore.dfy is proved to compute these functions; the theorems about whole
  // runs are about them. Each operation reads the wall clock once, as `now`.

  type Records = map<Bytes, Record>

  /** Limits, fixed for a run. */
  datatype Config = Config(ttlMs: u64, maxCount: nat, maxValueBytes: nat)

  /** The record map and the clock's high-water mark. */
  datatype State = State(records: Records, last: Hlc)

  const MIRROR: Bytes := []

  predicate Keyed(m: Records) {
    forall n | n in m :: m[n].name == n
  }

  datatype WriteResult = Ok | InvalidName | ValueTooLarge | CapExceeded
  datatype DeleteResult = Deleted | NotFound

  // ---- Expiry and counting ----

  function Prune(m: Records, now: u64, ttl: u64): Records {
    map n | n in m && !IsExpired(m[n], now, ttl) :: m[n]
  }

  function LiveNames(m: Records, now: u64, ttl: u64): set<Bytes> {
    set n | n in m && !m[n].IsTombstone() && !IsExpired(m[n], now, ttl)
  }

  function LiveCount(m: Records, now: u64, ttl: u64): nat {
    |LiveNames(m, now, ttl) - {MIRROR}|
  }

  // ---- Listings, in name order ----

  /** The kept records met while visiting the keys `q`. */
  ghost function Pick(m: Records, q: seq<Bytes>, keep: set<Bytes>): seq<Record> {
    if q == [] then []
    else
      var last := q[|q| - 1];
      Pick(m, q[..|q| - 1], keep) + (if last in keep && last in m then [m[last]] else [])
  }

  /** The records of `names`, ascending by name. */
  ghost function Select(m: Records, names: set<Bytes>): seq<Record> {
    Pick(m, ByteOrder.Sorted(m.Keys), names)
  }

  lemma {:induction false} PickFacts(m: Records, q: seq<Bytes>, keep: set<Bytes>)
    requires Keyed(m) && ByteOrder.StrictlyAscending(q)
    ensures forall r :: r in Pick(m, q, keep) <==> r.name in q && r.name in keep && r.name in m && m[r.name] == r
    ensures forall i, j | 0 <= i < j < |Pick(m, q, keep)| ::
      ByteOrder.Less(Pick(m, q, keep)[i].name, Pick(m, q, keep)[j].name)
  {
    if q != [] {
      var init, last := q[..|q| - 1], q[|q| - 1];
      assert q == init + [last];
      PickFacts(m, init, keep);
      ByteOrder.NotYetVisited(q, |q| - 1);
      var p := Pick(m, init, keep);
      forall i | 0 <= i < |p| ensures ByteOrder.Less(p[i].name, last) {
        assert p[i] in p;
        var k :| 0 <= k < |init| && init[k] == p[i].name;
        assert q[k] == p[i].name;
      }
    }
  }

  /** A listing holds exactly the named records, once each, ascending by name. */
  lemma SelectFacts(m: Records, names: set<Bytes>)
    requires Keyed(m)
    ensures forall r :: r in Select(m, names) <==> r.name in names && r.name in m && m[r.name] == r
    ensures forall i, j | 0 <= i < j < |Select(m, names)| ::
      ByteOrder.Less(Select(m, names)[i].name, Select(m, names)[j].name)
  {
    ByteOrder.SortedIsSorted(m.Keys);
    PickFacts(m, ByteOrder.Sorted(m.Keys), names);
  }

  function EntryOf(r: Record): DigestEntry {
    DigestEntry(r.name, r.written, r.touched)
  }

  function Entries(q: seq<Record>): (e: seq<DigestEntry>)
    ensures |e| == |q| && forall i | 0 <= i < |q| :: e[i] == EntryOf(q[i])
  {
    seq(|q|, i requires 0 <= i < |q| => EntryOf(q[i]))
  }

  function NamesOf(q: seq<Record>): (e: seq<Bytes>)
    ensures |e| == |q| && forall i | 0 <= i < |q| :: e[i] == q[i].name
  {
    seq(|q|, i requires 0 <= i < |q| => q[i].name)
  }

  /** The peer's entry for a name: the first one, as `unordered_map::emplace` keeps it. */
  function Lookup(digest: seq<DigestEntry>, name: Bytes): (e: Option<DigestEntry>)
    ensures e.Some? ==> e.value in digest && e.value.name == name
    ensures e.None? <==> forall d | d in digest :: d.name != name
  {
    if digest == [] then None
    else if digest[0].name == name then Some(digest[0])
    else Lookup(digest[1..], name)
  }

  /** The peer lacks the record, or holds a staler (written, touched). */
  predicate Needs(r: Record, theirs: Option<DigestEntry>) {
    theirs.None?
    || Less(theirs.value.written, r.written)
    || (r.written == theirs.value.written && Less(theirs.value.touched, r.touched))
  }

  function PushNames(m: Records, digest: seq<DigestEntry>): set<Bytes> {
    set n | n in m && n != MIRROR && Needs(m[n], Lookup(digest, n))
  }

  // ---- Local writes ----

  function UpsertStep(cfg: Config, st: State, name: Bytes, value: Bytes, flags: byte, origin: HostId, now: u64)
    : (State, WriteResult)
  {
    if !RegisterName.IsValid(name) then (st, InvalidName)
    else if |value| > cfg.maxValueBytes then (st, ValueTooLarge)
    else
      var pruned := Prune(st.records, now, cfg.ttlMs);
      var live := name in pruned && !pruned[name].IsTombstone();
      if !live && LiveCount(pruned, now, cfg.ttlMs) >= cfg.maxCount then (st.(records := pruned), CapExceeded)
      else
        var ts := Tick(st.last, now);
        var r := Record(name, value, ts, ts, origin, flags - flags % 2);
        (State(pruned[name := r], ts), Ok)
  }

  function ReadStep(cfg: Config, st: State, name: Bytes, now: u64): (State, Option<Record>) {
    if name !in st.records then (st, None)
    else if IsExpired(st.records[name], now, cfg.ttlMs) then (st.(records := st.records - {name}), None)
    else if st.records[name].IsTombstone() then (st, None)
    else
      var ts := Tick(st.last, now);
      var r := st.records[name].(touched := ts);
      (State(st.records[name := r], ts), Some(r))
  }

  function DeleteStep(cfg: Config, st: State, name: Bytes, origin: HostId, now: u64): (State, DeleteResult) {
    if name !in st.records then (st, NotFound)
    else if IsExpired(st.records[name], now, cfg.ttlMs) then (st.(records := st.records - {name}), NotFound)
    else if st.records[name].IsTombstone() then (st, NotFound)
    else
      var ts := Tick(st.last, now);
      var r := Record(st.records[name].name, [], ts, ts, origin, TOMBSTONE);
      (State(st.records[name := r], ts), Deleted)
  }

  function MirrorStep(st: State, value: Bytes, localHost: HostId, now: u64): State {
    var ts := Tick(st.last, now);
    State(st.records[MIRROR := Record(MIRROR, value, ts, ts, localHost, 0)], ts)
  }

  // ---- Replication ----

  function FetchStep(cfg: Config, st: State, name: Bytes, now: u64): (State, Option<Record>) {
    if name !in st.records then (st, None)
    else if IsExpired(st.records[name], now, cfg.ttlMs) then (st.(records := st.records - {name}), None)
    else (st, Some(st.records[name]))
  }

  function ApplyRemoteStep(cfg: Config, st: State, incoming: Record, now: u64): (State, bool) {
    if incoming.name == MIRROR then (st, false)
    else
      var seen := st.(last := Later(Later(st.last, incoming.written), incoming.touched));
      var name := incoming.name;
      if IsExpired(incoming, now, cfg.ttlMs) then (seen, false)
      else if name !in st.records || IsExpired(st.records[name], now, cfg.ttlMs) then
        (seen.(records := st.records[name := incoming]), true)
      else
        var merged := Merge(st.records[name], incoming);
        if merged == st.records[name] then (seen, false)
        else (seen.(records := st.records[name := merged]), true)
  }

  // ---- Operations as data, for statements about whole runs ----

  datatype Op =
    | Upsert(name: Bytes, value: Bytes, flags: byte, origin: HostId)
    | Read(name: Bytes)
    | Delete(name: Bytes, origin: HostId)
    | MirrorDefault(value: Bytes, localHost: HostId)
    | ListNames
    | List
    | Digest
    | SnapshotForSync
    | GetForBroadcast(name: Bytes)
    | RecordsToPush(remote: seq<DigestEntry>)
    | PlanPush(remote: seq<DigestEntry>)
    | ApplyRemote(incoming: Record)
    | SeedClockFloor(floor: Hlc)
    | ClockHighWater
    | LiveCounted
    | PhysicalCount

  datatype Result =
    | Wrote(write: WriteResult)
    | Found(record: Option<Record>)
    | Deletion(deletion: DeleteResult)
    | Names(names: seq<Bytes>)
    | Listed(records: seq<Record>)
    | Digested(entries: seq<DigestEntry>)
    | Applied(changed: bool)
    | Clock(last: Hlc)
    | Count(count: nat)
    | Done

  ghost function Step(cfg: Config, st: State, op: Op, now: u64): (State, Result) {
    var pruned := Prune(st.records, now, cfg.ttlMs);
    match op
    case Upsert(name, value, flags, origin) =>
      var (st', r) := UpsertStep(cfg, st, name, value, flags, origin, now); (st', Wrote(r))
    case Read(name) => var (st', r) := ReadStep(cfg, st, name, now); (st', Found(r))
    case Delete(name, origin) => var (st', r) := DeleteStep(cfg, st, name, origin, now); (st', Deletion(r))
    case MirrorDefault(value, localHost) => (MirrorStep(st, value, localHost, now), Done)
    case ListNames => (st.(records := pruned), Names(ByteOrder.Filter(ByteOrder.Sorted(pruned.Keys), LiveNames(pruned, now, cfg.ttlMs))))
    case List => (st.(records := pruned), Listed(Select(pruned, LiveNames(pruned, now, cfg.ttlMs))))
    case Digest => (st.(records := pruned), Digested(Entries(Select(pruned, pruned.Keys - {MIRROR}))))
    case SnapshotForSync => (st.(records := pruned), Listed(Select(pruned, pruned.Keys - {MIRROR})))
    case GetForBroadcast(name) => var (st', r) := FetchStep(cfg, st, name, now); (st', Found(r))
    case RecordsToPush(remote) => (st.(records := pruned), Listed(Select(pruned, PushNames(pruned, remote))))
    case PlanPush(remote) => (st.(records := pruned), Names(NamesOf(Select(pruned, PushNames(pruned, remote)))))
    case ApplyRemote(incoming) => var (st', r) := ApplyRemoteStep(cfg, st, incoming, now); (st', Applied(r))
    case SeedClockFloor(floor) => (st.(last := Later(st.last, floor)), Done)
    case ClockHighWater => (st, Clock(st.last))
    case LiveCounted => (st, Count(LiveCount(st.records, now, cfg.ttlMs)))
    case PhysicalCount => (st, Count(|st.records|))
  }

  /** An operation and the wall-clock reading it makes. */
  datatype Call = Call(op: Op, now: u64)

  ghost function Next(cfg: Config, st: State, call: Call): State {
    Step(cfg, st, call.op, call.now).0
  }

  ghost function Answer(cfg: Config, st: State, call: Call): Result {
    Step(cfg, st, call.op, call.now).1
  }

  /** `trace` lists the states a store goes through while it serves `calls`. */
  ghost predicate IsRun(cfg: Config, calls: seq<Call>, trace: seq<State>) {
    && |trace| == |calls| + 1
    && forall k | 0 <= k < |calls| :: trace[k + 1] == Next(cfg, trace[k], calls[k])
  }

  /** The wall clock never runs backwards over the run. */
  ghost predicate MonotoneTime(calls: seq<Call>, start: u64) {
    && (forall i | 0 <= i < |calls| :: start <= calls[i].now)
    && (forall i, j | 0 <= i < j < |calls| :: calls[i].now <= calls[j].now)
  }

  /** Every operation keeps each record under its own name. */
  lemma StepKeyed(cfg: Config, st: State, op: Op, now: u64)
    requires Keyed(st.records)
    ensures Keyed(Step(cfg, st, op, now).0.records)
  {}
}
