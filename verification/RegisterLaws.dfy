/** What each register operation means to its callers. */
module RegisterLaws {
  import opened Machine
  import opened HybridClock
  import opened RegisterMerge
  import opened RegisterState
  import opened AntiEntropy
  import RegisterName
  import LazyExpiry
  import RegisterStore
  import ClockBound
  import ByteOrder

  // The records seen are the unexpired ones. Each law says what an operation answers, what it leaves
  // of the name it is about, and that it leaves the others alone.

  /** The unexpired record of a name. */
  function Shown(cfg: Config, st: State, n: Bytes, now: u64): Option<Record> {
    if n in st.records && !IsExpired(st.records[n], now, cfg.ttlMs) then Some(st.records[n]) else None
  }

  predicate LiveAt(cfg: Config, st: State, n: Bytes, now: u64) {
    Shown(cfg, st, n, now).Some? && Shown(cfg, st, n, now).value.flags % 2 == 0
  }

  ghost predicate OthersAlike(cfg: Config, st: State, st': State, name: Bytes, now: u64) {
    forall n | n != name :: Shown(cfg, st', n, now) == Shown(cfg, st, n, now)
  }

  /** Nothing a caller can see has changed. */
  ghost predicate AllAlike(cfg: Config, st: State, st': State, now: u64) {
    st'.last == st.last && forall n :: Shown(cfg, st', n, now) == Shown(cfg, st, n, now)
  }

  lemma PrunedShown(cfg: Config, st: State, now: u64)
    ensures AllAlike(cfg, st, st.(records := Prune(st.records, now, cfg.ttlMs)), now)
    ensures forall n :: Get(Prune(st.records, now, cfg.ttlMs), n) == Shown(cfg, st, n, now)
  {}

  // ---- Local calls ----

  /** A write stores the value, the host and the flags but the tombstone bit, stamped now; or says why not. */
  lemma UpsertLaw(cfg: Config, st: State, name: Bytes, value: Bytes, flags: byte, origin: HostId, now: u64)
    ensures var (st', r) := UpsertStep(cfg, st, name, value, flags, origin, now); var ts := Tick(st.last, now);
      && (r == InvalidName <==> !RegisterName.IsValid(name))
      && (r == ValueTooLarge <==> RegisterName.IsValid(name) && |value| > cfg.maxValueBytes)
      && (r == CapExceeded <==> RegisterName.IsValid(name) && |value| <= cfg.maxValueBytes
                                && !LiveAt(cfg, st, name, now) && LiveCount(st.records, now, cfg.ttlMs) >= cfg.maxCount)
      && OthersAlike(cfg, st, st', name, now)
      && (if r == Ok then
            && st'.last == ts && name in st'.records
            && st'.records[name] == Record(name, value, ts, ts, origin, if flags % 2 == 1 then flags - 1 else flags)
          else AllAlike(cfg, st, st', now))
  {
    LazyExpiry.PruneAgain(st.records, now, cfg.ttlMs);
    PrunedShown(cfg, st, now);
  }

  /** A read finds a live value, and touches it; it finds no tombstone. */
  lemma ReadLaw(cfg: Config, st: State, name: Bytes, now: u64)
    ensures var (st', r) := ReadStep(cfg, st, name, now); var ts := Tick(st.last, now);
      && (r.Some? <==> LiveAt(cfg, st, name, now))
      && OthersAlike(cfg, st, st', name, now)
      && (if r.Some? then
            && st'.last == ts && r == Some(st.records[name].(touched := ts))
            && name in st'.records && st'.records[name] == r.value
          else AllAlike(cfg, st, st', now))
  {}

  /** A delete leaves an empty tombstone in place of a live value, stamped now; without one it does nothing. */
  lemma DeleteLaw(cfg: Config, st: State, name: Bytes, origin: HostId, now: u64)
    requires Keyed(st.records)
    ensures var (st', r) := DeleteStep(cfg, st, name, origin, now); var ts := Tick(st.last, now);
      && (r == Deleted <==> LiveAt(cfg, st, name, now))
      && OthersAlike(cfg, st, st', name, now)
      && (if r == Deleted then
            && st'.last == ts && name in st'.records && st'.records[name] == Record(name, [], ts, ts, origin, 1)
          else AllAlike(cfg, st, st', now))
  {}

  /** The mirror holds the clipboard's value, from this host, with no flags. */
  lemma MirrorLaw(cfg: Config, st: State, value: Bytes, localHost: HostId, now: u64)
    ensures var st' := MirrorStep(st, value, localHost, now); var ts := Tick(st.last, now);
      && OthersAlike(cfg, st, st', [], now) && st'.last == ts
      && [] in st'.records && st'.records[[]] == Record([], value, ts, ts, localHost, 0)
  {}

  /** What was written is read back, and what was deleted is not. */
  lemma WriteThenRead(cfg: Config, st: State, name: Bytes, value: Bytes, flags: byte, origin: HostId, now: u64)
    requires Keyed(st.records) && cfg.ttlMs > 0 && UpsertStep(cfg, st, name, value, flags, origin, now).1 == Ok
    ensures var st' := UpsertStep(cfg, st, name, value, flags, origin, now).0;
      && ReadStep(cfg, st', name, now).1.Some? && ReadStep(cfg, st', name, now).1.value.value == value
      && ReadStep(cfg, st', name, now).1.value.origin == origin
      && DeleteStep(cfg, st', name, origin, now).1 == Deleted
      && ReadStep(cfg, DeleteStep(cfg, st', name, origin, now).0, name, now).1 == None
  {
    UpsertLaw(cfg, st, name, value, flags, origin, now);
    TickAdvances(st.last, now);
    var st' := UpsertStep(cfg, st, name, value, flags, origin, now).0;
    ReadLaw(cfg, st', name, now);
    assert st'.records[name].touched.wallMs >= now;
  }

  // ---- Replication ----

  /** A fetch shows what is there, tombstones too, and touches nothing. */
  lemma FetchLaw(cfg: Config, st: State, name: Bytes, now: u64)
    ensures var (st', r) := FetchStep(cfg, st, name, now);
      r == Shown(cfg, st, name, now) && AllAlike(cfg, st, st', now)
  {}

  /** Merging a record in joins it, if it is unexpired, to what is shown; it is news if that changes. */
  lemma ApplyLaw(cfg: Config, st: State, incoming: Record, now: u64)
    requires Keyed(st.records) && incoming.name != MIRROR
    ensures var (st', changed) := ApplyRemoteStep(cfg, st, incoming, now); var name := incoming.name;
      var alive := if IsExpired(incoming, now, cfg.ttlMs) then None else Some(incoming);
      && Shown(cfg, st', name, now) == JoinOption(Shown(cfg, st, name, now), alive)
      && (changed <==> Shown(cfg, st', name, now) != Shown(cfg, st, name, now))
      && OthersAlike(cfg, st, st', name, now)
      && st'.last == Later(Later(st.last, incoming.written), incoming.touched)
  {}

  /** The mirror is never merged into. */
  lemma MirrorIsOwn(cfg: Config, st: State, incoming: Record, now: u64)
    requires incoming.name == []
    ensures ApplyRemoteStep(cfg, st, incoming, now) == (st, false)
  {}

  /** The listeners hear of no call that changes nothing. */
  lemma HeardCallsChange(cfg: Config, st: State, op: Op, now: u64)
    requires ClockBound.Bounded(st) && ClockBound.CanRun(st, op, now)
    requires RegisterStore.Notifies(op, Step(cfg, st, op, now).1)
    ensures Step(cfg, st, op, now).0.records != st.records
  {
    TickAdvances(st.last, now);
    var m, m' := st.records, Step(cfg, st, op, now).0.records;
    var n := ClockBound.Target(op);
    match op
    case Upsert(name, value, flags, origin) => UpsertLaw(cfg, st, name, value, flags, origin, now);
    case Read(name) => ReadLaw(cfg, st, name, now);
    case Delete(name, origin) =>
      assert m'[name].written == Tick(st.last, now);
    case _ =>
  }

  // ---- Listings ----

  /** The list holds each live record, the mirror's too, ascending by name. */
  lemma ListLaw(cfg: Config, st: State, now: u64, r: Record)
    requires Keyed(st.records)
    ensures var (st', q) := Step(cfg, st, List, now);
      AllAlike(cfg, st, st', now) && q.Listed?
      && (r in q.records <==> LiveAt(cfg, st, r.name, now) && Shown(cfg, st, r.name, now) == Some(r))
      && forall i, j | 0 <= i < j < |q.records| :: ByteOrder.Less(q.records[i].name, q.records[j].name)
  {
    var pruned := Prune(st.records, now, cfg.ttlMs);
    PrunedShown(cfg, st, now);
    SelectFacts(pruned, LiveNames(pruned, now, cfg.ttlMs));
  }

  /** The names listed are those of the list. */
  lemma ListNamesLaw(cfg: Config, st: State, now: u64, n: Bytes)
    ensures var (st', q) := Step(cfg, st, ListNames, now);
      AllAlike(cfg, st, st', now) && q.Names? && (n in q.names <==> LiveAt(cfg, st, n, now))
      && ByteOrder.StrictlyAscending(q.names)
  {
    var pruned := Prune(st.records, now, cfg.ttlMs);
    PrunedShown(cfg, st, now);
    ByteOrder.SortedIsSorted(pruned.Keys);
    ByteOrder.FilterAscending(ByteOrder.Sorted(pruned.Keys), LiveNames(pruned, now, cfg.ttlMs));
  }

  /** The snapshot holds each unexpired record but the mirror's, tombstones too, and the digest its stamps. */
  lemma SnapshotLaw(cfg: Config, st: State, now: u64, r: Record)
    requires Keyed(st.records)
    ensures var (st', q) := Step(cfg, st, SnapshotForSync, now);
      AllAlike(cfg, st, st', now) && q.Listed? && (r in q.records <==> r.name != [] && Shown(cfg, st, r.name, now) == Some(r))
    ensures var (st', d) := Step(cfg, st, Digest, now); var q := Step(cfg, st, SnapshotForSync, now).1;
      AllAlike(cfg, st, st', now) && d.Digested? && q.Listed? && |d.entries| == |q.records|
      && forall i | 0 <= i < |d.entries| ::
           d.entries[i] == DigestEntry(q.records[i].name, q.records[i].written, q.records[i].touched)
  {
    var pruned := Prune(st.records, now, cfg.ttlMs);
    PrunedShown(cfg, st, now);
    SelectFacts(pruned, pruned.Keys - {MIRROR});
  }

  /** The peer's entry for a name is the first of them. */
  lemma {:induction false} LookupFirst(digest: seq<DigestEntry>, name: Bytes, i: nat)
    requires i < |digest| && digest[i].name == name && forall j | 0 <= j < i :: digest[j].name != name
    ensures Lookup(digest, name) == Some(digest[i])
  {
    if i > 0 {
      LookupFirst(digest[1..], name, i - 1);
    }
  }

  /** What is pushed is what the peer lacks, or holds written earlier, or written alike but touched earlier. */
  lemma PushLaw(cfg: Config, st: State, remote: seq<DigestEntry>, now: u64, r: Record)
    requires Keyed(st.records)
    ensures var (st', q) := Step(cfg, st, RecordsToPush(remote), now); var theirs := Lookup(remote, r.name);
      AllAlike(cfg, st, st', now) && q.Listed?
      && (r in q.records <==>
            && r.name != [] && Shown(cfg, st, r.name, now) == Some(r)
            && (theirs.Some? ==>
                  || Less(theirs.value.written, r.written)
                              || (r.written == theirs.value.written && Less(theirs.value.touched, r.touched))))
  {
    var pruned := Prune(st.records, now, cfg.ttlMs);
    PrunedShown(cfg, st, now);
    SelectFacts(pruned, PushNames(pruned, remote));
  }
}
