/**
 The register store (src/RegisterStore.h, src/RegisterStore.cpp): the record map, the clock
 and the limits as fields updated in place. Every method is proved to compute the matching
 function of RegisterState; the mutex makes each method one atomic step. The loops over the map
 are methods of their own, and the last lemmas say which calls the change listeners hear of.
 */
module RegisterStore {
  import opened Machine
  import opened HybridClock
  import opened RegisterMerge
  import S = RegisterState
  import ByteOrder
  import Collections
  import RegisterName

  class RegisterStore {
    var records: S.Records
    const clock: HlcClock
    var localHost: HostId
    var ttlMs: u64
    var maxCount: nat
    var maxValueBytes: nat
    // How many times the change listeners have been called.
    var notifications: nat

    function Abstract(): S.State
      reads this, clock
    {
      S.State(records, clock.last)
    }

    function Limits(): S.Config
      reads this
    {
      S.Config(ttlMs, maxCount, maxValueBytes)
    }

    constructor (localHost: HostId, ttlMs: u64, maxCount: nat, maxValueBytes: nat)
      ensures Abstract() == S.State(map[], ZERO) && Limits() == S.Config(ttlMs, maxCount, maxValueBytes)
      ensures this.localHost == localHost && notifications == 0 && fresh(clock)
    {
      clock := new HlcClock();
      records := map[];
      this.localHost, this.ttlMs, this.maxCount, this.maxValueBytes := localHost, ttlMs, maxCount, maxValueBytes;
      notifications := 0;
    }

    // ---- Expiry and counting ----

    method PruneExpired(now: u64)
      modifies this`records
      ensures records == S.Prune(old(records), now, ttlMs)
    {
      records := EraseExpired(records, now, ttlMs);
    }

    method LiveCount(now: u64) returns (count: nat)
      ensures count == S.LiveCount(records, now, ttlMs)
    {
      count := CountLive(records, now, ttlMs);
    }

    method PhysicalCount() returns (count: nat)
      ensures count == |records|
    {
      count := |records|;
    }

    // ---- Local writes ----

    method UpsertLocked(name: Bytes, value: Bytes, valueFlags: byte, origin: HostId, now: u64)
      returns (result: S.WriteResult)
      modifies this`records, clock
      ensures (Abstract(), result) == S.UpsertStep(Limits(), old(Abstract()), name, value, valueFlags, origin, now)
    {
      var valid := RegisterName.IsValidRegisterName(name);
      if !valid {
        return S.InvalidName;
      }
      if |value| > maxValueBytes {
        return S.ValueTooLarge;
      }
      PruneExpired(now);
      var currentlyLiveValue := name in records && !records[name].IsTombstone();
      if !currentlyLiveValue {
        var live := LiveCount(now);
        if live >= maxCount {
          return S.CapExceeded;
        }
      }
      var ts := clock.Now(now);
      var r := Record(name, value, ts, ts, origin, valueFlags - valueFlags % 2);
      records := records[name := r];
      return S.Ok;
    }

    method UpsertWithFlags(name: Bytes, value: Bytes, valueFlags: byte, origin: HostId, now: u64)
      returns (result: S.WriteResult)
      modifies this`records, this`notifications, clock
      ensures (Abstract(), result) == S.UpsertStep(Limits(), old(Abstract()), name, value, valueFlags, origin, now)
      ensures notifications == old(notifications) + if result == S.Ok then 1 else 0
    {
      result := UpsertLocked(name, value, valueFlags, origin, now);
      if result == S.Ok {
        NotifyChanged();
      }
    }

    method Upsert(name: Bytes, value: Bytes, isPrivate: bool, origin: HostId, now: u64)
      returns (result: S.WriteResult)
      modifies this`records, this`notifications, clock
      ensures (Abstract(), result) == S.UpsertStep(Limits(), old(Abstract()), name, value,
                                                   if isPrivate then PRIVATE else 0, origin, now)
      ensures notifications == old(notifications) + if result == S.Ok then 1 else 0
    {
      result := UpsertLocked(name, value, if isPrivate then PRIVATE else 0, origin, now);
      if result == S.Ok {
        NotifyChanged();
      }
    }

    method Read(name: Bytes, now: u64) returns (result: Option<Record>)
      modifies this`records, this`notifications, clock
      ensures (Abstract(), result) == S.ReadStep(Limits(), old(Abstract()), name, now)
      ensures notifications == old(notifications) + if result.Some? then 1 else 0
    {
      if name !in records {
        return None;
      }
      if IsExpired(records[name], now, ttlMs) {
        records := records - {name};
        return None;
      }
      if records[name].IsTombstone() {
        return None;
      }
      var ts := clock.Now(now);
      records := records[name := records[name].(touched := ts)];
      result := Some(records[name]);
      NotifyChanged();
    }

    method DeleteLocked(name: Bytes, origin: HostId, now: u64) returns (result: S.DeleteResult)
      modifies this`records, clock
      ensures (Abstract(), result) == S.DeleteStep(Limits(), old(Abstract()), name, origin, now)
    {
      if name !in records {
        return S.NotFound;
      }
      if IsExpired(records[name], now, ttlMs) {
        records := records - {name};
        return S.NotFound;
      }
      if records[name].IsTombstone() {
        return S.NotFound;
      }
      var ts := clock.Now(now);
      var r := records[name].(value := [], written := ts, touched := ts, origin := origin, flags := TOMBSTONE);
      records := records[name := r];
      return S.Deleted;
    }

    method Delete(name: Bytes, origin: HostId, now: u64) returns (result: S.DeleteResult)
      modifies this`records, this`notifications, clock
      ensures (Abstract(), result) == S.DeleteStep(Limits(), old(Abstract()), name, origin, now)
      ensures notifications == old(notifications) + if result == S.Deleted then 1 else 0
    {
      result := DeleteLocked(name, origin, now);
      if result == S.Deleted {
        NotifyChanged();
      }
    }

    method MirrorDefault(value: Bytes, now: u64)
      modifies this`records, clock
      ensures Abstract() == S.MirrorStep(old(Abstract()), value, localHost, now)
    {
      var ts := clock.Now(now);
      records := records[S.MIRROR := Record([], value, ts, ts, localHost, 0)];
    }

    // ---- Listings ----

    method ListNames(now: u64) returns (names: seq<Bytes>)
      modifies this`records
      ensures (Abstract(), S.Names(names)) == S.Step(Limits(), old(Abstract()), S.ListNames, now)
    {
      PruneExpired(now);
      names := CollectLiveNames(records, now, ttlMs);
    }

    method List(now: u64) returns (out: seq<Record>)
      modifies this`records
      ensures (Abstract(), S.Listed(out)) == S.Step(Limits(), old(Abstract()), S.List, now)
    {
      PruneExpired(now);
      out := CollectLive(records, now, ttlMs);
    }

    method Digest(now: u64) returns (out: seq<DigestEntry>)
      requires S.Keyed(records)
      modifies this`records
      ensures (Abstract(), S.Digested(out)) == S.Step(Limits(), old(Abstract()), S.Digest, now)
    {
      PruneExpired(now);
      out := CollectDigest(records);
    }

    method SnapshotForSync(now: u64) returns (out: seq<Record>)
      modifies this`records
      ensures (Abstract(), S.Listed(out)) == S.Step(Limits(), old(Abstract()), S.SnapshotForSync, now)
    {
      PruneExpired(now);
      out := CollectReplicated(records);
    }

    // ---- Replication ----

    method GetForBroadcast(name: Bytes, now: u64) returns (result: Option<Record>)
      modifies this`records
      ensures (Abstract(), result) == S.FetchStep(Limits(), old(Abstract()), name, now)
    {
      if name !in records {
        return None;
      }
      if IsExpired(records[name], now, ttlMs) {
        records := records - {name};
        return None;
      }
      return Some(records[name]);
    }

    method RecordsToPush(remoteDigest: seq<DigestEntry>, now: u64) returns (out: seq<Record>)
      modifies this`records
      ensures (Abstract(), S.Listed(out)) == S.Step(Limits(), old(Abstract()), S.RecordsToPush(remoteDigest), now)
    {
      PruneExpired(now);
      var remote := IndexDigest(remoteDigest);
      out := CollectPush(records, remoteDigest, remote);
    }

    method PlanPush(remoteDigest: seq<DigestEntry>, now: u64) returns (names: seq<Bytes>)
      modifies this`records
      ensures (Abstract(), S.Names(names)) == S.Step(Limits(), old(Abstract()), S.PlanPush(remoteDigest), now)
    {
      var toPush := RecordsToPush(remoteDigest, now);
      names := [];
      for i := 0 to |toPush|
        invariant |names| == i && forall k | 0 <= k < i :: names[k] == toPush[k].name
      {
        names := names + [toPush[i].name];
      }
      assert names == S.NamesOf(toPush);
    }

    method ApplyRemoteLocked(incoming: Record, now: u64) returns (changed: bool)
      modifies this`records, clock
      ensures (Abstract(), changed) == S.ApplyRemoteStep(Limits(), old(Abstract()), incoming, now)
    {
      if incoming.name == [] {
        return false;
      }
      clock.Witness(incoming.written);
      clock.Witness(incoming.touched);
      if IsExpired(incoming, now, ttlMs) {
        return false;
      }
      var name := incoming.name;
      if name !in records {
        records := records[name := incoming];
        return true;
      }
      if IsExpired(records[name], now, ttlMs) {
        records := records[name := incoming];
        return true;
      }
      var merged := Merge(records[name], incoming);
      if merged == records[name] {
        return false;
      }
      records := records[name := merged];
      return true;
    }

    method ApplyRemote(incoming: Record, now: u64) returns (changed: bool)
      modifies this`records, this`notifications, clock
      ensures (Abstract(), changed) == S.ApplyRemoteStep(Limits(), old(Abstract()), incoming, now)
      ensures notifications == old(notifications) + if changed then 1 else 0
    {
      changed := ApplyRemoteLocked(incoming, now);
      if changed {
        NotifyChanged();
      }
    }

    // ---- Lifecycle ----

    method NotifyChanged()
      modifies this`notifications
      ensures notifications == old(notifications) + 1
    {
      notifications := notifications + 1;
    }

    method SeedClockFloor(floor: Hlc)
      modifies clock
      ensures Abstract() == old(Abstract()).(last := Later(old(clock.last), floor))
    {
      clock.SeedFloor(floor);
    }

    method ClockHighWater() returns (last: Hlc)
      ensures last == clock.last
    {
      last := clock.last;
    }
  }

  // ---- The loops over the map, in name order ----

  method EraseExpired(m: S.Records, now: u64, ttl: u64) returns (out: S.Records)
    ensures out == S.Prune(m, now, ttl)
  {
    var order := ByteOrder.InOrder(m.Keys);
    ByteOrder.VisitedAll(m.Keys);
    ghost var dead := set n | n in m && IsExpired(m[n], now, ttl);
    Collections.RemoveNone(m, dead);
    out := m;
    for i := 0 to |order|
      invariant out == m - ByteOrder.Visited(order, i) * dead
    {
      var n := order[i];
      ByteOrder.Visit(m.Keys, order, i);
      Collections.RemoveOne(m, ByteOrder.Visited(order, i), dead, n);
      if IsExpired(m[n], now, ttl) {
        out := out - {n};
      }
    }
    PruneIsRemoval(m, now, ttl, dead);
  }

  lemma PruneIsRemoval(m: S.Records, now: u64, ttl: u64, dead: set<Bytes>)
    requires dead == set n | n in m && IsExpired(m[n], now, ttl)
    ensures m - m.Keys * dead == S.Prune(m, now, ttl)
  {}

  predicate IsLive(m: S.Records, n: Bytes, now: u64, ttl: u64)
    requires n in m
  {
    n != S.MIRROR && !m[n].IsTombstone() && !IsExpired(m[n], now, ttl)
  }

  lemma CountStep(m: S.Records, order: seq<Bytes>, i: nat, now: u64, ttl: u64)
    requires order == ByteOrder.Sorted(m.Keys) && i < |order|
    ensures order[i] in m
    ensures var live := S.LiveNames(m, now, ttl) - {S.MIRROR};
      |ByteOrder.Visited(order, i + 1) * live|
      == |ByteOrder.Visited(order, i) * live| + if IsLive(m, order[i], now, ttl) then 1 else 0
  {
    ByteOrder.Visit(m.Keys, order, i);
    Collections.CountOne(ByteOrder.Visited(order, i), S.LiveNames(m, now, ttl) - {S.MIRROR}, order[i]);
  }

  method CountLive(m: S.Records, now: u64, ttl: u64) returns (count: nat)
    ensures count == S.LiveCount(m, now, ttl)
  {
    count := 0;
    var order := ByteOrder.InOrder(m.Keys);
    ByteOrder.VisitedAll(m.Keys);
    ghost var live := S.LiveNames(m, now, ttl) - {S.MIRROR};
    Collections.IntersectSubset(m.Keys, live);
    for i := 0 to |order|
      invariant count == |ByteOrder.Visited(order, i) * live|
    {
      CountStep(m, order, i, now, ttl);
      if order[i] == [] {
        continue;  // the mirror never counts against the cap
      }
      var r := m[order[i]];
      if !r.IsTombstone() && !IsExpired(r, now, ttl) {
        count := count + 1;
      }
    }
  }

  lemma PickStep(m: S.Records, order: seq<Bytes>, i: nat, keep: set<Bytes>)
    requires i < |order| && order[i] in m
    ensures S.Pick(m, order[..i + 1], keep)
         == S.Pick(m, order[..i], keep) + if order[i] in keep then [m[order[i]]] else []
  {
    assert order[..i + 1][..i] == order[..i];
  }

  method CollectLiveNames(m: S.Records, now: u64, ttl: u64) returns (names: seq<Bytes>)
    ensures names == ByteOrder.Filter(ByteOrder.Sorted(m.Keys), S.LiveNames(m, now, ttl))
  {
    names := [];
    var order := ByteOrder.InOrder(m.Keys);
    for i := 0 to |order|
      invariant names == ByteOrder.Filter(order[..i], S.LiveNames(m, now, ttl))
    {
      ByteOrder.Visit(m.Keys, order, i);
      assert order[..i + 1][..i] == order[..i];
      var r := m[order[i]];
      if !r.IsTombstone() && !IsExpired(r, now, ttl) {
        names := names + [order[i]];
      }
    }
    assert order[..|order|] == order;
  }

  method CollectLive(m: S.Records, now: u64, ttl: u64) returns (out: seq<Record>)
    ensures out == S.Select(m, S.LiveNames(m, now, ttl))
  {
    out := [];
    var order := ByteOrder.InOrder(m.Keys);
    for i := 0 to |order|
      invariant out == S.Pick(m, order[..i], S.LiveNames(m, now, ttl))
    {
      ByteOrder.Visit(m.Keys, order, i);
      PickStep(m, order, i, S.LiveNames(m, now, ttl));
      var r := m[order[i]];
      if !r.IsTombstone() && !IsExpired(r, now, ttl) {
        out := out + [r];
      }
    }
    assert order[..|order|] == order;
  }

  method CollectReplicated(m: S.Records) returns (out: seq<Record>)
    ensures out == S.Select(m, m.Keys - {S.MIRROR})
  {
    out := [];
    var order := ByteOrder.InOrder(m.Keys);
    for i := 0 to |order|
      invariant out == S.Pick(m, order[..i], m.Keys - {S.MIRROR})
    {
      ByteOrder.Visit(m.Keys, order, i);
      PickStep(m, order, i, m.Keys - {S.MIRROR});
      if order[i] == [] {
        continue;  // the mirror is local-only
      }
      out := out + [m[order[i]]];
    }
    assert order[..|order|] == order;
  }

  method CollectDigest(m: S.Records) returns (out: seq<DigestEntry>)
    requires S.Keyed(m)
    ensures out == S.Entries(S.Select(m, m.Keys - {S.MIRROR}))
  {
    out := [];
    var order := ByteOrder.InOrder(m.Keys);
    for i := 0 to |order|
      invariant out == S.Entries(S.Pick(m, order[..i], m.Keys - {S.MIRROR}))
    {
      ByteOrder.Visit(m.Keys, order, i);
      PickStep(m, order, i, m.Keys - {S.MIRROR});
      if order[i] == [] {
        continue;
      }
      var r := m[order[i]];
      out := out + [DigestEntry(order[i], r.written, r.touched)];
    }
    assert order[..|order|] == order;
  }

  lemma {:induction false} LookupAppend(digest: seq<DigestEntry>, e: DigestEntry, n: Bytes)
    ensures S.Lookup(digest + [e], n) ==
      if S.Lookup(digest, n).Some? then S.Lookup(digest, n) else if e.name == n then Some(e) else None
  {
    if digest == [] {
      assert (digest + [e])[1..] == [];
    } else {
      assert (digest + [e])[1..] == digest[1..] + [e];
      LookupAppend(digest[1..], e, n);
    }
  }

  ghost predicate Indexes(remote: map<Bytes, DigestEntry>, digest: seq<DigestEntry>) {
    forall n :: S.Lookup(digest, n) == if n in remote then Some(remote[n]) else None
  }

  /** The by-name index of a peer's digest; `emplace` keeps the first entry of a name. */
  method IndexDigest(digest: seq<DigestEntry>) returns (remote: map<Bytes, DigestEntry>)
    ensures Indexes(remote, digest)
  {
    remote := map[];
    for i := 0 to |digest|
      invariant Indexes(remote, digest[..i])
    {
      assert digest[..i + 1] == digest[..i] + [digest[i]];
      forall n {
        LookupAppend(digest[..i], digest[i], n);
      }
      if digest[i].name !in remote {
        remote := remote[digest[i].name := digest[i]];
      }
    }
    assert digest[..|digest|] == digest;
  }

  method CollectPush(m: S.Records, ghost digest: seq<DigestEntry>, remote: map<Bytes, DigestEntry>)
    returns (out: seq<Record>)
    requires Indexes(remote, digest)
    ensures out == S.Select(m, S.PushNames(m, digest))
  {
    out := [];
    var order := ByteOrder.InOrder(m.Keys);
    ghost var keep := S.PushNames(m, digest);
    for i := 0 to |order|
      invariant out == S.Pick(m, order[..i], keep)
    {
      ByteOrder.Visit(m.Keys, order, i);
      var name := order[i];
      var r := m[name];
      PickStep(m, order, i, keep);
      if name == [] {
        continue;
      }
      if name !in remote {
        out := out + [r];
        continue;
      }
      var their := remote[name];
      if Less(their.written, r.written) || (r.written == their.written && Less(their.touched, r.touched)) {
        out := out + [r];
      }
    }
    assert order[..|order|] == order;
  }

  // ---- Who hears of a change ----

  /** The calls after which the change listeners run. */
  predicate Notifies(op: S.Op, r: S.Result) {
    match r
    case Wrote(w) => w == S.Ok
    case Deletion(d) => d == S.Deleted
    case Applied(changed) => changed
    case Found(record) => op.Read? && record.Some?
    case _ => false
  }

  /** The replicated part of a store: unexpired records other than the clipboard mirror. */
  function Replicated(m: S.Records, now: u64, ttl: u64): S.Records {
    S.Prune(m, now, ttl) - {S.MIRROR}
  }

  lemma SilentRemoval(m: S.Records, n: Bytes, now: u64, ttl: u64)
    requires n in m ==> IsExpired(m[n], now, ttl)
    ensures Replicated(m - {n}, now, ttl) == Replicated(m, now, ttl)
  {}

  lemma SilentPrune(m: S.Records, now: u64, ttl: u64)
    ensures Replicated(S.Prune(m, now, ttl), now, ttl) == Replicated(m, now, ttl)
  {}

  lemma SilentMirror(m: S.Records, r: Record, now: u64, ttl: u64)
    ensures Replicated(m[S.MIRROR := r], now, ttl) == Replicated(m, now, ttl)
  {}

  /** The records a call leaves behind when the listeners do not hear of it. */
  lemma SilentRecords(cfg: S.Config, st: S.State, op: S.Op, now: u64)
    requires !Notifies(op, S.Step(cfg, st, op, now).1)
    ensures var m, m' := st.records, S.Step(cfg, st, op, now).0.records;
      || m' == m
      || m' == S.Prune(m, now, cfg.ttlMs)
      || (exists n :: n in m && IsExpired(m[n], now, cfg.ttlMs) && m' == m - {n})
      || (S.MIRROR in m' && m' == m[S.MIRROR := m'[S.MIRROR]])
  {
    if op.MirrorDefault? {
      assert S.Step(cfg, st, op, now).0 == S.MirrorStep(st, op.value, op.localHost, now);
    }
  }

  /** No call changes the replicated state without the listeners hearing of it. */
  lemma SilentCallsChangeNothing(cfg: S.Config, st: S.State, op: S.Op, now: u64)
    requires !Notifies(op, S.Step(cfg, st, op, now).1)
    ensures Replicated(S.Step(cfg, st, op, now).0.records, now, cfg.ttlMs) == Replicated(st.records, now, cfg.ttlMs)
  {
    var m, m' := st.records, S.Step(cfg, st, op, now).0.records;
    SilentRecords(cfg, st, op, now);
    SilentPrune(m, now, cfg.ttlMs);
    if exists n :: n in m && IsExpired(m[n], now, cfg.ttlMs) && m' == m - {n} {
      var n :| n in m && IsExpired(m[n], now, cfg.ttlMs) && m' == m - {n};
      SilentRemoval(m, n, now, cfg.ttlMs);
    } else if S.MIRROR in m' && m' == m[S.MIRROR := m'[S.MIRROR]] {
      SilentMirror(m, m'[S.MIRROR], now, cfg.ttlMs);
    }
  }
}
