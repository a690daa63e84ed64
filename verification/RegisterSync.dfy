/** The register frames of src/Peer.cpp acting on two stores. */
module RegisterSync {
  import opened Machine
  import opened HybridClock
  import opened RegisterMerge
  import opened RegisterState
  import opened RegisterStore
  import opened AntiEntropy
  import RegisterName
  import opened RegisterLaws
  import W = RegisterWire
  import P = RegisterPersistence
  import WireCursor

  // RSYN carries one store's encoded digest, the other answers with REGW frames and a closing REOS,
  // and each frame is decoded, checked and applied. Over the wire the exchange computes
  // AntiEntropy.Pull on the first 1024 entries of the digest. Sends succeed.

  datatype Frame = Frame(tag: string, body: Bytes)

  /**
   What a frame handler does besides changing the store: the frames it sends back, a REGW to the
   mesh, and a clock reading noted for the floor.
   */
  datatype Effects = Effects(replies: seq<Frame>, broadcast: Option<Bytes>, noted: Option<u64>)

  const NOTHING: Effects := Effects([], None, None)

  /** Every replicated record can travel: a valid name and a value within the frame cap. */
  ghost predicate CanTravel(m: Records) {
    Keyed(m) && forall n | n in m && n != MIRROR :: Travels(m[n])
  }

  ghost predicate Travels(r: Record) {
    RegisterName.IsValid(r.name) && |r.value| <= W.MAX_VALUE_LEN
  }

  /** A write request from a one-shot client: re-stamped here, keeping the client's origin. */
  ghost function RelayStep(cfg: Config, st: State, record: Record, now: u64): (State, bool) {
    if record.IsTombstone() then
      var (st', r) := DeleteStep(cfg, st, record.name, record.origin, now);
      (st', r == Deleted)
    else
      var (st', r) := UpsertStep(cfg, st, record.name, record.value, record.flags, record.origin, now);
      (st', r == Ok)
  }

  /** The acknowledgement of a relayed write. */
  function Ack(record: Record, changed: bool): Frame {
    Frame(if record.IsTombstone() then (if changed then "RDEL" else "NONE") else (if changed then "ROKW" else "RERR"), [])
  }

  /** A relayed write: it is acknowledged, and a change is noted for the floor and broadcast. */
  ghost function RelayAndBroadcast(cfg: Config, st: State, record: Record, now: u64): (State, Effects) {
    var (st', changed) := RelayStep(cfg, st, record, now);
    if !changed then (st', Effects([Ack(record, false)], None, None))
    else
      var (st'', stored) := FetchStep(cfg, st', record.name, now);
      (st'', Effects([Ack(record, true)],
                     if stored.Some? then Some(W.EncodeRecord(stored.value, 0)) else None,
                     Some(st'.last.wallMs)))
  }

  /** A REGW frame. */
  ghost function RegwStep(cfg: Config, st: State, body: Bytes, now: u64): (State, Effects) {
    match W.ParseRecord(body)
    case None => (st, NOTHING)
    case Some((record, transport, reserved)) =>
      if !RegisterName.IsValid(record.name) then (st, NOTHING)
      else if transport % 2 == 1 then RelayAndBroadcast(cfg, st, record, now)
      else (ApplyRemoteStep(cfg, st, record, now).0, NOTHING)
  }

  function RegwFrames(bodies: seq<Bytes>): (frames: seq<Frame>)
    ensures |frames| == |bodies| && forall i | 0 <= i < |bodies| :: frames[i] == Frame("REGW", bodies[i])
  {
    seq(|bodies|, i requires 0 <= i < |bodies| => Frame("REGW", bodies[i]))
  }

  /** An RSYN frame: one REGW for each record the digest shows to be missing or stale, then REOS. */
  ghost function RsynStep(cfg: Config, st: State, body: Bytes, now: u64): (State, Effects) {
    match W.ParseDigest(body)
    case None => (st, NOTHING)
    case Some(digest) =>
      (Snapshot(cfg, st, now),
       NOTHING.(replies := RegwFrames(W.EncodeAll(Pushed(cfg, st, digest, now))) + [Frame("REOS", [])]))
  }

  ghost function FrameStep(cfg: Config, st: State, frame: Frame, now: u64): (State, Effects) {
    if frame.tag == "REGW" then RegwStep(cfg, st, frame.body, now)
    else if frame.tag == "RSYN" then RsynStep(cfg, st, frame.body, now)
    else (st, NOTHING)
  }

  /** A delete is taken when there is a live value; a write when its name and size are good and there is room. */
  predicate Acceptable(cfg: Config, st: State, record: Record, now: u64) {
    if record.flags % 2 == 1 then LiveAt(cfg, st, record.name, now)
    else
      && RegisterName.IsValid(record.name) && |record.value| <= cfg.maxValueBytes
      && (LiveAt(cfg, st, record.name, now) || LiveCount(st.records, now, cfg.ttlMs) < cfg.maxCount)
  }

  /**
   What is stored of a relayed write: the client's value, flags and host under this device's stamp;
   of a delete, a tombstone.
   */
  predicate StoresRelayed(stored: Record, record: Record, ts: Hlc) {
    && stored.name == record.name && stored.written == ts && stored.touched == ts && stored.origin == record.origin
    && (if record.flags % 2 == 1 then stored.value == [] && stored.flags == 1
        else stored.value == record.value && stored.flags == record.flags)
  }

  function AckTag(record: Record, changed: bool): string {
    if record.flags % 2 == 1 then (if changed then "RDEL" else "NONE") else (if changed then "ROKW" else "RERR")
  }

  /**
   The write changed the store: it is acknowledged, its reading noted, and what was stored is
   broadcast, unless with a zero idle time it is gone at once.
   */
  ghost predicate Relayed(cfg: Config, st: State, record: Record, ts: Hlc, now: u64, effects: Effects) {
    && effects.replies == [Frame(AckTag(record, true), [])] && effects.noted == Some(ts.wallMs)
    && (effects.broadcast.Some? <==> cfg.ttlMs > 0 || now < ts.wallMs)
    && (record.name in st.records <==> effects.broadcast.Some?)
    && (record.name in st.records ==>
         var stored := st.records[record.name];
         StoresRelayed(stored, record, ts) && effects.broadcast == Some(W.EncodeRecord(stored, 0)))
  }

  /**
   Every relayed write is taken if and only if it is acceptable: stored as the client sent it under
   this device's stamp and passed on. Otherwise it is refused, nothing is passed on and nothing a
   caller can see has changed. Either way the other names keep their records.
   */
  lemma RelayedOrRefused(cfg: Config, st: State, record: Record, now: u64)
    requires Keyed(st.records)
    ensures var (st', effects) := RelayAndBroadcast(cfg, st, record, now); var ts := Tick(st.last, now);
      && OthersAlike(cfg, st, st', record.name, now)
      && if Acceptable(cfg, st, record, now) then st'.last == ts && Relayed(cfg, st', record, ts, now, effects)
         else effects == Effects([Frame(AckTag(record, false), [])], None, None) && AllAlike(cfg, st, st', now)
  {
    RelayExactly(cfg, st, record, now);
    var (st', _) := RelayStep(cfg, st, record, now);
    FetchLaw(cfg, st', record.name, now);
    TickAdvances(st.last, now);
  }

  lemma RelayExactly(cfg: Config, st: State, record: Record, now: u64)
    requires Keyed(st.records)
    ensures var (st', changed) := RelayStep(cfg, st, record, now); var ts := Tick(st.last, now);
      && changed == Acceptable(cfg, st, record, now)
      && OthersAlike(cfg, st, st', record.name, now)
      && if changed then record.name in st'.records && StoresRelayed(st'.records[record.name], record, ts) && st'.last == ts
         else AllAlike(cfg, st, st', now)
  {
    if record.flags % 2 == 1 {
      DeleteLaw(cfg, st, record.name, record.origin, now);
    } else {
      UpsertLaw(cfg, st, record.name, record.value, record.flags, record.origin, now);
    }
  }

  /** A frame with the relay bit is such a request; one without is a record of the mesh. */
  lemma RelayBit(cfg: Config, st: State, r: Record, transport: byte, now: u64)
    requires Travels(r)
    ensures RegwStep(cfg, st, W.EncodeRecord(r, transport), now)
         == if transport % 2 == 1 then RelayAndBroadcast(cfg, st, r, now) else (ApplyRemoteStep(cfg, st, r, now).0, NOTHING)
  {
    W.RecordRoundTrip(r, transport, 0);
  }

  method RelayWrite(store: RegisterStore, record: Record, now: u64) returns (changed: bool)
    modifies store`records, store`notifications, store.clock
    ensures store.Limits() == old(store.Limits())
    ensures (store.Abstract(), changed) == RelayStep(store.Limits(), old(store.Abstract()), record, now)
  {
    if record.IsTombstone() {
      var result := store.Delete(record.name, record.origin, now);
      changed := result == Deleted;
    } else {
      var result := store.UpsertWithFlags(record.name, record.value, record.flags, record.origin, now);
      changed := result == Ok;
    }
  }

  method RelayWriteAndBroadcast(store: RegisterStore, record: Record, now: u64) returns (effects: Effects)
    modifies store`records, store`notifications, store.clock
    ensures store.Limits() == old(store.Limits())
    ensures (store.Abstract(), effects) == RelayAndBroadcast(store.Limits(), old(store.Abstract()), record, now)
  {
    var changed := RelayWrite(store, record, now);
    effects := Effects([Ack(record, changed)], None, None);
    if changed {
      var reading := store.ClockHighWater();
      effects := effects.(noted := Some(reading.wallMs));
      var stored := store.GetForBroadcast(record.name, now);
      if stored.Some? {
        var body := WireCursor.EncodeRecordBody(stored.value, 0);
        effects := effects.(broadcast := Some(body));
      }
    }
  }

  /** The REGW branch of the frame handler. */
  method HandleRegw(store: RegisterStore, body: Bytes, now: u64) returns (effects: Effects)
    modifies store`records, store`notifications, store.clock
    ensures store.Limits() == old(store.Limits())
    ensures (store.Abstract(), effects) == RegwStep(store.Limits(), old(store.Abstract()), body, now)
  {
    effects := NOTHING;
    var ok, record, transport := WireCursor.TryDecodeRecord(body);
    if !ok {
      return;
    }
    var valid := RegisterName.IsValidRegisterName(record.name);
    if !valid {
      return;
    }
    if transport % 2 == 1 {
      effects := RelayWriteAndBroadcast(store, record, now);
    } else {
      var _ := store.ApplyRemote(record, now);
    }
  }

  /** The RSYN branch. */
  method HandleRsyn(store: RegisterStore, body: Bytes, now: u64) returns (effects: Effects)
    modifies store`records
    ensures store.Limits() == old(store.Limits())
    ensures (store.Abstract(), effects) == RsynStep(store.Limits(), old(store.Abstract()), body, now)
  {
    effects := NOTHING;
    var ok, theirDigest := WireCursor.TryDecodeDigest(body);
    if !ok {
      return;
    }
    ghost var cfg, before := store.Limits(), store.Abstract();
    var toPush := store.RecordsToPush(theirDigest, now);
    PushIsPushed(cfg, before, theirDigest, now);
    var bodies := WireCursor.EncodeRecordBodies(toPush);
    effects := effects.(replies := RegwFrames(bodies) + [Frame("REOS", [])]);
  }

  /** The frame handler, for the frames modelled here. */
  method HandleRegisterFrame(store: RegisterStore, frame: Frame, now: u64) returns (effects: Effects)
    modifies store`records, store`notifications, store.clock
    ensures store.Limits() == old(store.Limits())
    ensures (store.Abstract(), effects) == FrameStep(store.Limits(), old(store.Abstract()), frame, now)
  {
    effects := NOTHING;
    if frame.tag == "REGW" {
      effects := HandleRegw(store, frame.body, now);
    } else if frame.tag == "RSYN" {
      effects := HandleRsyn(store, frame.body, now);
    }
  }

  lemma PushIsPushed(cfg: Config, st: State, digest: seq<DigestEntry>, now: u64)
    ensures Step(cfg, st, RecordsToPush(digest), now) == (Snapshot(cfg, st, now), Listed(Pushed(cfg, st, digest, now)))
  {}

  /** The digest a store sends, as its peer receives it. */
  ghost function SentDigest(cfg: Config, st: State, now: u64): seq<DigestEntry> {
    var m := Prune(st.records, now, cfg.ttlMs);
    W.Cut(Entries(Select(m, m.Keys - {MIRROR})))
  }

  lemma EntriesInCap(q: seq<Record>)
    requires forall r | r in q :: Travels(r)
    ensures forall e | e in W.Cut(Entries(q)) :: W.EntryInCap(e)
  {
    var d := W.Cut(Entries(q));
    forall e | e in d ensures W.EntryInCap(e) {
      var i :| 0 <= i < |d| && d[i] == e;
      assert q[i] in q;
    }
  }

  lemma SentDigestArrives(cfg: Config, st: State, now: u64)
    requires CanTravel(st.records)
    ensures var m := Prune(st.records, now, cfg.ttlMs);
      W.ParseDigest(W.EncodeDigest(Entries(Select(m, m.Keys - {MIRROR})))) == Some(SentDigest(cfg, st, now))
  {
    var m := Prune(st.records, now, cfg.ttlMs);
    var q := Select(m, m.Keys - {MIRROR});
    SelectFacts(m, m.Keys - {MIRROR});
    EntriesInCap(q);
    W.DigestRoundTrip(Entries(q));
  }

  lemma SentDigestIsCut(cfg: Config, st: State, now: u64)
    requires Keyed(st.records)
    ensures CutOfDigest(cfg, st, SentDigest(cfg, st, now), now)
  {
    var m := Prune(st.records, now, cfg.ttlMs);
    var d := SentDigest(cfg, st, now);
    assert Entries(Select(m, m.Keys - {MIRROR}))[..|d|] == d;
    PrefixIsCut(cfg, st, now, |d|);
  }

  lemma PushedTravel(cfg: Config, st: State, digest: seq<DigestEntry>, now: u64)
    requires CanTravel(st.records)
    ensures forall r | r in Pushed(cfg, st, digest, now) :: Travels(r)
  {
    var m := Prune(st.records, now, cfg.ttlMs);
    SelectFacts(m, PushNames(m, digest));
  }

  lemma FrameArrives(cfg: Config, st: State, r: Record, now: u64)
    requires Travels(r)
    ensures FrameStep(cfg, st, Frame("REGW", W.EncodeRecord(r, 0)), now) == (ApplyRemoteStep(cfg, st, r, now).0, NOTHING)
  {
    W.RecordRoundTrip(r, 0, 0);
  }

  lemma ApplyAllStep(cfg: Config, st: State, pushed: seq<Record>, i: nat, now: u64)
    requires i < |pushed|
    ensures ApplyAll(cfg, st, pushed[..i + 1], now)
         == ApplyRemoteStep(cfg, ApplyAll(cfg, st, pushed[..i], now), pushed[i], now).0
  {
    assert pushed[..i + 1][..i] == pushed[..i];
  }

  lemma TravelAfterUpdate(m: Records, r: Record)
    requires CanTravel(m) && Travels(r)
    ensures CanTravel(m[r.name := r])
  {}

  lemma TravelAfterApply(cfg: Config, st: State, r: Record, now: u64)
    requires CanTravel(st.records) && Travels(r)
    ensures CanTravel(ApplyRemoteStep(cfg, st, r, now).0.records)
  {
    TravelAfterUpdate(st.records, r);
    if r.name in st.records && r.name != MIRROR {
      TravelAfterUpdate(st.records, Merge(st.records[r.name], r));
    }
  }

  lemma {:induction false} TravelAfterAll(cfg: Config, st: State, pushed: seq<Record>, now: u64)
    requires CanTravel(st.records) && forall r | r in pushed :: Travels(r)
    ensures CanTravel(ApplyAll(cfg, st, pushed, now).records)
  {
    if pushed != [] {
      TravelAfterAll(cfg, st, pushed[..|pushed| - 1], now);
      TravelAfterApply(cfg, ApplyAll(cfg, st, pushed[..|pushed| - 1], now), pushed[|pushed| - 1], now);
    }
  }

  /** `frames` carry the records `q`. */
  ghost predicate Carry(frames: seq<Frame>, q: seq<Record>) {
    frames == RegwFrames(W.EncodeAll(q)) && forall r | r in q :: Travels(r)
  }

  lemma CarryAt(frames: seq<Frame>, q: seq<Record>, i: nat)
    requires Carry(frames, q) && i < |q|
    ensures |frames| == |q| && frames[i] == Frame("REGW", W.EncodeRecord(q[i], 0)) && Travels(q[i])
  {
    W.EncodeAllAt(q, i);
    assert q[i] in q;
  }

  /** One frame that carries a record: the record is merged in, and nothing is sent. */
  method HandleOne(a: RegisterStore, frame: Frame, ghost r: Record, now: u64)
    requires frame == Frame("REGW", W.EncodeRecord(r, 0)) && Travels(r)
    modifies a`records, a`notifications, a.clock
    ensures a.Limits() == old(a.Limits())
    ensures a.Abstract() == ApplyRemoteStep(a.Limits(), old(a.Abstract()), r, now).0
  {
    FrameArrives(a.Limits(), a.Abstract(), r, now);
    var _ := HandleRegisterFrame(a, frame, now);
  }

  /** Some of the frames that carry `q`, in order. */
  method HandleSome(a: RegisterStore, frames: seq<Frame>, ghost q: seq<Record>, from: nat, to: nat, now: u64)
    requires Carry(frames, q) && from <= to <= |frames|
    modifies a`records, a`notifications, a.clock
    ensures a.Limits() == old(a.Limits())
    ensures a.Abstract() == ApplyAll(a.Limits(), old(a.Abstract()), q[from..to], now)
  {
    ghost var cfg, a0, p := a.Limits(), a.Abstract(), q[from..to];
    for i := from to to
      invariant a.Limits() == cfg && a.Abstract() == ApplyAll(cfg, a0, p[..i - from], now)
    {
      CarryAt(frames, q, i);
      ApplyAllStep(cfg, a0, p, i - from, now);
      HandleOne(a, frames[i], p[i - from], now);
    }
    assert p[..to - from] == p;
  }

  lemma TravelAfterPrune(cfg: Config, st: State, now: u64)
    requires CanTravel(st.records)
    ensures CanTravel(Snapshot(cfg, st, now).records)
  {}

  lemma DigestIs(cfg: Config, st: State, now: u64)
    ensures var m := Prune(st.records, now, cfg.ttlMs);
      Step(cfg, st, Digest, now) == (Snapshot(cfg, st, now), Digested(Entries(Select(m, m.Keys - {MIRROR}))))
  {}

  method SendDigest(a: RegisterStore, now: u64) returns (rsyn: Bytes)
    requires CanTravel(a.records)
    modifies a`records
    ensures a.Limits() == old(a.Limits()) && a.Abstract() == Snapshot(a.Limits(), old(a.Abstract()), now)
    ensures W.ParseDigest(rsyn) == Some(SentDigest(a.Limits(), old(a.Abstract()), now))
  {
    ghost var cfg, a0 := a.Limits(), a.Abstract();
    var entries := a.Digest(now);
    DigestIs(cfg, a0, now);
    rsyn := WireCursor.EncodeDigestBody(entries);
    SentDigestArrives(cfg, a0, now);
  }

  /** The answer to a store's own digest: frames that carry what is pushed, then REOS. */
  method Answer(b: RegisterStore, rsyn: Bytes, ghost digest: seq<DigestEntry>, now: u64) returns (frames: seq<Frame>)
    requires CanTravel(b.records) && W.ParseDigest(rsyn) == Some(digest)
    modifies b`records, b`notifications, b.clock
    ensures b.Limits() == old(b.Limits()) && b.Abstract() == Snapshot(b.Limits(), old(b.Abstract()), now)
    ensures Carry(frames, Pushed(b.Limits(), old(b.Abstract()), digest, now)) && CanTravel(b.records)
  {
    ghost var cfg, b0 := b.Limits(), b.Abstract();
    PushedTravel(cfg, b0, digest, now);
    TravelAfterPrune(cfg, b0, now);
    var effects := HandleRegisterFrame(b, Frame("RSYN", rsyn), now);
    ghost var carried := RegwFrames(W.EncodeAll(Pushed(cfg, b0, digest, now)));
    assert effects.replies == carried + [Frame("REOS", [])];
    frames := effects.replies[..|effects.replies| - 1];
    assert frames == carried;
  }

  /** `a` asks `b`: RSYN out, REGW frames back, each applied. */
  method SyncFrom(a: RegisterStore, b: RegisterStore, now: u64)
    requires a != b && a.clock != b.clock && a.Limits() == b.Limits()
    requires CanTravel(a.records) && CanTravel(b.records)
    modifies a`records, a`notifications, a.clock, b`records, b`notifications, b.clock
    ensures a.Limits() == b.Limits() == old(a.Limits())
    ensures a.Abstract() == Pull(a.Limits(), old(a.Abstract()), old(b.Abstract()),
                                 SentDigest(a.Limits(), old(a.Abstract()), now), now)
    ensures b.Abstract() == Snapshot(b.Limits(), old(b.Abstract()), now)
    ensures CanTravel(a.records) && CanTravel(b.records)
  {
    ghost var cfg, a0, b0 := a.Limits(), a.Abstract(), b.Abstract();
    ghost var digest := SentDigest(cfg, a0, now);
    ghost var pushed := Pushed(cfg, b0, digest, now);
    var rsyn := SendDigest(a, now);
    var frames := Answer(b, rsyn, digest, now);
    TravelAfterPrune(cfg, a0, now);
    TravelAfterAll(cfg, Snapshot(cfg, a0, now), pushed, now);
    HandleSome(a, frames, pushed, 0, |frames|, now);
    assert pushed[0..|frames|] == pushed;
  }

  lemma SnapshotAgain(cfg: Config, st: State, other: State, digest: seq<DigestEntry>, now: u64)
    ensures Pull(cfg, Snapshot(cfg, st, now), other, digest, now) == Pull(cfg, st, other, digest, now)
    ensures Pull(cfg, other, Snapshot(cfg, st, now), digest, now) == Pull(cfg, other, st, digest, now)
    ensures SentDigest(cfg, Snapshot(cfg, st, now), now) == SentDigest(cfg, st, now)
  {
    assert Prune(Prune(st.records, now, cfg.ttlMs), now, cfg.ttlMs) == Prune(st.records, now, cfg.ttlMs);
  }

  /**
   The whole anti-entropy session over bytes: two stores of any size, with digests cut at 1024
   entries, end up agreeing on the join of their unexpired records if and only if the digests hide
   no tie.
   */
  method SyncBothWays(a: RegisterStore, b: RegisterStore, now: u64)
    requires a != b && a.clock != b.clock && a.Limits() == b.Limits()
    requires CanTravel(a.records) && CanTravel(b.records)
    modifies a, a.clock, b, b.clock
    ensures var cfg, a0, b0 := old(a.Limits()), old(a.Abstract()), old(b.Abstract());
      var d1, d2 := SentDigest(cfg, a0, now), SentDigest(cfg, b0, now);
      var d3 := SentDigest(cfg, Pull(cfg, a0, b0, d1, now), now);
      && (Agree(a.Abstract(), b.Abstract()) <==>
            forall n | n != MIRROR :: !TieHiddenAt(cfg, a0, b0, now, n, Lists(d1, n) && Lists(d3, n), Lists(d2, n)))
      && (Agree(a.Abstract(), b.Abstract()) ==> IsPointwiseJoin(cfg, a0.records, b0.records, now, a.records))
  {
    ghost var cfg, a0, b0 := a.Limits(), a.Abstract(), b.Abstract();
    ghost var d1 := SentDigest(cfg, a0, now);
    SentDigestIsCut(cfg, a0, now);
    SyncFrom(a, b, now);
    ghost var a1 := a.Abstract();
    SnapshotAgain(cfg, b0, a1, SentDigest(cfg, b0, now), now);
    SentDigestIsCut(cfg, b0, now);
    SyncFrom(b, a, now);
    ghost var b1 := b.Abstract();
    SnapshotAgain(cfg, a1, b1, SentDigest(cfg, a1, now), now);
    SentDigestIsCut(cfg, a1, now);
    SyncFrom(a, b, now);
    ThreeHalfExchangesConverge(cfg, a0, b0, now, d1, SentDigest(cfg, b0, now), SentDigest(cfg, a1, now));
    forall n | n != MIRROR ensures Get(b.records, n) == Get(b1.records, n) {
      PullAt(cfg, b0, a1, SentDigest(cfg, b0, now), now, n);
      SnapshotGet(cfg, b1.records, now, n);
    }
  }

  // ---- Connecting ----

  lemma {:induction false} ApplyAllOn(cfg: Config, st: State, p: seq<Record>, q: seq<Record>, now: u64)
    ensures ApplyAll(cfg, ApplyAll(cfg, st, p, now), q, now) == ApplyAll(cfg, st, p + q, now)
  {
    if q == [] {
      assert p + q == p;
    } else {
      ApplyAllOn(cfg, st, p, q[..|q| - 1], now);
      assert (p + q)[..|p + q| - 1] == p + q[..|q| - 1];
    }
  }

  lemma ApplyRest(cfg: Config, st: State, q: seq<Record>, i: nat, now: u64)
    requires i <= |q|
    ensures ApplyAll(cfg, ApplyAll(cfg, st, q[..i], now), q[i..|q|], now) == ApplyAll(cfg, st, q, now)
  {
    ApplyAllOn(cfg, st, q[..i], q[i..|q|], now);
    assert q[..i] + q[i..|q|] == q;
  }

  lemma PruneUnexpired(cfg: Config, st: State, now: u64)
    requires Unexpired(cfg, st.records, now)
    ensures Snapshot(cfg, st, now) == st
  {}

  lemma ConnectMid(cfg: Config, a: State, b: State, digest: seq<DigestEntry>, i: nat, now: u64)
    requires CanTravel(a.records) && CanTravel(b.records)
    requires CutOfDigest(cfg, a, digest, now) && i <= |Pushed(cfg, b, digest, now)|
    ensures var mid := Midway(cfg, a, b, digest, i, now);
      CanTravel(mid.records) && Snapshot(cfg, mid, now) == mid
  {
    MidwayAt(cfg, a, b, digest, i, now, [97]);
    PruneUnexpired(cfg, Midway(cfg, a, b, digest, i, now), now);
    PushedTravel(cfg, b, digest, now);
    TravelAfterPrune(cfg, a, now);
    TravelAfterAll(cfg, Snapshot(cfg, a, now), Pushed(cfg, b, digest, now)[..i], now);
  }

  /** How many records are merged when `early` frames have come in. */
  function Merged(early: nat, all: nat): (i: nat)
    ensures i <= all
  {
    if early < all then early else all
  }

  /** A's side of the answers: the first of B's frames, its own answer, the rest of B's. */
  method AnswerMidway(a: RegisterStore, framesB: seq<Frame>, rsynB: Bytes, early: nat, now: u64,
                      ghost a0: State, ghost b0: State, ghost d1: seq<DigestEntry>, ghost d2: seq<DigestEntry>)
    returns (framesA: seq<Frame>)
    requires CanTravel(a0.records) && CanTravel(b0.records)
    requires a.Abstract() == Snapshot(a.Limits(), a0, now) && CutOfDigest(a.Limits(), a0, d1, now)
    requires Carry(framesB, Pushed(a.Limits(), b0, d1, now)) && W.ParseDigest(rsynB) == Some(d2)
    modifies a`records, a`notifications, a.clock
    ensures a.Limits() == old(a.Limits()) && a.Abstract() == Pull(a.Limits(), a0, b0, d1, now)
    ensures var mid := Midway(a.Limits(), a0, b0, d1, Merged(early, |framesB|), now);
      Carry(framesA, Pushed(a.Limits(), mid, d2, now))
  {
    ghost var cfg := a.Limits();
    ghost var q := Pushed(cfg, b0, d1, now);
    var met := Merged(early, |framesB|);
    HandleSome(a, framesB, q, 0, met, now);
    assert q[0..met] == q[..met];
    ConnectMid(cfg, a0, b0, d1, met, now);
    framesA := Answer(a, rsynB, d2, now);
    ApplyRest(cfg, Snapshot(cfg, a0, now), q, met, now);
    HandleSome(a, framesB, q, met, |framesB|, now);
  }

  /**
   Two stores connect: each sends its digest at once. `b` answers first; `a` answers when it has
   merged `early` frames of that, then merges the others, and `b` merges `a`'s.
   */
  method Exchange(a: RegisterStore, b: RegisterStore, early: nat, now: u64)
    requires a != b && a.clock != b.clock && a.Limits() == b.Limits()
    requires CanTravel(a.records) && CanTravel(b.records)
    modifies a`records, a`notifications, a.clock, b`records, b`notifications, b.clock
    ensures var cfg, a0, b0 := old(a.Limits()), old(a.Abstract()), old(b.Abstract());
      var d1, d2 := SentDigest(cfg, a0, now), SentDigest(cfg, b0, now);
      var i := Merged(early, |Pushed(cfg, b0, d1, now)|);
      && a.Abstract() == Pull(cfg, a0, b0, d1, now)
      && b.Abstract() == Pull(cfg, b0, Midway(cfg, a0, b0, d1, i, now), d2, now)
  {
    ghost var cfg, a0, b0 := a.Limits(), a.Abstract(), b.Abstract();
    ghost var d1, d2 := SentDigest(cfg, a0, now), SentDigest(cfg, b0, now);
    SentDigestIsCut(cfg, a0, now);
    var rsynA := SendDigest(a, now);
    var rsynB := SendDigest(b, now);
    PushedAgain(cfg, b0, d1, now);
    TravelAfterPrune(cfg, b0, now);
    var framesB := Answer(b, rsynA, d1, now);
    var framesA := AnswerMidway(a, framesB, rsynB, early, now, a0, b0, d1, d2);
    ghost var p := Pushed(cfg, Midway(cfg, a0, b0, d1, Merged(early, |framesB|), now), d2, now);
    HandleSome(b, framesA, p, 0, |framesA|, now);
    assert p[0..|framesA|] == p;
  }

  lemma PushedAgain(cfg: Config, st: State, digest: seq<DigestEntry>, now: u64)
    ensures Pushed(cfg, Snapshot(cfg, st, now), digest, now) == Pushed(cfg, st, digest, now)
    ensures Snapshot(cfg, Snapshot(cfg, st, now), now) == Snapshot(cfg, st, now)
  {
    assert Prune(Prune(st.records, now, cfg.ttlMs), now, cfg.ttlMs) == Prune(st.records, now, cfg.ttlMs);
  }

  /**
   Both then hold the joined values if and only if the digests hid no tie, and agree if and only if
   besides no fresher touch was left on an older write.
   */
  method Connect(a: RegisterStore, b: RegisterStore, early: nat, now: u64)
    requires a != b && a.clock != b.clock && a.Limits() == b.Limits()
    requires CanTravel(a.records) && CanTravel(b.records)
    modifies a`records, a`notifications, a.clock, b`records, b`notifications, b.clock
    ensures var cfg, a0, b0 := old(a.Limits()), old(a.Abstract()), old(b.Abstract());
      var d1, d2 := SentDigest(cfg, a0, now), SentDigest(cfg, b0, now);
      var i := Merged(early, |Pushed(cfg, b0, d1, now)|);
      && (Agree(a.Abstract(), b.Abstract()) <==> forall n | n != MIRROR :: !LeftDifferent(cfg, a0, b0, d1, d2, i, now, n))
      && (HaveJoinedValues(cfg, a0, b0, now, a.Abstract()) && HaveJoinedValues(cfg, a0, b0, now, b.Abstract()) <==>
            forall n | n != MIRROR :: !TieHiddenAt(cfg, a0, b0, now, n, Lists(d1, n), Lists(d2, n)))
  {
    ghost var cfg, a0, b0 := a.Limits(), a.Abstract(), b.Abstract();
    ghost var d1, d2 := SentDigest(cfg, a0, now), SentDigest(cfg, b0, now);
    SentDigestIsCut(cfg, a0, now);
    SentDigestIsCut(cfg, b0, now);
    ConnectExact(cfg, a0, b0, now, d1, d2, Merged(early, |Pushed(cfg, b0, d1, now)|));
    Exchange(a, b, early, now);
  }

  // ---- Every record of a running store can travel ----

  /** What reaches a store: a call made on this device, or any bytes from a peer. */
  datatype Input = Here(op: Op, now: u64) | Arrives(frame: Frame, now: u64)

  /** Calls made here merge nothing in; the caps of the store and of the frames agree. */
  ghost predicate InputOk(cfg: Config, input: Input) {
    cfg.maxValueBytes <= W.MAX_VALUE_LEN && (input.Here? ==> !input.op.ApplyRemote?)
  }

  ghost function Take(cfg: Config, st: State, input: Input): State {
    match input
    case Here(op, now) => Step(cfg, st, op, now).0
    case Arrives(frame, now) => FrameStep(cfg, st, frame, now).0
  }

  /** A write leaves the records alone, prunes them, or adds one of valid name and allowed size. */
  lemma UpsertRecords(cfg: Config, st: State, name: Bytes, value: Bytes, flags: byte, origin: HostId, now: u64)
    returns (r: Record)
    ensures var m, m' := st.records, UpsertStep(cfg, st, name, value, flags, origin, now).0.records;
      || m' == m || m' == Prune(m, now, cfg.ttlMs)
      || (m' == Prune(m, now, cfg.ttlMs)[r.name := r] && RegisterName.IsValid(r.name) && |r.value| <= cfg.maxValueBytes)
  {
    var ts := Tick(st.last, now);
    r := Record(name, value, ts, ts, origin, flags - flags % 2);
  }

  lemma UpsertTravels(cfg: Config, st: State, name: Bytes, value: Bytes, flags: byte, origin: HostId, now: u64)
    requires CanTravel(st.records) && cfg.maxValueBytes <= W.MAX_VALUE_LEN
    ensures CanTravel(UpsertStep(cfg, st, name, value, flags, origin, now).0.records)
  {
    TravelAfterPrune(cfg, st, now);
    var r := UpsertRecords(cfg, st, name, value, flags, origin, now);
    if RegisterName.IsValid(r.name) && |r.value| <= cfg.maxValueBytes {
      TravelAfterUpdate(Prune(st.records, now, cfg.ttlMs), r);
    }
  }

  lemma RelayTravels(cfg: Config, st: State, r: Record, now: u64)
    requires CanTravel(st.records) && cfg.maxValueBytes <= W.MAX_VALUE_LEN
    ensures CanTravel(RelayAndBroadcast(cfg, st, r, now).0.records)
  {
    UpsertTravels(cfg, st, r.name, r.value, r.flags, r.origin, now);
  }

  lemma HereTravels(cfg: Config, st: State, op: Op, now: u64)
    requires CanTravel(st.records) && cfg.maxValueBytes <= W.MAX_VALUE_LEN && !op.ApplyRemote?
    ensures CanTravel(Step(cfg, st, op, now).0.records)
  {
    TravelAfterPrune(cfg, st, now);
    match op
    case Upsert(name, value, flags, origin) => UpsertTravels(cfg, st, name, value, flags, origin, now);
    case _ =>
  }

  lemma RegwTravels(cfg: Config, st: State, body: Bytes, now: u64)
    requires CanTravel(st.records) && cfg.maxValueBytes <= W.MAX_VALUE_LEN
    ensures CanTravel(RegwStep(cfg, st, body, now).0.records)
  {
    if W.ParseRecord(body).Some? && RegisterName.IsValid(W.ParseRecord(body).value.0.name) {
      var (r, transport, _) := W.ParseRecord(body).value;
      if transport % 2 == 1 {
        RelayTravels(cfg, st, r, now);
      } else {
        W.RecordExact(body);
        TravelAfterApply(cfg, st, r, now);
      }
    }
  }

  lemma TravelInCap(m: Records)
    requires CanTravel(m)
    ensures P.InCap(m)
  {
    forall n | n in m && n != MIRROR ensures W.RecordInCap(m[n]) {
      assert Travels(m[n]);
      RegisterName.ValidExact(m[n].name);
    }
  }

  /** Loading a file that such a store saved, at any time, keeps a store such. */
  lemma LoadTravels(a: P.Seal.Aead, cfg: Config, saved: State, s: u64, st: State, now: u64,
                    key: P.Seal.SealKey, nonce: P.Seal.Nonce)
    requires P.Seal.Ideal(a) && CanTravel(saved.records) && CanTravel(st.records)
    ensures CanTravel(P.LoadedInto(a, cfg, st, Some(P.SavedFile(a, cfg, saved, key, nonce, s)), key, now).records)
  {
    var q := P.SnapshotList(cfg, saved, s);
    TravelInCap(saved.records);
    P.SavedFileOpens(a, cfg, saved, key, nonce, s);
    P.SnapshotFacts(cfg, saved, s);
    forall r | r in q ensures Travels(r) {
      assert Travels(saved.records[r.name]);
    }
    TravelAfterAll(cfg, st, q, now);
  }

  /**
   Whatever calls are made and whatever bytes arrive, a store that starts with records that can
   travel, or with none, holds only such records.
   */
  lemma {:induction false} RunTravels(cfg: Config, inputs: seq<Input>, trace: seq<State>, k: nat)
    requires |trace| == |inputs| + 1 && k <= |inputs| && CanTravel(trace[0].records)
    requires forall i | 0 <= i < |inputs| :: InputOk(cfg, inputs[i]) && trace[i + 1] == Take(cfg, trace[i], inputs[i])
    ensures CanTravel(trace[k].records)
  {
    if k > 0 {
      RunTravels(cfg, inputs, trace, k - 1);
      var st, input := trace[k - 1], inputs[k - 1];
      assert InputOk(cfg, input) && trace[k] == Take(cfg, st, input);
      match input
      case Here(op, now) => HereTravels(cfg, st, op, now);
      case Arrives(frame, now) =>
        RegwTravels(cfg, st, frame.body, now);
        TravelAfterPrune(cfg, st, now);
    }
  }
}
