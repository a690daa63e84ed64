/** The register snapshot on disk, saved and merged back in. */
module RegisterPersistence {
  import opened Machine
  import opened HybridClock
  import opened RegisterMerge
  import opened RegisterState
  import opened RegisterStore
  import opened AntiEntropy
  import ByteOrder
  import Seal = SealedSnapshot
  import W = RegisterWire
  import WireCursor

  // What src/RegisterPersistence.cpp seals and opens, and what `SaveNow` and `LoadIntoStore` of
  // src/RegisterPersistenceRuntime.cpp do with it. A save is one atomic replacement of the file's
  // contents.

  const MAGIC: Seal.Magic := [67, 76, 80, 82]  // "CLPR"
  const VERSION: byte := 1

  // ---- Encoding and decoding the records ----

  /** A record a register store holds: names are capped on every way in, values by configuration. */
  ghost predicate Sealable(r: Record) {
    |r.name| <= W.MAX_NAME_LEN && |r.value| <= 0xFFFF_0000
  }

  /** Undecodable and mirror-named bodies are skipped. */
  function DecodeOne(body: Bytes): seq<Record> {
    match W.ParseRecord(body)
    case None => []
    case Some((record, _, _)) => if record.name == [] then [] else [record]
  }

  function Decoded(raw: seq<Bytes>): seq<Record> {
    if raw == [] then [] else Decoded(raw[..|raw| - 1]) + DecodeOne(raw[|raw| - 1])
  }

  /** The records that survive sealing and opening. */
  ghost function KeepOne(r: Record): seq<Record> {
    if |r.value| > W.MAX_VALUE_LEN || r.name == MIRROR then [] else [r]
  }

  ghost function Kept(q: seq<Record>): seq<Record> {
    if q == [] then [] else Kept(q[..|q| - 1]) + KeepOne(q[|q| - 1])
  }

  lemma DecodeOneEncoded(r: Record)
    requires Sealable(r)
    ensures DecodeOne(W.EncodeRecord(r, 0)) == KeepOne(r)
  {
    W.ReadBackIffInCap(r, 0);
  }

  lemma DecodedAppend(raw: seq<Bytes>, body: Bytes)
    ensures Decoded(raw + [body]) == Decoded(raw) + DecodeOne(body)
  {}

  lemma {:induction false} DecodedEncoded(q: seq<Record>)
    requires forall r | r in q :: Sealable(r)
    ensures Decoded(W.EncodeAll(q)) == Kept(q)
  {
    if q != [] {
      var init, last := q[..|q| - 1], q[|q| - 1];
      DecodedEncoded(init);
      DecodedAppend(W.EncodeAll(init), W.EncodeRecord(last, 0));
      DecodeOneEncoded(last);
    }
  }

  lemma {:induction false} KeptAll(q: seq<Record>)
    requires forall i | 0 <= i < |q| :: |q[i].value| <= W.MAX_VALUE_LEN && q[i].name != MIRROR
    ensures Kept(q) == q
  {
    if q != [] {
      var init, last := q[..|q| - 1], q[|q| - 1];
      KeptAll(init);
      assert KeepOne(last) == [last];
      assert q == init + [last];
    }
  }

  lemma EncodedFits(r: Record)
    requires Sealable(r)
    ensures W.EncodeRecord(r, 0) != [] && Seal.Fits(W.EncodeRecord(r, 0))
  {}

  lemma NonEmptyAppend(q: seq<Bytes>, s: Bytes)
    requires s != []
    ensures Seal.NonEmpty(q + [s]) == Seal.NonEmpty(q) + [s]
  {}

  /** No encoded record is empty, so the container drops none. */
  lemma {:induction false} EncodedNonEmpty(q: seq<Record>)
    requires forall r | r in q :: Sealable(r)
    ensures Seal.NonEmpty(W.EncodeAll(q)) == W.EncodeAll(q)
  {
    if q != [] {
      EncodedNonEmpty(q[..|q| - 1]);
      EncodedFits(q[|q| - 1]);
      NonEmptyAppend(W.EncodeAll(q[..|q| - 1]), W.EncodeRecord(q[|q| - 1], 0));
    }
  }

  lemma AllEncodedFit(q: seq<Record>)
    requires forall r | r in q :: Sealable(r)
    ensures forall s | s in W.EncodeAll(q) :: Seal.Fits(s)
  {
    forall i | 0 <= i < |q| ensures Seal.Fits(W.EncodeAll(q)[i]) {
      W.EncodeAllAt(q, i);
      EncodedFits(q[i]);
    }
  }

  // ---- The snapshot blob ----

  function SealedRecords(a: Seal.Aead, q: seq<Record>, nonce: Seal.Nonce, key: Seal.SealKey): Bytes {
    Seal.SealedBlob(a, MAGIC, VERSION, W.EncodeAll(q), nonce, key)
  }

  function OpenedRecords(a: Seal.Aead, blob: Bytes, key: Seal.SealKey): Option<seq<Record>> {
    match Seal.Opened(a, MAGIC, VERSION, blob, key)
    case None => None
    case Some(raw) => Some(Decoded(raw))
  }

  /**
   Opening a snapshot returns its records except those over the value cap, if and only if it
   holds at most 65535; a larger one is sealed without complaint and never opens again.
   */
  lemma OpenedSealed(a: Seal.Aead, q: seq<Record>, nonce: Seal.Nonce, key: Seal.SealKey)
    requires Seal.Ideal(a) && forall r | r in q :: Sealable(r)
    ensures OpenedRecords(a, SealedRecords(a, q, nonce, key), key)
         == if |q| <= Seal.MAX_RECORDS then Some(Kept(q)) else None
  {
    EncodedNonEmpty(q);
    AllEncodedFit(q);
    Seal.OpenUndoesSeal(a, MAGIC, VERSION, W.EncodeAll(q), nonce, key);
    DecodedEncoded(q);
  }

  method DecodeRecords(raw: seq<Bytes>) returns (records: seq<Record>)
    ensures records == Decoded(raw)
  {
    records := [];
    for i := 0 to |raw|
      invariant records == Decoded(raw[..i])
    {
      assert raw[..i + 1][..i] == raw[..i];
      var ok, record, transportFlags := WireCursor.TryDecodeRecord(raw[i]);
      if !ok || record.name == [] {
        continue;
      }
      records := records + [record];
    }
    assert raw[..|raw|] == raw;
  }

  method SealSnapshot(a: Seal.Aead, records: seq<Record>, key: Seal.SealKey, nonce: Seal.Nonce) returns (blob: Bytes)
    ensures blob == SealedRecords(a, records, nonce, key)
  {
    var encoded := WireCursor.EncodeRecordBodies(records);
    blob := Seal.Seal(a, MAGIC, VERSION, encoded, key, nonce);
  }

  method TryOpenSnapshot(a: Seal.Aead, blob: Bytes, key: Seal.SealKey) returns (records: Option<seq<Record>>)
    ensures records == OpenedRecords(a, blob, key)
  {
    var raw := Seal.TryOpen(a, MAGIC, VERSION, blob, key);
    if raw.None? {
      return None;
    }
    var q := DecodeRecords(raw.value);
    return Some(q);
  }

  // ---- Saving and loading a store ----

  datatype LoadResult = Loaded | NoFile | Corrupt

  /** What a save of `st` at `now` leaves in the file. */
  ghost function SavedFile(a: Seal.Aead, cfg: Config, st: State, key: Seal.SealKey, nonce: Seal.Nonce, now: u64): Bytes {
    SealedRecords(a, SnapshotList(cfg, st, now), nonce, key)
  }

  /** The records a snapshot is made of. */
  ghost function SnapshotList(cfg: Config, st: State, now: u64): seq<Record> {
    var m := Prune(st.records, now, cfg.ttlMs);
    Select(m, m.Keys - {MIRROR})
  }

  /** A store after the file has been merged into it. */
  ghost function LoadedInto(a: Seal.Aead, cfg: Config, st: State, file: Option<Bytes>, key: Seal.SealKey, now: u64): State {
    if file.None? || OpenedRecords(a, file.value, key).None? then st
    else ApplyAll(cfg, st, OpenedRecords(a, file.value, key).value, now)
  }

  method SaveNow(a: Seal.Aead, store: RegisterStore, key: Seal.SealKey, nonce: Seal.Nonce, now: u64) returns (file: Bytes)
    modifies store`records
    ensures store.Limits() == old(store.Limits()) && store.Abstract() == Snapshot(store.Limits(), old(store.Abstract()), now)
    ensures file == SavedFile(a, store.Limits(), old(store.Abstract()), key, nonce, now)
  {
    var records := store.SnapshotForSync(now);
    file := SealSnapshot(a, records, key, nonce);
  }

  method ApplyRecords(store: RegisterStore, records: seq<Record>, now: u64)
    modifies store`records, store`notifications, store.clock
    ensures store.Limits() == old(store.Limits())
    ensures store.Abstract() == ApplyAll(store.Limits(), old(store.Abstract()), records, now)
  {
    ghost var cfg, st := store.Limits(), store.Abstract();
    for i := 0 to |records|
      invariant store.Limits() == cfg && store.Abstract() == ApplyAll(cfg, st, records[..i], now)
    {
      assert records[..i + 1][..i] == records[..i];
      var _ := store.ApplyRemote(records[i], now);
    }
    assert records[..|records|] == records;
  }

  /** A file that does not open is moved aside and the store starts as it was. */
  method LoadIntoStore(a: Seal.Aead, store: RegisterStore, file: Option<Bytes>, key: Seal.SealKey, now: u64)
    returns (result: LoadResult, fileAfter: Option<Bytes>)
    modifies store`records, store`notifications, store.clock
    ensures store.Limits() == old(store.Limits())
    ensures store.Abstract() == LoadedInto(a, store.Limits(), old(store.Abstract()), file, key, now)
    ensures result == NoFile <==> file.None?
    ensures fileAfter == if result == Corrupt then None else file
    ensures result == Loaded <==> file.Some? && OpenedRecords(a, file.value, key).Some?
  {
    if file.None? {
      return NoFile, None;
    }
    var records := TryOpenSnapshot(a, file.value, key);
    if records.None? {
      return Corrupt, None;
    }
    ApplyRecords(store, records.value, now);
    return Loaded, file;
  }

  // ---- What loading does ----

  /** A record as a reader at `now` sees it. */
  function Alive(cfg: Config, r: Option<Record>, now: u64): Option<Record> {
    if r.Some? && IsExpired(r.value, now, cfg.ttlMs) then None else r
  }

  lemma ApplyOneAt(cfg: Config, st: State, r: Record, now: u64, n: Bytes)
    requires r.name != MIRROR
    ensures var after := ApplyRemoteStep(cfg, st, r, now).0;
      Get(Prune(after.records, now, cfg.ttlMs), n)
      == if n == r.name then JoinOption(Get(Prune(st.records, now, cfg.ttlMs), n), Alive(cfg, Some(r), now))
         else Get(Prune(st.records, now, cfg.ttlMs), n)
  {}

  lemma {:induction false} ApplyListAt(cfg: Config, st: State, q: seq<Record>, now: u64, n: Bytes)
    requires DistinctNames(q) && forall r | r in q :: r.name != MIRROR
    ensures Get(Prune(ApplyAll(cfg, st, q, now).records, now, cfg.ttlMs), n)
         == JoinOption(Get(Prune(st.records, now, cfg.ttlMs), n), Alive(cfg, PushedFor(q, n), now))
  {
    if q != [] {
      var init, r := q[..|q| - 1], q[|q| - 1];
      assert q == init + [r];
      ApplyListAt(cfg, st, init, now, n);
      NotPushedTwice(init, r);
      ApplyOneAt(cfg, ApplyAll(cfg, st, init, now), r, now, n);
    }
  }

  lemma SnapshotFacts(cfg: Config, st: State, now: u64)
    requires Keyed(st.records)
    ensures DistinctNames(SnapshotList(cfg, st, now))
    ensures forall r | r in SnapshotList(cfg, st, now) :: r.name != MIRROR && r.name in st.records && st.records[r.name] == r
  {
    var m := Prune(st.records, now, cfg.ttlMs);
    SelectFacts(m, m.Keys - {MIRROR});
    var q := SnapshotList(cfg, st, now);
    forall i, j | 0 <= i < j < |q| ensures q[i].name != q[j].name {
      ByteOrder.Trichotomy(q[i].name, q[j].name);
    }
  }

  lemma SnapshotAt(cfg: Config, st: State, now: u64, n: Bytes)
    requires Keyed(st.records) && n != MIRROR
    ensures PushedFor(SnapshotList(cfg, st, now), n) == Get(Prune(st.records, now, cfg.ttlMs), n)
  {
    var m := Prune(st.records, now, cfg.ttlMs);
    SelectFacts(m, m.Keys - {MIRROR});
    PushedForExact(SnapshotList(cfg, st, now), n);
    if n in m {
      assert m[n] in SnapshotList(cfg, st, now);
    }
  }

  lemma PrunedLater(cfg: Config, m: Records, saved: u64, now: u64, n: Bytes)
    requires saved <= now
    ensures Alive(cfg, Get(Prune(m, saved, cfg.ttlMs), n), now) == Get(Prune(m, now, cfg.ttlMs), n)
  {}

  /** Every replicated record fits the frame caps. */
  ghost predicate InCap(m: Records) {
    Keyed(m) && forall n | n in m && n != MIRROR :: W.RecordInCap(m[n])
  }

  lemma SavedFileOpens(a: Seal.Aead, cfg: Config, saved: State, key: Seal.SealKey, nonce: Seal.Nonce, s: u64)
    requires Seal.Ideal(a) && InCap(saved.records)
    ensures OpenedRecords(a, SavedFile(a, cfg, saved, key, nonce, s), key)
         == var q := SnapshotList(cfg, saved, s); if |q| <= Seal.MAX_RECORDS then Some(q) else None
  {
    SnapshotFacts(cfg, saved, s);
    var q := SnapshotList(cfg, saved, s);
    forall r | r in q ensures W.RecordInCap(r) {
      assert W.RecordInCap(saved.records[r.name]);
    }
    OpenedSealed(a, q, nonce, key);
    KeptAll(q);
  }

  /** What survives the value cap of the reader. */
  function Readable(r: Option<Record>): Option<Record> {
    if r.Some? && |r.value.value| > W.MAX_VALUE_LEN then None else r
  }

  lemma {:induction false} KeptAt(q: seq<Record>, n: Bytes)
    requires DistinctNames(q) && n != MIRROR
    ensures PushedFor(Kept(q), n) == Readable(PushedFor(q, n))
    ensures DistinctNames(Kept(q)) && forall r | r in Kept(q) :: r in q && r.name != MIRROR
  {
    if q != [] {
      var init, last := q[..|q| - 1], q[|q| - 1];
      assert q == init + [last];
      var k := Kept(init);
      KeptAt(init, n);
      NotPushedTwice(init, last);
      if KeepOne(last) == [] {
        assert Kept(q) == k;
      } else {
        assert Kept(q) == k + [last] && (k + [last])[..|k|] == k;
      }
    }
  }

  /** What the file holds for a name, for a reader at `now`. */
  ghost function FileShows(cfg: Config, saved: State, s: u64, now: u64, n: Bytes): Option<Record> {
    if |SnapshotList(cfg, saved, s)| > Seal.MAX_RECORDS then None
    else Alive(cfg, Readable(Get(Prune(saved.records, s, cfg.ttlMs), n)), now)
  }

  /**
   Any snapshot is safe to load: a file saved at `s`, loaded at any `now`, earlier or later, into any
   store, leaves for every name the join of what is unexpired on either side, over-cap values aside.
   One of more than 65535 records changes nothing.
   */
  lemma LoadIsTheJoin(a: Seal.Aead, cfg: Config, saved: State, s: u64, st: State, now: u64,
                      key: Seal.SealKey, nonce: Seal.Nonce, n: Bytes)
    requires Seal.Ideal(a) && Keyed(saved.records) && n != MIRROR
    requires forall m | m in saved.records && m != MIRROR :: Sealable(saved.records[m])
    ensures var after := LoadedInto(a, cfg, st, Some(SavedFile(a, cfg, saved, key, nonce, s)), key, now);
      Get(Prune(after.records, now, cfg.ttlMs), n)
        == JoinOption(Get(Prune(st.records, now, cfg.ttlMs), n), FileShows(cfg, saved, s, now, n))
  {
    SnapshotFacts(cfg, saved, s);
    var q := SnapshotList(cfg, saved, s);
    forall r | r in q ensures Sealable(r) {
      assert Sealable(saved.records[r.name]);
    }
    OpenedSealed(a, q, nonce, key);
    if |q| <= Seal.MAX_RECORDS {
      KeptAt(q, n);
      ApplyListAt(cfg, st, Kept(q), now, n);
      SnapshotAt(cfg, saved, s, n);
    }
  }

  lemma InCapSealable(m: Records)
    requires InCap(m)
    ensures forall n | n in m && n != MIRROR :: Sealable(m[n])
  {
    forall n | n in m && n != MIRROR ensures Sealable(m[n]) {
      assert W.RecordInCap(m[n]);
    }
  }

  function NamesIn(q: seq<Record>): set<Bytes> {
    set r | r in q :: r.name
  }

  lemma {:induction false} DistinctCount(q: seq<Record>)
    requires DistinctNames(q)
    ensures |NamesIn(q)| == |q|
  {
    if q != [] {
      var init, last := q[..|q| - 1], q[|q| - 1];
      assert q == init + [last];
      DistinctCount(init);
      assert NamesIn(q) == NamesIn(init) + {last.name};
      assert last.name !in NamesIn(init);
    }
  }

  /** A snapshot lists as many records as are replicated. */
  lemma SnapshotCount(cfg: Config, st: State, now: u64)
    requires Keyed(st.records)
    ensures |SnapshotList(cfg, st, now)| == |Prune(st.records, now, cfg.ttlMs) - {MIRROR}|
  {
    var m, q := Prune(st.records, now, cfg.ttlMs), SnapshotList(cfg, st, now);
    SnapshotFacts(cfg, st, now);
    DistinctCount(q);
    SelectFacts(m, m.Keys - {MIRROR});
    forall n ensures n in NamesIn(q) <==> n in (m - {MIRROR}).Keys {
      if n in m && n != MIRROR {
        assert m[n] in q;
      }
    }
    assert NamesIn(q) == (m - {MIRROR}).Keys;
    assert |(m - {MIRROR}).Keys| == |m - {MIRROR}|;
  }

  /** In the usual case: loaded no earlier than saved, and within the caps. */
  lemma LaterLoadIsTheJoin(a: Seal.Aead, cfg: Config, saved: State, s: u64, st: State, now: u64,
                           key: Seal.SealKey, nonce: Seal.Nonce)
    requires Seal.Ideal(a) && InCap(saved.records) && s <= now
    requires |SnapshotList(cfg, saved, s)| <= Seal.MAX_RECORDS
    ensures var after := LoadedInto(a, cfg, st, Some(SavedFile(a, cfg, saved, key, nonce, s)), key, now);
      IsPointwiseJoin(cfg, st.records, saved.records, now, Prune(after.records, now, cfg.ttlMs))
  {
    var after := LoadedInto(a, cfg, st, Some(SavedFile(a, cfg, saved, key, nonce, s)), key, now);
    InCapSealable(saved.records);
    forall n | n != MIRROR
      ensures Get(Prune(after.records, now, cfg.ttlMs), n)
           == JoinOption(Get(Prune(st.records, now, cfg.ttlMs), n), Get(Prune(saved.records, now, cfg.ttlMs), n))
    {
      LoadIsTheJoin(a, cfg, saved, s, st, now, key, nonce, n);
      PrunedLater(cfg, saved.records, s, now, n);
      if n in saved.records {
        assert W.RecordInCap(saved.records[n]);
      }
    }
  }

  // ---- Any file at all ----

  /** A record of `q` that wins over `own` and that a reader at `now` takes. */
  ghost predicate Overrules(cfg: Config, r: Record, own: Record, now: u64) {
    r.name != MIRROR && !IsExpired(r, now, cfg.ttlMs) && ValueLess(own, r)
  }

  lemma OverruledByOne(cfg: Config, own: Record, before: Record, r: Record)
    requires Below(own, before)
    ensures Below(own, Merge(before, r))
    ensures SameValue(Merge(before, r), own) <==> SameValue(before, own) && !ValueLess(own, r)
  {
    ValueOrderTotal(own, before);
    ValueOrderTotal(before, r);
    BelowMerge(before, r, own);
    if ValueLess(before, r) && ValueLess(own, before) {
      ValueOrderTransitive(own, before, r);
      ValueOrderTotal(own, r);
    }
    ValueOrderTotal(own, r);
  }

  lemma OneKeeps(cfg: Config, st: State, r: Record, now: u64, n: Bytes, own: Record)
    requires n in st.records && Below(own, st.records[n]) && !IsExpired(own, now, cfg.ttlMs) && n != MIRROR
    ensures var m := ApplyRemoteStep(cfg, st, r, now).0.records;
      && n in m && Below(own, m[n])
      && (SameValue(m[n], own) <==> SameValue(st.records[n], own) && !(r.name == n && Overrules(cfg, r, own, now)))
  {
    OverruledByOne(cfg, own, st.records[n], r);
  }

  /** No record of that name in `q` overrules `own`. */
  ghost predicate NoneOverrules(cfg: Config, q: seq<Record>, own: Record, now: u64, n: Bytes) {
    forall r | r in q && r.name == n :: !Overrules(cfg, r, own, now)
  }

  /** Merging any records in, in any order, keeps an unexpired resident write unless one of them overrules it. */
  lemma {:induction false} ApplyAllKeeps(cfg: Config, st: State, q: seq<Record>, now: u64, n: Bytes)
    requires n in st.records && !IsExpired(st.records[n], now, cfg.ttlMs) && n != MIRROR
    ensures var m := ApplyAll(cfg, st, q, now).records; var own := st.records[n];
      && n in m && Below(own, m[n])
      && (SameValue(m[n], own) <==> NoneOverrules(cfg, q, own, now, n))
  {
    var own := st.records[n];
    ValueOrderTotal(own, own);
    if q != [] {
      var init, r := q[..|q| - 1], q[|q| - 1];
      assert q == init + [r];
      ApplyAllKeeps(cfg, st, init, now, n);
      OneKeeps(cfg, ApplyAll(cfg, st, init, now), r, now, n, own);
    }
  }

  /** The records a load merges in: none unless the file is there and opens. */
  function FileRecords(a: Seal.Aead, file: Option<Bytes>, key: Seal.SealKey): seq<Record> {
    if file.None? || OpenedRecords(a, file.value, key).None? then [] else OpenedRecords(a, file.value, key).value
  }

  /**
   No file can undo a resident write: whatever its bytes, its age, the cipher and the clock reading, an
   unexpired record stays, is touched no earlier, and keeps its write if and only if the file does not
   open to an unexpired newer write of that name.
   */
  lemma StaleSnapshotUndoesNothing(a: Seal.Aead, cfg: Config, st: State, file: Option<Bytes>, key: Seal.SealKey,
                                   now: u64, n: Bytes)
    requires n in st.records && !IsExpired(st.records[n], now, cfg.ttlMs) && n != MIRROR
    ensures var m := LoadedInto(a, cfg, st, file, key, now).records; var own := st.records[n];
      && n in m && Below(own, m[n])
      && (SameValue(m[n], own) <==> NoneOverrules(cfg, FileRecords(a, file, key), own, now, n))
  {
    ApplyAllKeeps(cfg, st, FileRecords(a, file, key), now, n);
    assert ApplyAll(cfg, st, [], now) == st;
  }

  /** Save then load is the identity: an empty store gets back exactly the replicated records. */
  lemma SaveThenLoad(a: Seal.Aead, cfg: Config, saved: State, now: u64, st: State, key: Seal.SealKey, nonce: Seal.Nonce)
    requires Seal.Ideal(a) && InCap(saved.records) && st.records == map[]
    ensures LoadedInto(a, cfg, st, Some(SavedFile(a, cfg, saved, key, nonce, now)), key, now).records
         == if |SnapshotList(cfg, saved, now)| <= Seal.MAX_RECORDS then Prune(saved.records, now, cfg.ttlMs) - {MIRROR} else map[]
  {
    SavedFileOpens(a, cfg, saved, key, nonce, now);
    var q := SnapshotList(cfg, saved, now);
    if |q| <= Seal.MAX_RECORDS {
      SnapshotFacts(cfg, saved, now);
      var after := ApplyAll(cfg, st, q, now).records;
      var m := Prune(saved.records, now, cfg.ttlMs);
      assert LoadedInto(a, cfg, st, Some(SavedFile(a, cfg, saved, key, nonce, now)), key, now).records == after;
      forall n ensures Get(after, n) == Get(m - {MIRROR}, n) {
        RestoredAt(cfg, saved, now, st, n);
      }
      EqualByNames(after, m - {MIRROR});
    }
  }

  lemma EqualByNames(a: Records, b: Records)
    requires forall n :: Get(a, n) == Get(b, n)
    ensures a == b
  {
    assert forall n :: n in a <==> Get(a, n).Some?;
    assert forall n :: n in b <==> Get(b, n).Some?;
    forall n | n in a ensures a[n] == b[n] {
      assert Get(a, n) == Get(b, n);
    }
  }

  lemma RestoredAt(cfg: Config, saved: State, now: u64, st: State, n: Bytes)
    requires Keyed(saved.records) && st.records == map[]
    ensures Get(ApplyAll(cfg, st, SnapshotList(cfg, saved, now), now).records, n)
         == Get(Prune(saved.records, now, cfg.ttlMs) - {MIRROR}, n)
  {
    var q := SnapshotList(cfg, saved, now);
    SnapshotFacts(cfg, saved, now);
    SnapshotUnexpired(cfg, saved, now);
    ApplyAllAt(cfg, st, q, now, n);
    if n != MIRROR {
      SnapshotAt(cfg, saved, now, n);
    } else {
      PushedForExact(q, n);
    }
  }

  lemma SnapshotUnexpired(cfg: Config, st: State, now: u64)
    requires Keyed(st.records)
    ensures forall r | r in SnapshotList(cfg, st, now) :: !IsExpired(r, now, cfg.ttlMs)
  {
    var m := Prune(st.records, now, cfg.ttlMs);
    SelectFacts(m, m.Keys - {MIRROR});
  }

  ghost predicate StampedBy(q: seq<Record>, last: Hlc) {
    forall r | r in q :: AtMost(r.written, last) && AtMost(r.touched, last)
  }

  lemma WitnessLifts(cfg: Config, st: State, r: Record, now: u64)
    requires r.name != MIRROR
    ensures var last := ApplyRemoteStep(cfg, st, r, now).0.last;
      AtMost(st.last, last) && AtMost(r.written, last) && AtMost(r.touched, last)
  {}

  lemma StampedLater(q: seq<Record>, last: Hlc, later: Hlc)
    requires StampedBy(q, last) && AtMost(last, later)
    ensures StampedBy(q, later)
  {}

  /** Loading lifts the clock past every stamp in the file, so the next local write beats them all. */
  lemma {:induction false} LoadLiftsClock(cfg: Config, st: State, q: seq<Record>, now: u64)
    requires forall r | r in q :: r.name != MIRROR
    ensures AtMost(st.last, ApplyAll(cfg, st, q, now).last)
    ensures StampedBy(q, ApplyAll(cfg, st, q, now).last)
  {
    if q != [] {
      var init, r := q[..|q| - 1], q[|q| - 1];
      assert q == init + [r];
      LoadLiftsClock(cfg, st, init, now);
      var before := ApplyAll(cfg, st, init, now);
      WitnessLifts(cfg, before, r, now);
      StampedLater(init, before.last, ApplyAll(cfg, st, q, now).last);
    }
  }
}
