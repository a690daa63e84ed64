/** The digest/push anti-entropy exchange (RSYN, REGW). */
module AntiEntropy {
  import opened Machine
  import opened HybridClock
  import opened RegisterMerge
  import opened RegisterState
  import ByteOrder
  import RegisterName

  // One replica sends its digest, the other answers with the full records the digest shows to be
  // missing or stale, and each is merged in. Three such half-exchanges leave both replicas with the
  // join of what they held, unless the digests hide two writes of one stamp.

  // ---- The exchange ----

  /** Merging the pushed records in, in the order they arrive. */
  function ApplyAll(cfg: Config, st: State, pushed: seq<Record>, now: u64): State {
    if pushed == [] then st
    else ApplyRemoteStep(cfg, ApplyAll(cfg, st, pushed[..|pushed| - 1], now), pushed[|pushed| - 1], now).0
  }

  ghost function Snapshot(cfg: Config, st: State, now: u64): State {
    st.(records := Prune(st.records, now, cfg.ttlMs))
  }

  /** What the answering side pushes for a digest. */
  ghost function Pushed(cfg: Config, st: State, digest: seq<DigestEntry>, now: u64): seq<Record> {
    var m := Prune(st.records, now, cfg.ttlMs);
    Select(m, PushNames(m, digest))
  }

  /** `a` pulls from `b`: its digest (or part of it) goes out, and everything `b` answers is applied. */
  ghost function Pull(cfg: Config, a: State, b: State, digest: seq<DigestEntry>, now: u64): State {
    ApplyAll(cfg, Snapshot(cfg, a, now), Pushed(cfg, b, digest, now), now)
  }

  /**
   Part of a store's digest: entries may be missing -- the wire cuts a digest at 1024 entries --
   but those present are the store's own.
   */
  ghost predicate CutOfDigest(cfg: Config, st: State, digest: seq<DigestEntry>, now: u64) {
    var m := Prune(st.records, now, cfg.ttlMs);
    forall e | e in digest :: e.name in m && e == EntryOf(m[e.name])
  }

  /** Any prefix of what `Digest` returns is a cut, the whole of it included. */
  lemma PrefixIsCut(cfg: Config, st: State, now: u64, n: nat)
    requires Keyed(st.records)
    requires n <= |Entries(Select(Prune(st.records, now, cfg.ttlMs), Prune(st.records, now, cfg.ttlMs).Keys - {MIRROR}))|
    ensures CutOfDigest(cfg, st, Step(cfg, st, Digest, now).1.entries[..n], now)
  {
    var m := Prune(st.records, now, cfg.ttlMs);
    var q := Select(m, m.Keys - {MIRROR});
    SelectFacts(m, m.Keys - {MIRROR});
    forall e | e in Entries(q)[..n] ensures e.name in m && e == EntryOf(m[e.name]) {
      var i :| 0 <= i < n && Entries(q)[i] == e;
      assert q[i] in q;
    }
  }

  // ---- One name at a time ----

  function Get(m: Records, n: Bytes): Option<Record> {
    if n in m then Some(m[n]) else None
  }

  function JoinOption(a: Option<Record>, b: Option<Record>): Option<Record> {
    if a.None? then b else if b.None? then a else Some(Merge(a.value, b.value))
  }

  /** What is answered for one name, given what the digest said about it. */
  function PushOne(a: Option<Record>, b: Option<Record>, listed: bool): Option<Record> {
    if b.Some? && Needs(b.value, if listed && a.Some? then Some(EntryOf(a.value)) else None) then b else None
  }

  /** The effect of a pull on one name. */
  function PullOne(a: Option<Record>, b: Option<Record>, listed: bool): Option<Record> {
    JoinOption(a, PushOne(a, b, listed))
  }

  ghost predicate Unexpired(cfg: Config, m: Records, now: u64) {
    forall n | n in m :: !IsExpired(m[n], now, cfg.ttlMs)
  }

  ghost predicate DistinctNames(q: seq<Record>) {
    forall i, j | 0 <= i < j < |q| :: q[i].name != q[j].name
  }

  /** The record pushed for a name, if any. */
  function PushedFor(q: seq<Record>, n: Bytes): Option<Record> {
    if q == [] then None
    else if q[|q| - 1].name == n then Some(q[|q| - 1])
    else PushedFor(q[..|q| - 1], n)
  }

  lemma {:induction false} ApplyAllAt(cfg: Config, st: State, pushed: seq<Record>, now: u64, n: Bytes)
    requires Unexpired(cfg, st.records, now) && DistinctNames(pushed)
    requires forall r | r in pushed :: r.name != MIRROR && !IsExpired(r, now, cfg.ttlMs)
    ensures Unexpired(cfg, ApplyAll(cfg, st, pushed, now).records, now)
    ensures Get(ApplyAll(cfg, st, pushed, now).records, n) == JoinOption(Get(st.records, n), PushedFor(pushed, n))
  {
    if pushed != [] {
      var init, r := pushed[..|pushed| - 1], pushed[|pushed| - 1];
      assert pushed == init + [r];
      ApplyAllAt(cfg, st, init, now, n);
      ApplyAllAt(cfg, st, init, now, r.name);
      NotPushedTwice(init, r);
    }
  }

  lemma {:induction false} NotPushedTwice(init: seq<Record>, r: Record)
    requires forall x | x in init :: x.name != r.name
    ensures PushedFor(init, r.name) == None
  {
    if init != [] {
      NotPushedTwice(init[..|init| - 1], r);
    }
  }

  lemma {:induction false} PushedForExact(q: seq<Record>, n: Bytes)
    ensures PushedFor(q, n).Some? ==> PushedFor(q, n).value in q && PushedFor(q, n).value.name == n
    ensures PushedFor(q, n).None? ==> forall r | r in q :: r.name != n
  {
    if q != [] {
      PushedForExact(q[..|q| - 1], n);
      assert q == q[..|q| - 1] + [q[|q| - 1]];
    }
  }

  /** The record answered for a name is the one held, if the digest shows it to be needed. */
  lemma PushedExactly(cfg: Config, a: State, b: State, digest: seq<DigestEntry>, now: u64, n: Bytes)
    requires Keyed(b.records) && n != MIRROR && CutOfDigest(cfg, a, digest, now)
    ensures var ma, mb := Prune(a.records, now, cfg.ttlMs), Prune(b.records, now, cfg.ttlMs);
      PushedFor(Pushed(cfg, b, digest, now), n) == PushOne(Get(ma, n), Get(mb, n), Lists(digest, n))
  {
    var ma, mb := Prune(a.records, now, cfg.ttlMs), Prune(b.records, now, cfg.ttlMs);
    var pushed := Pushed(cfg, b, digest, now);
    SelectFacts(mb, PushNames(mb, digest));
    PushedForExact(pushed, n);
    if n in mb {
      assert mb[n] in pushed <==> n in PushNames(mb, digest);
      var shown := if Lists(digest, n) && n in ma then Some(EntryOf(ma[n])) else None;
      assert Needs(mb[n], Lookup(digest, n)) <==> Needs(mb[n], shown);
    }
  }

  predicate Lists(digest: seq<DigestEntry>, n: Bytes) {
    Lookup(digest, n).Some?
  }

  /** An answer holds a name once, and nothing expired. */
  lemma PushedDistinct(cfg: Config, b: State, digest: seq<DigestEntry>, now: u64)
    requires Keyed(b.records)
    ensures DistinctNames(Pushed(cfg, b, digest, now))
    ensures forall r | r in Pushed(cfg, b, digest, now) :: r.name != MIRROR && !IsExpired(r, now, cfg.ttlMs)
  {
    var m := Prune(b.records, now, cfg.ttlMs);
    var pushed := Pushed(cfg, b, digest, now);
    SelectFacts(m, PushNames(m, digest));
    forall i, j | 0 <= i < j < |pushed| ensures pushed[i].name != pushed[j].name {
      ByteOrder.Trichotomy(pushed[i].name, pushed[j].name);
    }
  }

  /** A pull, name by name. */
  lemma PullAt(cfg: Config, a: State, b: State, digest: seq<DigestEntry>, now: u64, n: Bytes)
    requires Keyed(a.records) && Keyed(b.records) && n != MIRROR
    requires CutOfDigest(cfg, a, digest, now)
    ensures var ma, mb := Prune(a.records, now, cfg.ttlMs), Prune(b.records, now, cfg.ttlMs);
      Get(Pull(cfg, a, b, digest, now).records, n) == PullOne(Get(ma, n), Get(mb, n), Lists(digest, n))
    ensures Unexpired(cfg, Pull(cfg, a, b, digest, now).records, now)
  {
    var ma, mb := Prune(a.records, now, cfg.ttlMs), Prune(b.records, now, cfg.ttlMs);
    var pushed := Pushed(cfg, b, digest, now);
    PushedDistinct(cfg, b, digest, now);
    ApplyAllAt(cfg, Snapshot(cfg, a, now), pushed, now, n);
    PushedExactly(cfg, a, b, digest, now, n);
  }

  // ---- Convergence ----

  predicate OneNameOrNone(a: Option<Record>, b: Option<Record>) {
    a.Some? && b.Some? ==> a.value.name == b.value.name
  }

  /**
   Two different writes of one stamp, which two hosts can mint in one millisecond. A digest shows the
   stamp and the touch but not the host, so the losing side (`la`, `lb`: A, B listed the name) is never
   sent the winner unless the winner was touched later.
   */
  predicate TieHidden(a: Option<Record>, b: Option<Record>, la: bool, lb: bool) {
    && a.Some? && b.Some? && a.value.written == b.value.written && !SameValue(a.value, b.value)
    && if ValueLess(a.value, b.value) then la && AtMost(b.value.touched, a.value.touched)
       else lb && AtMost(a.value.touched, b.value.touched)
  }

  /** The three half-exchanges on one name. */
  lemma ThreePullsOne(a: Option<Record>, b: Option<Record>, l1: bool, l2: bool, l3: bool)
    requires OneNameOrNone(a, b)
    ensures var a1 := PullOne(a, b, l1); var b1 := PullOne(b, a1, l2); var a2 := PullOne(a1, b1, l3);
      && (a2 == b1 <==> !TieHidden(a, b, l1 && l3, l2))
      && (a2 == b1 ==> a2 == JoinOption(a, b))
  {
    ConnectOne(a, b, l1, l2, true);
    if a.Some? && b.Some? {
      ValueOrderTotal(a.value, b.value);
    }
  }

  /** The result of the exchange: the pointwise join of what was unexpired. */
  ghost predicate IsPointwiseJoin(cfg: Config, a: Records, b: Records, now: u64, m: Records) {
    forall n | n != MIRROR ::
      Get(m, n) == JoinOption(Get(Prune(a, now, cfg.ttlMs), n), Get(Prune(b, now, cfg.ttlMs), n))
  }

  lemma SnapshotGet(cfg: Config, m: Records, now: u64, n: Bytes)
    requires Unexpired(cfg, m, now)
    ensures Get(Prune(m, now, cfg.ttlMs), n) == Get(m, n)
  {}

  lemma {:induction false} ApplyAllKeyed(cfg: Config, st: State, pushed: seq<Record>, now: u64)
    requires Keyed(st.records)
    ensures Keyed(ApplyAll(cfg, st, pushed, now).records)
  {
    if pushed != [] {
      ApplyAllKeyed(cfg, st, pushed[..|pushed| - 1], now);
    }
  }

  /** What two stores hold of a name, unexpired, is a tie that these listings hide. */
  ghost predicate TieHiddenAt(cfg: Config, a: State, b: State, now: u64, n: Bytes, la: bool, lb: bool) {
    TieHidden(Get(Prune(a.records, now, cfg.ttlMs), n), Get(Prune(b.records, now, cfg.ttlMs), n), la, lb)
  }

  /** Two stores no peer can tell apart. */
  ghost predicate Agree(a: State, b: State) {
    forall n | n != MIRROR :: Get(a.records, n) == Get(b.records, n)
  }

  /**
   Anti-entropy converges: A pulls from B, B from A, and A from B, at one wall-clock reading. Whatever
   part of each digest the wire let through, the two then agree if and only if no tie is hidden by the
   listings, and when they agree they hold the pointwise join of their unexpired records.
   */
  lemma ThreeHalfExchangesConverge(cfg: Config, a: State, b: State, now: u64,
                                   d1: seq<DigestEntry>, d2: seq<DigestEntry>, d3: seq<DigestEntry>)
    requires Keyed(a.records) && Keyed(b.records)
    requires CutOfDigest(cfg, a, d1, now)
    requires CutOfDigest(cfg, b, d2, now)
    requires CutOfDigest(cfg, Pull(cfg, a, b, d1, now), d3, now)
    ensures var a1 := Pull(cfg, a, b, d1, now);
      var b1 := Pull(cfg, b, a1, d2, now);
      var a2 := Pull(cfg, a1, b1, d3, now);
      && (Agree(a2, b1) <==>
            forall n | n != MIRROR :: !TieHiddenAt(cfg, a, b, now, n, Lists(d1, n) && Lists(d3, n), Lists(d2, n)))
      && (Agree(a2, b1) ==> IsPointwiseJoin(cfg, a.records, b.records, now, a2.records))
  {
    var a1 := Pull(cfg, a, b, d1, now);
    var b1 := Pull(cfg, b, a1, d2, now);
    var a2 := Pull(cfg, a1, b1, d3, now);
    ApplyAllKeyed(cfg, Snapshot(cfg, a, now), Pushed(cfg, b, d1, now), now);
    ApplyAllKeyed(cfg, Snapshot(cfg, b, now), Pushed(cfg, a1, d2, now), now);
    forall n | n != MIRROR
      ensures Get(a2.records, n) == Get(b1.records, n) <==>
              !TieHiddenAt(cfg, a, b, now, n, Lists(d1, n) && Lists(d3, n), Lists(d2, n))
      ensures var j := JoinOption(Get(Prune(a.records, now, cfg.ttlMs), n), Get(Prune(b.records, now, cfg.ttlMs), n));
        Get(a2.records, n) == Get(b1.records, n) ==> Get(a2.records, n) == j
    {
      var ra, rb := Get(Prune(a.records, now, cfg.ttlMs), n), Get(Prune(b.records, now, cfg.ttlMs), n);
      PullAt(cfg, a, b, d1, now, n);
      PullAt(cfg, b, a1, d2, now, n);
      PullAt(cfg, a1, b1, d3, now, n);
      SnapshotGet(cfg, a1.records, now, n);
      SnapshotGet(cfg, b1.records, now, n);
      ThreePullsOne(ra, rb, Lists(d1, n), Lists(d2, n), Lists(d3, n));
    }
  }

  // ---- One digest each way, as on connecting ----

  /** `b` is the older write, yet was touched last. */
  predicate OlderTouchedLast(a: Option<Record>, b: Option<Record>) {
    a.Some? && b.Some? && Less(b.value.written, a.value.written) && Less(a.value.touched, b.value.touched)
  }

  /** The same write, or none on either side; touches may differ. */
  predicate SameWrite(a: Option<Record>, b: Option<Record>) {
    (a.Some? <==> b.Some?) && (a.Some? ==> a.value.name == b.value.name && SameValue(a.value, b.value))
  }

  /** One name: `merged` says that A merged B's record of it before answering. */
  lemma ConnectOne(a: Option<Record>, b: Option<Record>, l1: bool, l2: bool, merged: bool)
    requires OneNameOrNone(a, b)
    ensures var a1 := PullOne(a, b, l1); var b1 := PullOne(b, if merged then a1 else a, l2);
      && (a1 == b1 <==> !(l1 && OlderTouchedLast(a, b)) && (merged || !(l2 && OlderTouchedLast(b, a)))
                        && !TieHidden(a, b, l1, l2))
      && (SameWrite(a1, JoinOption(a, b)) && SameWrite(b1, JoinOption(a, b)) <==> !TieHidden(a, b, l1, l2))
      && (a1 == b1 ==> a1 == JoinOption(a, b))
  {
    if a.Some? && b.Some? {
      ValueOrderTotal(a.value, b.value);
    }
  }

  /** A while B's answer is coming in: the first `i` of its records are merged. */
  ghost function Midway(cfg: Config, a: State, b: State, digest: seq<DigestEntry>, i: nat, now: u64): State
    requires i <= |Pushed(cfg, b, digest, now)|
  {
    ApplyAll(cfg, Snapshot(cfg, a, now), Pushed(cfg, b, digest, now)[..i], now)
  }

  /** B's record of a name was among the first `i` of its answer. */
  ghost predicate MergedBy(cfg: Config, b: State, digest: seq<DigestEntry>, i: nat, now: u64, n: Bytes)
    requires i <= |Pushed(cfg, b, digest, now)|
  {
    exists k | 0 <= k < i :: Pushed(cfg, b, digest, now)[k].name == n
  }

  lemma {:induction false} PushedForPrefix(q: seq<Record>, i: nat, n: Bytes)
    requires DistinctNames(q) && i <= |q|
    ensures PushedFor(q[..i], n) == if exists k | 0 <= k < i :: q[k].name == n then PushedFor(q, n) else None
  {
    PushedForExact(q[..i], n);
    PushedForExact(q, n);
  }

  lemma MidwayAt(cfg: Config, a: State, b: State, digest: seq<DigestEntry>, i: nat, now: u64, n: Bytes)
    requires Keyed(a.records) && Keyed(b.records) && n != MIRROR
    requires CutOfDigest(cfg, a, digest, now) && i <= |Pushed(cfg, b, digest, now)|
    ensures var mid := Midway(cfg, a, b, digest, i, now);
      && Keyed(mid.records) && Unexpired(cfg, mid.records, now)
      && Get(mid.records, n) == if MergedBy(cfg, b, digest, i, now, n) then Get(Pull(cfg, a, b, digest, now).records, n)
                                else Get(Prune(a.records, now, cfg.ttlMs), n)
  {
    var pushed := Pushed(cfg, b, digest, now);
    PushedDistinct(cfg, b, digest, now);
    PushedForPrefix(pushed, i, n);
    ApplyAllKeyed(cfg, Snapshot(cfg, a, now), pushed[..i], now);
    ApplyAllAt(cfg, Snapshot(cfg, a, now), pushed[..i], now, n);
    ApplyAllAt(cfg, Snapshot(cfg, a, now), pushed, now, n);
  }

  /** The names a connection leaves different: the fresher touch stays behind on the older write. */
  ghost predicate TouchLeftBehind(cfg: Config, a: State, b: State, d1: seq<DigestEntry>, d2: seq<DigestEntry>,
                                  i: nat, now: u64, n: Bytes)
    requires i <= |Pushed(cfg, b, d1, now)|
  {
    var ra, rb := Get(Prune(a.records, now, cfg.ttlMs), n), Get(Prune(b.records, now, cfg.ttlMs), n);
    || (Lists(d1, n) && OlderTouchedLast(ra, rb))
    || (Lists(d2, n) && OlderTouchedLast(rb, ra) && !MergedBy(cfg, b, d1, i, now, n))
  }

  /** A name that a connection leaves different: a touch stays behind, or a tie is hidden. */
  ghost predicate LeftDifferent(cfg: Config, a: State, b: State, d1: seq<DigestEntry>, d2: seq<DigestEntry>,
                                i: nat, now: u64, n: Bytes)
    requires i <= |Pushed(cfg, b, d1, now)|
  {
    TouchLeftBehind(cfg, a, b, d1, d2, i, now, n) || TieHiddenAt(cfg, a, b, now, n, Lists(d1, n), Lists(d2, n))
  }

  /** Every name has the write that wins between the two stores. */
  ghost predicate HaveJoinedValues(cfg: Config, a: State, b: State, now: u64, st: State) {
    forall n | n != MIRROR ::
      SameWrite(Get(st.records, n),
                JoinOption(Get(Prune(a.records, now, cfg.ttlMs), n), Get(Prune(b.records, now, cfg.ttlMs), n)))
  }

  /**
   Two stores connect and each sends its digest once. B answers first, A when it has merged the
   first `i` of B's records. However the digests were cut, both hold the joined values if and only if
   no tie is hidden; and the two agree, on the pointwise join, if and only if besides no name has its
   fresher touch on the older write: B's at a name A listed, or A's at a name B listed and A had not
   yet merged.
   */
  lemma ConnectExact(cfg: Config, a: State, b: State, now: u64, d1: seq<DigestEntry>, d2: seq<DigestEntry>, i: nat)
    requires Keyed(a.records) && Keyed(b.records)
    requires CutOfDigest(cfg, a, d1, now) && CutOfDigest(cfg, b, d2, now) && i <= |Pushed(cfg, b, d1, now)|
    ensures var a1 := Pull(cfg, a, b, d1, now);
      var b1 := Pull(cfg, b, Midway(cfg, a, b, d1, i, now), d2, now);
      && (Agree(a1, b1) <==> forall n | n != MIRROR :: !LeftDifferent(cfg, a, b, d1, d2, i, now, n))
      && (Agree(a1, b1) ==> IsPointwiseJoin(cfg, a.records, b.records, now, a1.records))
      && (HaveJoinedValues(cfg, a, b, now, a1) && HaveJoinedValues(cfg, a, b, now, b1) <==>
            forall n | n != MIRROR :: !TieHiddenAt(cfg, a, b, now, n, Lists(d1, n), Lists(d2, n)))
  {
    var mid := Midway(cfg, a, b, d1, i, now);
    var a1, b1 := Pull(cfg, a, b, d1, now), Pull(cfg, b, mid, d2, now);
    var ma, mb := Prune(a.records, now, cfg.ttlMs), Prune(b.records, now, cfg.ttlMs);
    forall n | n != MIRROR
      ensures Get(a1.records, n) == Get(b1.records, n) <==> !LeftDifferent(cfg, a, b, d1, d2, i, now, n)
      ensures Get(a1.records, n) == Get(b1.records, n) ==> Get(a1.records, n) == JoinOption(Get(ma, n), Get(mb, n))
      ensures var j := JoinOption(Get(ma, n), Get(mb, n));
        SameWrite(Get(a1.records, n), j) && SameWrite(Get(b1.records, n), j) <==>
        !TieHiddenAt(cfg, a, b, now, n, Lists(d1, n), Lists(d2, n))
    {
      MidwayAt(cfg, a, b, d1, i, now, n);
      SnapshotGet(cfg, mid.records, now, n);
      PullAt(cfg, a, b, d1, now, n);
      PullAt(cfg, b, mid, d2, now, n);
      ConnectOne(Get(ma, n), Get(mb, n), Lists(d1, n), Lists(d2, n), MergedBy(cfg, b, d1, i, now, n));
    }
  }

  /** B's answer carries every name of which A holds the older write. */
  lemma OlderIsMerged(cfg: Config, a: State, b: State, digest: seq<DigestEntry>, now: u64, n: Bytes)
    requires Keyed(b.records) && n != MIRROR && CutOfDigest(cfg, a, digest, now)
    requires OlderTouchedLast(Get(Prune(b.records, now, cfg.ttlMs), n), Get(Prune(a.records, now, cfg.ttlMs), n))
    ensures MergedBy(cfg, b, digest, |Pushed(cfg, b, digest, now)|, now, n)
  {
    PushedExactly(cfg, a, b, digest, now, n);
    PushedForExact(Pushed(cfg, b, digest, now), n);
  }

  /** What the side that answers last, having merged everything, can leave different. */
  ghost predicate LeftInSequence(cfg: Config, a: State, b: State, d1: seq<DigestEntry>, d2: seq<DigestEntry>,
                                 now: u64, n: Bytes) {
    var ra, rb := Get(Prune(a.records, now, cfg.ttlMs), n), Get(Prune(b.records, now, cfg.ttlMs), n);
    (Lists(d1, n) && OlderTouchedLast(ra, rb)) || TieHidden(ra, rb, Lists(d1, n), Lists(d2, n))
  }

  lemma InSequence(cfg: Config, a: State, b: State, d1: seq<DigestEntry>, d2: seq<DigestEntry>, now: u64, n: Bytes)
    requires Keyed(b.records) && n != MIRROR && CutOfDigest(cfg, a, d1, now)
    ensures LeftDifferent(cfg, a, b, d1, d2, |Pushed(cfg, b, d1, now)|, now, n) <==> LeftInSequence(cfg, a, b, d1, d2, now, n)
  {
    if OlderTouchedLast(Get(Prune(b.records, now, cfg.ttlMs), n), Get(Prune(a.records, now, cfg.ttlMs), n)) {
      OlderIsMerged(cfg, a, b, d1, now, n);
    }
  }

  /**
   A answers last, having merged all of B's answer: the two agree if and only if no tie is hidden and
   no older write that B holds of a name A listed was touched last.
   */
  lemma TwoHalfExchangesExact(cfg: Config, a: State, b: State, now: u64, d1: seq<DigestEntry>, d2: seq<DigestEntry>)
    requires Keyed(a.records) && Keyed(b.records)
    requires CutOfDigest(cfg, a, d1, now) && CutOfDigest(cfg, b, d2, now)
    ensures var a1 := Pull(cfg, a, b, d1, now);
      Agree(a1, Pull(cfg, b, a1, d2, now)) <==> forall n | n != MIRROR :: !LeftInSequence(cfg, a, b, d1, d2, now, n)
  {
    var pushed := Pushed(cfg, b, d1, now);
    assert pushed[..|pushed|] == pushed;
    ConnectExact(cfg, a, b, now, d1, d2, |pushed|);
    forall n | n != MIRROR
      ensures LeftDifferent(cfg, a, b, d1, d2, |pushed|, now, n) <==> LeftInSequence(cfg, a, b, d1, d2, now, n)
    {
      InSequence(cfg, a, b, d1, d2, now, n);
    }
  }

  /** Both answer before merging anything: either side's touch can be left behind. */
  lemma CrossedAnswersExact(cfg: Config, a: State, b: State, now: u64, d1: seq<DigestEntry>, d2: seq<DigestEntry>)
    requires Keyed(a.records) && Keyed(b.records)
    requires CutOfDigest(cfg, a, d1, now) && CutOfDigest(cfg, b, d2, now)
    ensures Agree(Pull(cfg, a, b, d1, now), Pull(cfg, b, a, d2, now)) <==>
              forall n | n != MIRROR :: !LeftInSequence(cfg, a, b, d1, d2, now, n) && !LeftInSequence(cfg, b, a, d2, d1, now, n)
  {
    ConnectExact(cfg, a, b, now, d1, d2, 0);
    MidwayAtStart(cfg, a, b, d1, d2, now);
    forall n | n != MIRROR
      ensures LeftDifferent(cfg, a, b, d1, d2, 0, now, n) <==>
              LeftInSequence(cfg, a, b, d1, d2, now, n) || LeftInSequence(cfg, b, a, d2, d1, now, n)
    {
      Crossed(cfg, a, b, d1, d2, now, n);
    }
  }

  lemma Crossed(cfg: Config, a: State, b: State, d1: seq<DigestEntry>, d2: seq<DigestEntry>, now: u64, n: Bytes)
    ensures LeftDifferent(cfg, a, b, d1, d2, 0, now, n) <==>
            LeftInSequence(cfg, a, b, d1, d2, now, n) || LeftInSequence(cfg, b, a, d2, d1, now, n)
  {
    var ra, rb := Get(Prune(a.records, now, cfg.ttlMs), n), Get(Prune(b.records, now, cfg.ttlMs), n);
    if ra.Some? && rb.Some? {
      ValueOrderTotal(ra.value, rb.value);
    }
  }

  lemma MidwayAtStart(cfg: Config, a: State, b: State, d1: seq<DigestEntry>, d2: seq<DigestEntry>, now: u64)
    ensures Pull(cfg, b, Midway(cfg, a, b, d1, 0, now), d2, now) == Pull(cfg, b, a, d2, now)
  {
    var m := Prune(a.records, now, cfg.ttlMs);
    assert Midway(cfg, a, b, d1, 0, now) == Snapshot(cfg, a, now);
    assert Prune(m, now, cfg.ttlMs) == m;
  }

  /** The digest of a store that holds one record. */
  lemma OneRecordDigest(cfg: Config, r: Record, last: Hlc, now: u64)
    requires r.name != MIRROR && !IsExpired(r, now, cfg.ttlMs)
    ensures var st := State(map[r.name := r], last);
      var d := Step(cfg, st, Digest, now).1.entries;
      CutOfDigest(cfg, st, d, now) && Lists(d, r.name)
  {
    var st := State(map[r.name := r], last);
    var m := Prune(st.records, now, cfg.ttlMs);
    var q := Select(m, m.Keys - {MIRROR});
    PrefixIsCut(cfg, st, now, |Entries(q)|);
    assert Entries(q)[..|q|] == Entries(q);
    SelectFacts(m, m.Keys - {MIRROR});
    assert r in q;
    var i :| 0 <= i < |q| && q[i] == r;
    assert Entries(q)[i] in Entries(q);
  }

  /** Two stores that connect, exchange their whole digests, and stay different. */
  lemma TwoHalfExchangesDoNot(host: HostId)
    ensures var cfg, name := Config(1000, 10, 10), [97];
      var newer := Record(name, [1], Hlc(20, 0), Hlc(20, 0), host, 0);
      var touched := Record(name, [2], Hlc(10, 0), Hlc(30, 0), host, 0);
      var a, b := State(map[name := newer], Hlc(20, 0)), State(map[name := touched], Hlc(30, 0));
      var d1, d2 := Step(cfg, a, Digest, 40).1.entries, Step(cfg, b, Digest, 40).1.entries;
      var a1 := Pull(cfg, a, b, d1, 40);
      !Agree(a1, Pull(cfg, b, a1, d2, 40)) && !Agree(a1, Pull(cfg, b, a, d2, 40))
  {
    var cfg, name := Config(1000, 10, 10), [97];
    var newer := Record(name, [1], Hlc(20, 0), Hlc(20, 0), host, 0);
    var touched := Record(name, [2], Hlc(10, 0), Hlc(30, 0), host, 0);
    var a, b := State(map[name := newer], Hlc(20, 0)), State(map[name := touched], Hlc(30, 0));
    var d1, d2 := Step(cfg, a, Digest, 40).1.entries, Step(cfg, b, Digest, 40).1.entries;
    OneRecordDigest(cfg, newer, a.last, 40);
    OneRecordDigest(cfg, touched, b.last, 40);
    TwoHalfExchangesExact(cfg, a, b, 40, d1, d2);
    CrossedAnswersExact(cfg, a, b, 40, d1, d2);
    assert LeftInSequence(cfg, a, b, d1, d2, 40, name);
  }

  // ---- Two writes of one stamp ----

  /** A write of a valid name to an empty store. */
  lemma FirstWrite(cfg: Config, name: Bytes, value: Bytes, host: HostId, now: u64)
    requires RegisterName.IsValid(name) && |value| <= cfg.maxValueBytes && cfg.maxCount > 0 && now > 0
    ensures var st := Step(cfg, State(map[], ZERO), Upsert(name, value, 0, host), now).0;
      st == State(map[name := Record(name, value, Hlc(now, 0), Hlc(now, 0), host, 0)], Hlc(now, 0))
  {
    var p := Prune(map[], now, cfg.ttlMs);
    assert p == map[] && LiveNames(p, now, cfg.ttlMs) == {};
    assert Tick(ZERO, now) == Hlc(now, 0);
  }

  /** Two stores that hold different writes of one stamp, touched alike, under whole digests: neither is sent the other's. */
  lemma TieStays(cfg: Config, r: Record, other: Record, last: Hlc, now: u64)
    requires r.name == other.name != MIRROR && r.written == other.written && r.touched == other.touched
    requires !IsExpired(r, now, cfg.ttlMs) && !IsExpired(other, now, cfg.ttlMs)
    ensures var a, b := State(map[r.name := r], last), State(map[r.name := other], last);
      Get(Pull(cfg, a, b, Step(cfg, a, Digest, now).1.entries, now).records, r.name) == Some(r)
  {
    var a, b := State(map[r.name := r], last), State(map[r.name := other], last);
    OneRecordDigest(cfg, r, last, now);
    PullAt(cfg, a, b, Step(cfg, a, Digest, now).1.entries, now, r.name);
  }

  /** Two hosts write a name in the same millisecond: no exchange, with whole digests, settles which write it is. */
  lemma SameMillisecond(cfg: Config, name: Bytes, v1: Bytes, v2: Bytes, h1: HostId, h2: HostId, now: u64)
    requires RegisterName.IsValid(name) && |v1| <= cfg.maxValueBytes && |v2| <= cfg.maxValueBytes
    requires cfg.maxCount > 0 && cfg.ttlMs > 0 && now > 0 && (h1 != h2 || v1 != v2)
    ensures var a, b := Step(cfg, State(map[], ZERO), Upsert(name, v1, 0, h1), now).0,
                        Step(cfg, State(map[], ZERO), Upsert(name, v2, 0, h2), now).0;
      var d1, d2 := Step(cfg, a, Digest, now).1.entries, Step(cfg, b, Digest, now).1.entries;
      && Get(Pull(cfg, a, b, d1, now).records, name) == Get(a.records, name)
      && Get(Pull(cfg, b, a, d2, now).records, name) == Get(b.records, name)
      && Get(a.records, name) != Get(b.records, name)
  {
    var r1, r2 := Record(name, v1, Hlc(now, 0), Hlc(now, 0), h1, 0), Record(name, v2, Hlc(now, 0), Hlc(now, 0), h2, 0);
    FirstWrite(cfg, name, v1, h1, now);
    FirstWrite(cfg, name, v2, h2, now);
    TieStays(cfg, r1, r2, Hlc(now, 0), now);
    TieStays(cfg, r2, r1, Hlc(now, 0), now);
  }
}
