/**
 The limits of the clipboard activity store (src/ClipboardActivityStore.cpp): an age limit on
 every item, then the newest items that fit a count and an estimated number of bytes.
 */
module ActivityLimits {
  import opened Machine
  import opened ActivityList

  /** Zero switches a limit off. */
  datatype Limits = Limits(memoryLimitBytes: u64, maxAgeSeconds: u64, maxItems: u64)

  const METADATA_BYTES := 256
  const MAX_SUPPORTED_AGE_SECONDS := 0x7FFF_FFFF_FFFF_FFFF
  const NANOSECONDS := 1_000_000_000

  function ItemBytes(x: Item): (r: u64)
    ensures r > 0
  {
    METADATA_BYTES + |x.payload.encoded|
  }

  /** The true total, which need not fit in 64 bits. */
  function Total(items: seq<Item>): nat {
    if items == [] then 0 else ItemBytes(items[0]) + Total(items[1..])
  }

  function SaturatingAdd(a: u64, b: u64): (r: u64)
    ensures r == if a + b > U64_MAX then U64_MAX else a + b
  {
    if a > U64_MAX - b then U64_MAX else a + b
  }

  function SaturatedTotal(items: seq<Item>): u64 {
    if items == [] then 0 else SaturatingAdd(SaturatedTotal(items[..|items| - 1]), ItemBytes(items[|items| - 1]))
  }

  predicate TooOld(x: Item, limits: Limits, now: int) {
    && 0 < limits.maxAgeSeconds <= MAX_SUPPORTED_AGE_SECONDS
    && x.learned < now - limits.maxAgeSeconds * NANOSECONDS
  }

  function Young(items: seq<Item>, limits: Limits, now: int): (r: seq<Item>)
    ensures |r| <= |items|
  {
    if items == [] then []
    else
      Young(items[..|items| - 1], limits, now)
      + if TooOld(items[|items| - 1], limits, now) then [] else [items[|items| - 1]]
  }

  function Aged(items: seq<Item>, limits: Limits, now: int): seq<Item> {
    if items == [] then []
    else
      Aged(items[..|items| - 1], limits, now)
      + if TooOld(items[|items| - 1], limits, now) then [items[|items| - 1]] else []
  }

  function RemovedAll(items: seq<Item>): (r: seq<Update>)
    ensures |r| == |items| && forall i | 0 <= i < |items| :: r[i] == Removed(items[i].id)
  {
    seq(|items|, i requires 0 <= i < |items| => Removed(items[i].id))
  }

  /** How many of the oldest go to meet the count. */
  function OverCount(items: seq<Item>, limits: Limits): (n: nat)
    ensures n <= |items|
  {
    if limits.maxItems != 0 && |items| > limits.maxItems then |items| - limits.maxItems else 0
  }

  /** How many of the oldest go while the running total is over `limit`; the last item always stays. */
  function Evicted(items: seq<Item>, total: u64, limit: u64): (n: nat)
    ensures n <= |items| && (items != [] ==> n < |items|)
  {
    if |items| > 1 && total > limit then
      1 + Evicted(items[1..], if ItemBytes(items[0]) >= total then 0 else total - ItemBytes(items[0]), limit)
    else 0
  }

  /** How many go to meet the byte limit, if there is one. */
  function OverBytesBy(items: seq<Item>, limits: Limits): (n: nat)
    ensures n <= |items|
  {
    if limits.memoryLimitBytes == 0 then 0 else Evicted(items, SaturatedTotal(items), limits.memoryLimitBytes)
  }

  /** How many of the age survivors go. */
  function Dropped(young: seq<Item>, limits: Limits): (n: nat)
    ensures n <= |young|
  {
    OverCount(young, limits) + OverBytesBy(young[OverCount(young, limits)..], limits)
  }

  /** The items left and the updates, one limit after the other. */
  function Limited(items: seq<Item>, limits: Limits, now: int): (seq<Item>, seq<Update>) {
    var young := Young(items, limits, now);
    var n := OverCount(young, limits);
    var m := OverBytesBy(young[n..], limits);
    (young[n..][m..], RemovedAll(Aged(items, limits, now)) + RemovedAll(young[..n]) + RemovedAll(young[n..][..m]))
  }

  // ---- The suffix rule ----

  /** What the limits ask of what is left: one item is always allowed to stay. */
  predicate Fits(items: seq<Item>, limits: Limits) {
    && (limits.maxItems == 0 || |items| <= limits.maxItems)
    && (limits.memoryLimitBytes == 0 || |items| <= 1 || Total(items) <= limits.memoryLimitBytes)
  }

  /** `items[k..]` is the longest suffix that fits. */
  ghost predicate LongestFit(items: seq<Item>, k: nat, limits: Limits)
    requires k <= |items|
  {
    Fits(items[k..], limits) && forall j | 0 <= j < k :: !Fits(items[j..], limits)
  }

  lemma {:induction false} TotalAppend(items: seq<Item>, x: Item)
    ensures Total(items + [x]) == Total(items) + ItemBytes(x)
  {
    if items == [] {
      assert ([] + [x])[1..] == [];
    } else {
      assert (items + [x])[1..] == items[1..] + [x];
      TotalAppend(items[1..], x);
    }
  }

  /** Saturating addition adds up to the true total cut at 2^64 - 1. */
  lemma {:induction false} SaturatedIsCut(items: seq<Item>)
    ensures SaturatedTotal(items) == if Total(items) > U64_MAX then U64_MAX else Total(items)
  {
    if items != [] {
      var init, last := items[..|items| - 1], items[|items| - 1];
      assert items == init + [last];
      SaturatedIsCut(init);
      TotalAppend(init, last);
    }
  }

  /** More than one item, and more than `limit` bytes; the limit may pass 64 bits. */
  predicate OverBytes(items: seq<Item>, limit: nat) {
    |items| > 1 && Total(items) > limit
  }

  /** Eviction by a running total that is exact stops at the longest suffix within the limit. */
  lemma EvictsToFit(items: seq<Item>, limit: u64)
    requires Total(items) <= U64_MAX
    ensures var n := Evicted(items, Total(items), limit);
      !OverBytes(items[n..], limit) && forall j | 0 <= j < n :: OverBytes(items[j..], limit)
  {
    EvictsToRaisedLimit(items, Total(items), limit, 0);
  }

  /** What is left when the count is met and the bytes are about to be counted. */
  function Counted(items: seq<Item>, limits: Limits, now: int): seq<Item> {
    var young := Young(items, limits, now);
    young[OverCount(young, limits)..]
  }

  /** Too old is learned more than the limit ago; a limit of zero, or past the clock's range, is none. */
  lemma TooOldExactly(x: Item, limits: Limits, now: int)
    ensures TooOld(x, limits, now) <==>
      limits.maxAgeSeconds != 0 && limits.maxAgeSeconds <= 0x7FFF_FFFF_FFFF_FFFF
      && now - x.learned > limits.maxAgeSeconds * 1_000_000_000
  {}

  function PayloadBytes(items: seq<Item>): nat {
    if items == [] then 0 else |items[0].payload.encoded| + PayloadBytes(items[1..])
  }

  /** The estimate is 256 bytes an item and the bytes of the payloads. */
  lemma {:induction false} TotalIs(items: seq<Item>)
    ensures Total(items) == 256 * |items| + PayloadBytes(items)
  {
    if items != [] {
      TotalIs(items[1..]);
    }
  }

  /** None of the longer suffixes fits. */
  lemma DroppedNeverFits(young: seq<Item>, limits: Limits, j: nat)
    requires j < Dropped(young, limits) && Total(young[OverCount(young, limits)..]) <= U64_MAX
    ensures !Fits(young[j..], limits)
  {
    var n := OverCount(young, limits);
    if n <= j {
      var rest := young[n..];
      SaturatedIsCut(rest);
      EvictsToFit(rest, limits.memoryLimitBytes);
      assert rest[j - n..] == young[j..];
      assert OverBytes(rest[j - n..], limits.memoryLimitBytes);
    }
  }

  /** The suffix left by an exact running total is within the byte limit. */
  lemma EvictionEnds(rest: seq<Item>, bytes: u64)
    requires Total(rest) <= U64_MAX
    ensures !OverBytes(rest[Evicted(rest, SaturatedTotal(rest), bytes)..], bytes)
  {
    SaturatedIsCut(rest);
    EvictsToFit(rest, bytes);
  }

  lemma SuffixOfSuffix(q: seq<Item>, n: nat, m: nat)
    requires n + m <= |q|
    ensures q[n..][m..] == q[n + m..]
  {}

  lemma KeptFits(young: seq<Item>, limits: Limits)
    requires Total(young[OverCount(young, limits)..]) <= U64_MAX
    ensures Fits(young[Dropped(young, limits)..], limits)
  {
    var n := OverCount(young, limits);
    if limits.memoryLimitBytes != 0 {
      var m := Evicted(young[n..], SaturatedTotal(young[n..]), limits.memoryLimitBytes);
      EvictionEnds(young[n..], limits.memoryLimitBytes);
      SuffixOfSuffix(young, n, m);
    }
  }

  /** The limits keep exactly the longest suffix of the age survivors that fits. */
  lemma KeepsTheLongestSuffix(items: seq<Item>, limits: Limits, now: int)
    requires Total(Counted(items, limits, now)) <= U64_MAX
    ensures var young := Young(items, limits, now);
      LongestFit(young, Dropped(young, limits), limits) && Limited(items, limits, now).0 == young[Dropped(young, limits)..]
  {
    var young := Young(items, limits, now);
    KeptFits(young, limits);
    forall j | 0 <= j < Dropped(young, limits) ensures !Fits(young[j..], limits) {
      DroppedNeverFits(young, limits, j);
    }
  }

  /**
   The 64-bit condition is exact: with two or more items left to weigh, the rule is met for
   every memory limit if and only if the true total fits in 64 bits.
   */
  lemma SaturationIsTheOnlyLoss(items: seq<Item>, limits: Limits, now: int)
    requires |Counted(items, limits, now)| >= 2
    ensures (forall bytes: u64 ::
               var l := limits.(memoryLimitBytes := bytes);
               LongestFit(Young(items, l, now), Dropped(Young(items, l, now), l), l))
        <==> Total(Counted(items, limits, now)) <= U64_MAX
  {
    forall bytes: u64
      ensures Young(items, limits.(memoryLimitBytes := bytes), now) == Young(items, limits, now)
    {
      YoungIgnoresBytes(items, limits, bytes, now);
    }
    if Total(Counted(items, limits, now)) <= U64_MAX {
      forall bytes: u64
        ensures var l := limits.(memoryLimitBytes := bytes);
          LongestFit(Young(items, l, now), Dropped(Young(items, l, now), l), l)
      {
        KeepsTheLongestSuffix(items, limits.(memoryLimitBytes := bytes), now);
      }
    } else {
      var l := limits.(memoryLimitBytes := U64_MAX);
      var rest := Counted(items, limits, now);
      SaturatedIsCut(rest);
      assert Evicted(rest, SaturatedTotal(rest), U64_MAX) == 0;
      assert !Fits(rest, l);
      assert !LongestFit(Young(items, l, now), Dropped(Young(items, l, now), l), l);
    }
  }

  // ---- What one limit keeps too much of ----

  /** How far the true total passes what 64 bits hold. */
  function Excess(items: seq<Item>): nat {
    if Total(items) > U64_MAX then Total(items) - U64_MAX else 0
  }

  /** A running total that starts short by `short` evicts as an exact one would for a limit that much higher. */
  lemma {:induction false} EvictsToRaisedLimit(items: seq<Item>, total: u64, limit: u64, short: nat)
    requires total == if Total(items) > short then Total(items) - short else 0
    ensures var n := Evicted(items, total, limit);
      !OverBytes(items[n..], limit + short) && forall j | 0 <= j < n :: OverBytes(items[j..], limit + short)
  {
    assert items[0..] == items;
    if |items| > 1 && total > limit {
      var rest := items[1..];
      var total' := if ItemBytes(items[0]) >= total then 0 else total - ItemBytes(items[0]);
      EvictsToRaisedLimit(rest, total', limit, short);
      OneMoreEvicted(items, Evicted(rest, total', limit), limit + short);
    }
  }

  lemma OneMoreEvicted(items: seq<Item>, n: nat, limit: nat)
    requires items != [] && OverBytes(items, limit) && n <= |items[1..]|
    requires !OverBytes(items[1..][n..], limit) && forall j | 0 <= j < n :: OverBytes(items[1..][j..], limit)
    ensures !OverBytes(items[1 + n..], limit) && forall j | 0 <= j < 1 + n :: OverBytes(items[j..], limit)
  {
    assert items[1..][n..] == items[1 + n..] && items[0..] == items;
    forall j | 1 <= j < 1 + n ensures OverBytes(items[j..], limit) {
      assert items[1..][j - 1..] == items[j..];
    }
  }

  lemma {:induction false} SuffixTotals(items: seq<Item>, i: nat, j: nat)
    requires i <= j <= |items|
    ensures Total(items[j..]) <= Total(items[i..])
  {
    if i < j {
      SuffixTotals(items, i, j - 1);
      assert items[j - 1..][1..] == items[j..];
    }
  }

  /** The suffix `items[j..]` passes the limit by no more than what saturation lost. */
  predicate Overshoots(items: seq<Item>, j: nat, limit: u64) {
    j + 1 < |items| && limit < Total(items[j..]) <= limit + Excess(items)
  }

  lemma EvictionExact(rest: seq<Item>, limit: u64)
    ensures var n := Evicted(rest, SaturatedTotal(rest), limit);
      !OverBytes(rest[n..], limit) <==> forall j: nat :: !Overshoots(rest, j, limit)
    ensures forall j | 0 <= j < Evicted(rest, SaturatedTotal(rest), limit) :: OverBytes(rest[j..], limit)
  {
    SaturatedIsCut(rest);
    EvictsToRaisedLimit(rest, SaturatedTotal(rest), limit, Excess(rest));
    var n := Evicted(rest, SaturatedTotal(rest), limit);
    if OverBytes(rest[n..], limit) {
      assert Overshoots(rest, n, limit);
    }
    forall j: nat | Overshoots(rest, j, limit) ensures OverBytes(rest[n..], limit) {
      if n <= j {
        SuffixTotals(rest, n, j);
      }
    }
  }

  /** None of the longer suffixes fits, saturation or not. */
  lemma LongerNeverFits(young: seq<Item>, limits: Limits, j: nat)
    requires limits.memoryLimitBytes != 0 && j < Dropped(young, limits)
    ensures !Fits(young[j..], limits)
  {
    var n := OverCount(young, limits);
    if n <= j {
      EvictedSuffix(young[n..], limits.memoryLimitBytes, j - n);
      SuffixOfSuffix(young, n, j - n);
    }
  }

  lemma EvictedSuffix(rest: seq<Item>, limit: u64, i: nat)
    requires i < Evicted(rest, SaturatedTotal(rest), limit)
    ensures OverBytes(rest[i..], limit)
  {
    EvictionExact(rest, limit);
  }

  lemma KeptFitsExactly(young: seq<Item>, limits: Limits)
    requires limits.memoryLimitBytes != 0
    ensures var rest := young[OverCount(young, limits)..];
      Fits(young[Dropped(young, limits)..], limits) <==> forall j: nat :: !Overshoots(rest, j, limits.memoryLimitBytes)
  {
    var n := OverCount(young, limits);
    var m := OverBytesBy(young[n..], limits);
    EvictionExact(young[n..], limits.memoryLimitBytes);
    SuffixOfSuffix(young, n, m);
  }

  /**
   For one byte limit: what is kept is the longest suffix that fits if and only if no suffix of two or
   more of the items weighed passes the limit by at most what the saturated total fell short of the true one.
   */
  lemma KeepsTooMuchExactly(items: seq<Item>, limits: Limits, now: int)
    requires limits.memoryLimitBytes != 0
    ensures var young := Young(items, limits, now);
      LongestFit(young, Dropped(young, limits), limits) <==>
      forall j: nat :: !Overshoots(Counted(items, limits, now), j, limits.memoryLimitBytes)
  {
    var young := Young(items, limits, now);
    var d := Dropped(young, limits);
    KeptFitsExactly(young, limits);
    forall j | 0 <= j < d ensures !Fits(young[j..], limits) {
      LongerNeverFits(young, limits, j);
    }
    assert LongestFit(young, d, limits) <==> Fits(young[d..], limits);
    assert Counted(items, limits, now) == young[OverCount(young, limits)..];
  }

  lemma {:induction false} YoungIgnoresBytes(items: seq<Item>, limits: Limits, bytes: u64, now: int)
    ensures Young(items, limits.(memoryLimitBytes := bytes), now) == Young(items, limits, now)
  {
    if items != [] {
      YoungIgnoresBytes(items[..|items| - 1], limits, bytes, now);
    }
  }

  lemma NoLimitsKeepAll(items: seq<Item>, off: Limits, now: int)
    requires off == Limits(0, 0, 0)
    ensures Limited(items, off, now) == (items, [])
  {
    NoAgeLimit(items, off, now);
    DropNothing(items);
    assert OverCount(items, off) == 0 && OverBytesBy(items, off) == 0;
    calc {
      Limited(items, off, now).1;
      RemovedAll([]) + RemovedAll([]) + RemovedAll([]);
      [];
    }
  }

  lemma DropNothing(items: seq<Item>)
    ensures items[0..] == items && items[..0] == []
  {}

  lemma {:induction false} NoAgeLimit(items: seq<Item>, limits: Limits, now: int)
    requires !(0 < limits.maxAgeSeconds <= MAX_SUPPORTED_AGE_SECONDS)
    ensures Young(items, limits, now) == items && Aged(items, limits, now) == []
  {
    if items != [] {
      var init, last := items[..|items| - 1], items[|items| - 1];
      NoAgeLimit(init, limits, now);
      assert !TooOld(last, limits, now);
      assert items == init + [last];
    }
  }

  // ---- The update log ----

  function Ids(items: seq<Item>): set<nat> {
    set x | x in items :: x.id
  }

  /** The ids a watcher knows after hearing the updates. */
  function Seen(ids: set<nat>, updates: seq<Update>): set<nat> {
    if updates == [] then ids
    else
      var before := Seen(ids, updates[..|updates| - 1]);
      match updates[|updates| - 1]
      case Added(id) => before + {id}
      case Removed(id) => before - {id}
      case Cleared => {}
      case Moved(id) => before
  }

  lemma {:induction false} SeenConcat(ids: set<nat>, a: seq<Update>, b: seq<Update>)
    ensures Seen(ids, a + b) == Seen(Seen(ids, a), b)
  {
    if b == [] {
      assert a + b == a;
    } else {
      SeenConcat(ids, a, b[..|b| - 1]);
      assert (a + b)[..|a + b| - 1] == a + b[..|b| - 1];
    }
  }

  lemma {:induction false} SeenRemoved(ids: set<nat>, items: seq<Item>)
    ensures Seen(ids, RemovedAll(items)) == ids - Ids(items)
  {
    if items != [] {
      var init, last := items[..|items| - 1], items[|items| - 1];
      SeenRemoved(ids, init);
      assert RemovedAll(items)[..|items| - 1] == RemovedAll(init);
      assert items == init + [last];
      assert Ids(items) == Ids(init) + {last.id};
    }
  }

  lemma {:induction false} YoungOrAged(items: seq<Item>, limits: Limits, now: int)
    ensures forall x :: x in Young(items, limits, now) <==> x in items && !TooOld(x, limits, now)
    ensures forall x :: x in Aged(items, limits, now) <==> x in items && TooOld(x, limits, now)
  {
    if items != [] {
      YoungOrAged(items[..|items| - 1], limits, now);
      assert items == items[..|items| - 1] + [items[|items| - 1]];
    }
  }

  lemma IdsSplit(items: seq<Item>, kept: seq<Item>, gone: seq<Item>)
    requires DistinctIds(items)
    requires forall x :: x in items <==> x in kept || x in gone
    requires forall x :: !(x in kept && x in gone)
    ensures Ids(items) - Ids(gone) == Ids(kept)
  {}

  lemma SplitDisjoint(items: seq<Item>, k: nat)
    requires DistinctIds(items) && k <= |items|
    ensures forall x :: x in items <==> x in items[k..] || x in items[..k]
    ensures forall x :: !(x in items[k..] && x in items[..k])
  {}

  /** Dropping the last item, or putting it back, one at a time. */
  lemma AppendKeeps(y: seq<Item>, init: seq<Item>, last: Item, next: nat)
    requires WellFormed(y, next) && WellFormed(init + [last], next)
    requires forall x | x in y :: x in init
    ensures WellFormed(y + [last], next)
  {
    var items := init + [last];
    assert items[|init|] == last;
    forall i | 0 <= i < |y|
      ensures y[i].id != last.id && y[i].payload.timestamp <= last.payload.timestamp
      ensures y[i].payload.guid != ZERO_GUID ==> y[i].payload.guid != last.payload.guid
    {
      assert y[i] in init;
      var j :| 0 <= j < |init| && init[j] == y[i];
      assert items[j] == init[j];
    }
  }

  lemma PrefixKeeps(init: seq<Item>, last: Item, next: nat)
    requires WellFormed(init + [last], next)
    ensures WellFormed(init, next)
  {
    var items := init + [last];
    assert forall i | 0 <= i < |init| :: items[i] == init[i];
  }

  lemma {:induction false} YoungKeeps(items: seq<Item>, limits: Limits, now: int, next: nat)
    requires WellFormed(items, next)
    ensures WellFormed(Young(items, limits, now), next)
  {
    if items != [] {
      var init, last := items[..|items| - 1], items[|items| - 1];
      assert items == init + [last];
      PrefixKeeps(init, last, next);
      YoungKeeps(init, limits, now, next);
      YoungOrAged(init, limits, now);
      AppendKeeps(Young(init, limits, now), init, last, next);
    }
  }

  /** Limits keep the list well formed, and their updates name exactly the items that went. */
  lemma LimitedKeeps(items: seq<Item>, limits: Limits, now: int, next: nat)
    requires WellFormed(items, next)
    ensures var (kept, updates) := Limited(items, limits, now);
      WellFormed(kept, next) && Seen(Ids(items), updates) == Ids(kept) && |updates| == |items| - |kept|
  {
    var young, aged := Young(items, limits, now), Aged(items, limits, now);
    YoungKeeps(items, limits, now, next);
    YoungOrAged(items, limits, now);
    IdsSplit(items, young, aged);
    SeenRemoved(Ids(items), aged);
    SizesAddUp(items, limits, now);
    var n := OverCount(young, limits);
    SuffixKeeps(young, n, next);
    var m := OverBytesBy(young[n..], limits);
    SuffixKeeps(young[n..], m, next);
    SeenConcat(Ids(items), RemovedAll(aged), RemovedAll(young[..n]));
    SeenConcat(Ids(items), RemovedAll(aged) + RemovedAll(young[..n]), RemovedAll(young[n..][..m]));
  }

  /** Dropping the oldest. */
  lemma SuffixKeeps(items: seq<Item>, k: nat, next: nat)
    requires WellFormed(items, next) && k <= |items|
    ensures WellFormed(items[k..], next)
    ensures Seen(Ids(items), RemovedAll(items[..k])) == Ids(items[k..])
  {
    SplitDisjoint(items, k);
    IdsSplit(items, items[k..], items[..k]);
    SeenRemoved(Ids(items), items[..k]);
  }

  lemma {:induction false} SizesAddUp(items: seq<Item>, limits: Limits, now: int)
    ensures |Young(items, limits, now)| + |Aged(items, limits, now)| == |items|
  {
    if items != [] {
      SizesAddUp(items[..|items| - 1], limits, now);
    }
  }

  lemma AddIds(items: seq<Item>, next: nat, p: Payload, now: int)
    requires WellFormed(items, next)
    ensures var r := AddEvent(items, next, p, now);
      !IsEcho(items, p) ==> Ids(r.items) == Ids(items) + {r.id}
  {
    var r := AddEvent(items, next, p, now);
    AddMembers(items, next, p, now);
    if !IsEcho(items, p) {
      forall id | id in Ids(items) ensures id in Ids(r.items) {
        var x :| x in items && x.id == id;
        assert x in r.items || Item(r.id, now, p) in r.items;
      }
      assert Item(r.id, now, p) in r.items;
    }
  }

  /** Updates of an addition let a watcher follow the ids. */
  lemma AddSeen(items: seq<Item>, next: nat, p: Payload, now: int)
    requires WellFormed(items, next)
    ensures var r := AddEvent(items, next, p, now); Seen(Ids(items), r.updates) == Ids(r.items)
  {
    var k := if p.guid == ZERO_GUID then |items| else FindEvent(items, p.guid);
    var r := AddEvent(items, next, p, now);
    AddIds(items, next, p, now);
    if r.updates != [] {
      assert r.updates[..0] == [];
      if k < |items| {
        assert items[k] in items;
      }
    }
  }
}
