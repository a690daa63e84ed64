/**
 The clipboard activity store (src/ClipboardActivityStore.cpp): the list, the id counter and
 the limits as fields updated in place. Each method returns the updates its watchers are told.
 */
module ActivityStore {
  import opened Machine
  import opened ActivityList
  import opened ActivityLimits
  import Sequences

  /** An arriving payload: nothing for a null or empty one, no more than its id for an echo. */
  function Arrive(items: seq<Item>, next: nat, limits: Limits, payload: Option<Payload>, now: int): AddResult {
    if payload.None? || payload.value.formatId == FORMAT_NONE then AddResult(items, next, 0, [])
    else
      var r := AddEvent(items, next, payload.value, now);
      if r.updates == [] then r
      else
        var (kept, updates) := Limited(r.items, limits, now);
        AddResult(kept, r.next, r.id, r.updates + updates)
  }

  lemma ArriveKeeps(items: seq<Item>, next: nat, limits: Limits, payload: Option<Payload>, now: int)
    requires WellFormed(items, next)
    ensures var r := Arrive(items, next, limits, payload, now);
      WellFormed(r.items, r.next) && Seen(Ids(items), r.updates) == Ids(r.items)
  {
    if payload.Some? && payload.value.formatId != FORMAT_NONE {
      AddKeeps(items, next, payload.value, now);
      AddSeen(items, next, payload.value, now);
      var r := AddEvent(items, next, payload.value, now);
      LimitedKeeps(r.items, limits, now, r.next);
      SeenConcat(Ids(items), r.updates, Limited(r.items, limits, now).1);
    }
  }

  // ---- What an arrival leaves ----

  /** The age survivors: of the others and the new item, in order, those learned within the limit. */
  ghost predicate Survivors(items: seq<Item>, next: nat, limits: Limits, p: Payload, now: int, id: nat, young: seq<Item>) {
    && WellFormed(young, next)
    && forall x :: x in young <==>
         && (x == Item(id, now, p) || (x in items && !Replaced(x, p)))
         && !(0 < limits.maxAgeSeconds <= MAX_SUPPORTED_AGE_SECONDS && now - x.learned > limits.maxAgeSeconds * 1_000_000_000)
  }

  /** The suffix from `j` has too many items, or more than one and too many bytes. */
  predicate TooMuch(all: seq<Item>, j: nat, limits: Limits)
    requires j <= |all|
  {
    || (limits.maxItems != 0 && |all| - j > limits.maxItems)
    || (limits.memoryLimitBytes != 0 && |all| - j > 1 && 256 * (|all| - j) + PayloadBytes(all[j..]) > limits.memoryLimitBytes)
  }

  /** `kept` is the longest suffix of `all` that is not too much. */
  ghost predicate LongestThatFits(all: seq<Item>, kept: seq<Item>, limits: Limits) {
    exists k | 0 <= k <= |all| :: kept == all[k..] && !TooMuch(all, k, limits) && forall j | 0 <= j < k :: TooMuch(all, j, limits)
  }

  lemma FitsIs(all: seq<Item>, j: nat, limits: Limits)
    requires j <= |all|
    ensures Fits(all[j..], limits) <==> !TooMuch(all, j, limits)
  {
    TotalIs(all[j..]);
  }

  lemma LongestFitIs(all: seq<Item>, k: nat, limits: Limits)
    requires k <= |all| && LongestFit(all, k, limits)
    ensures LongestThatFits(all, all[k..], limits)
  {
    FitsIs(all, k, limits);
    forall j | 0 <= j < k ensures TooMuch(all, j, limits) {
      FitsIs(all, j, limits);
    }
  }

  lemma YoungAreSurvivors(items: seq<Item>, next: nat, limits: Limits, p: Payload, now: int)
    requires WellFormed(items, next) && !OldCopy(items, p)
    ensures var r := AddEvent(items, next, p, now);
      Survivors(items, r.next, limits, p, now, r.id, Young(r.items, limits, now))
  {
    var r := AddEvent(items, next, p, now);
    AddKeeps(items, next, p, now);
    AddedMembers(items, next, p, now);
    YoungKeeps(r.items, limits, now, r.next);
    YoungOrAged(r.items, limits, now);
    forall x ensures TooOld(x, limits, now) <==>
      0 < limits.maxAgeSeconds <= MAX_SUPPORTED_AGE_SECONDS && now - x.learned > limits.maxAgeSeconds * 1_000_000_000
    {
      TooOldExactly(x, limits, now);
    }
  }

  lemma AddedMembers(items: seq<Item>, next: nat, p: Payload, now: int)
    requires WellFormed(items, next) && !OldCopy(items, p)
    ensures var r := AddEvent(items, next, p, now);
      forall x :: x in r.items <==> x == Item(r.id, now, p) || (x in items && !Replaced(x, p))
  {
    var r, others := AddEvent(items, next, p, now), Others(items, p);
    AddedPlace(items, next, p, now);
    OthersMembers(items, p);
    var i :| 0 <= i <= |others| && r.items == others[..i] + [Item(r.id, now, p)] + others[i..];
    SpliceMembers(others, i, Item(r.id, now, p));
  }

  lemma SpliceMembers(q: seq<Item>, i: nat, y: Item)
    requires i <= |q|
    ensures forall x :: x in q[..i] + [y] + q[i..] <==> x == y || x in q
  {
    assert q == q[..i] + q[i..];
  }

  lemma {:induction false} OthersMembers(items: seq<Item>, p: Payload)
    ensures forall x :: x in Others(items, p) <==> x in items && !Replaced(x, p)
  {
    if items != [] {
      OthersMembers(items[..|items| - 1], p);
      assert items == items[..|items| - 1] + [items[|items| - 1]];
    }
  }

  lemma LimitedRemoves(items: seq<Item>, limits: Limits, now: int)
    ensures forall i | 0 <= i < |Limited(items, limits, now).1| :: Limited(items, limits, now).1[i].Removed?
  {}

  lemma ArriveAdds(items: seq<Item>, next: nat, limits: Limits, p: Payload, now: int)
    requires WellFormed(items, next) && p.formatId != FORMAT_NONE && !OldCopy(items, p)
    ensures var added := AddEvent(items, next, p, now); var (kept, updates) := Limited(added.items, limits, now);
      |added.updates| == 1
      && Arrive(items, next, limits, Some(p), now) == AddResult(kept, added.next, added.id, added.updates + updates)
  {
    AddedPlace(items, next, p, now);
  }

  lemma LimitedIsLongest(items: seq<Item>, limits: Limits, now: int)
    requires Total(Counted(items, limits, now)) <= U64_MAX
    ensures LongestThatFits(Young(items, limits, now), Limited(items, limits, now).0, limits)
  {
    var young := Young(items, limits, now);
    KeepsTheLongestSuffix(items, limits, now);
    LongestFitIs(young, Dropped(young, limits), limits);
  }

  /**
   After every arrival that is not an old copy the list is the longest suffix of the age survivors
   that meets the count and byte limits, while their true total fits in 64 bits.
   */
  lemma ArrivalIsLimited(items: seq<Item>, next: nat, limits: Limits, p: Payload, now: int) returns (young: seq<Item>)
    requires WellFormed(items, next) && p.formatId != FORMAT_NONE && !OldCopy(items, p)
    requires Total(Counted(AddEvent(items, next, p, now).items, limits, now)) <= U64_MAX
    ensures var r := Arrive(items, next, limits, Some(p), now);
      Survivors(items, r.next, limits, p, now, r.id, young) && LongestThatFits(young, r.items, limits)
  {
    var added := AddEvent(items, next, p, now);
    young := Young(added.items, limits, now);
    ArriveAdds(items, next, limits, p, now);
    YoungAreSurvivors(items, next, limits, p, now);
    LimitedIsLongest(added.items, limits, now);
  }

  /** Its updates are one for the item -- added, or moved under its old id -- and a removal for each that went. */
  lemma ArrivalUpdates(items: seq<Item>, next: nat, limits: Limits, p: Payload, now: int)
    requires WellFormed(items, next) && p.formatId != FORMAT_NONE && !OldCopy(items, p)
    ensures var r := Arrive(items, next, limits, Some(p), now); var moved := exists x :: x in items && Replaced(x, p);
      && r.updates != [] && r.updates[0] == (if moved then Moved(r.id) else Added(r.id))
      && (if moved then r.next == next && exists x :: x in items && Replaced(x, p) && x.id == r.id
          else r.next == next + 1 && r.id == next)
      && |r.items| + |r.updates| == |items| + (if moved then 1 else 2)
      && forall i | 1 <= i < |r.updates| :: r.updates[i].Removed?
  {
    var added := AddEvent(items, next, p, now);
    ArriveAdds(items, next, limits, p, now);
    AddedPlace(items, next, p, now);
    AddKeeps(items, next, p, now);
    LimitedKeeps(added.items, limits, now, added.next);
    LimitedRemoves(added.items, limits, now);
    AddedSize(items, next, p, now);
  }

  lemma AddedSize(items: seq<Item>, next: nat, p: Payload, now: int)
    requires WellFormed(items, next) && !OldCopy(items, p)
    ensures |AddEvent(items, next, p, now).items| == |items| + if exists x :: x in items && Replaced(x, p) then 0 else 1
  {
    EchoExact(items, next, p);
    FoundFirst(items, p.guid);
    var k := FindEvent(items, p.guid);
    if p.guid != ZERO_GUID && k < |items| {
      assert items[k] in items;
    }
  }

  /** Nothing comes of a null or empty payload, and of an old copy only the listed item's id. */
  lemma NothingArrives(items: seq<Item>, next: nat, limits: Limits, payload: Option<Payload>, now: int)
    requires WellFormed(items, next)
    requires payload.None? || payload.value.formatId == FORMAT_NONE || OldCopy(items, payload.value)
    ensures var r := Arrive(items, next, limits, payload, now);
      && r.items == items && r.next == next && r.updates == []
      && (if payload.None? || payload.value.formatId == FORMAT_NONE then r.id == 0
          else exists x :: x in items && Replaced(x, payload.value) && x.id == r.id)
  {
    if payload.Some? && payload.value.formatId != FORMAT_NONE {
      EchoExact(items, next, payload.value);
      assert items[FindEvent(items, payload.value.guid)] in items;
    }
  }

  /** With the limits off an arrival is exactly an addition to the list. */
  lemma ArriveWithoutLimits(items: seq<Item>, next: nat, off: Limits, p: Payload, now: int)
    requires off == Limits(0, 0, 0) && p.formatId != FORMAT_NONE
    ensures Arrive(items, next, off, Some(p), now) == AddEvent(items, next, p, now)
  {
    NoLimitsKeepAll(AddEvent(items, next, p, now).items, off, now);
    var updates := AddEvent(items, next, p, now).updates;
    assert updates + [] == updates;
  }

  // ---- Replay ----

  function PayloadsOf(items: seq<Item>): (r: seq<Payload>)
    ensures |r| == |items| && forall i | 0 <= i < |items| :: r[i] == items[i].payload
  {
    seq(|items|, i requires 0 <= i < |items| => items[i].payload)
  }

  /** At most n of the payloads from k on. */
  function Page(items: seq<Item>, k: nat, n: nat): seq<Payload>
    requires k <= |items|
  {
    PayloadsOf(items[k..][..if |items| - k > n then n else |items| - k])
  }

  /** Where a replay starts: just after the anchor, or far enough back to send the newest. */
  function ReplayFrom(items: seq<Item>, from: Guid, maxItems: nat): (k: nat)
    ensures k <= |items|
  {
    if from != ZERO_GUID && FindEvent(items, from) < |items| then FindEvent(items, from) + 1
    else if |items| > maxItems then |items| - maxItems else 0
  }

  function Replay(items: seq<Item>, from: Guid, maxItems: nat): seq<Payload> {
    Page(items, ReplayFrom(items, from, maxItems), maxItems)
  }

  /** A replay anchored at the item before `k`. */
  lemma ReplayAfter(items: seq<Item>, from: Guid, k: nat, n: nat)
    requires from != ZERO_GUID && k <= |items| && FindEvent(items, from) == k - 1
    ensures Replay(items, from, n) == Page(items, k, n)
  {}

  /** Without an anchor that is listed, a replay is the newest payloads, oldest first. */
  lemma ReplayNewest(items: seq<Item>, from: Guid, n: nat)
    requires from == ZERO_GUID || forall x | x in items :: x.payload.guid != from
    ensures var q := Replay(items, from, n);
      && |q| == (if |items| > n then n else |items|)
      && forall i | 0 <= i < |q| :: q[i] == items[|items| - |q| + i].payload
  {
    if from != ZERO_GUID {
      FoundAt(items, from, |items|);
    }
  }

  /** With one, it is the payloads behind it, oldest first. */
  lemma ReplayBehind(items: seq<Item>, from: Guid, n: nat, k: nat)
    requires DistinctEvents(items) && from != ZERO_GUID && k < |items| && items[k].payload.guid == from
    ensures var q := Replay(items, from, n);
      && |q| == (if |items| - k - 1 > n then n else |items| - k - 1)
      && forall i | 0 <= i < |q| :: q[i] == items[k + 1 + i].payload
  {
    EventAt(items, k);
  }

  /** The last event of a full page is found where the page ends. */
  lemma LastFound(items: seq<Item>, k: nat, page: seq<Payload>)
    requires DistinctEvents(items) && k + |page| <= |items| && page == Page(items, k, |page|)
    requires page != [] && page[|page| - 1].guid != ZERO_GUID
    ensures FindEvent(items, page[|page| - 1].guid) == k + |page| - 1
  {
    var last := k + |page| - 1;
    PageLast(items, k, |page|);
    assert page[|page| - 1].guid == items[last].payload.guid;
    EventAt(items, last);
  }

  lemma FullPageJoins(items: seq<Item>, from: Guid, last: Guid, k: nat, page: seq<Payload>, n: nat)
    requires from != ZERO_GUID && last != ZERO_GUID && k + |page| <= |items| && page == Page(items, k, |page|)
    requires FindEvent(items, from) == k - 1 && FindEvent(items, last) == k + |page| - 1
    ensures page + Replay(items, last, n) == Replay(items, from, |page| + n)
  {
    ReplayAfter(items, last, k + |page|, n);
    ReplayAfter(items, from, k, |page| + n);
    Joined(items, k, page, Replay(items, last, n), n, Replay(items, from, |page| + n));
  }

  lemma ShortPage(items: seq<Item>, k: nat, m: nat)
    requires k <= |items|
    ensures var page := Page(items, k, m); k + |page| <= |items| && page == Page(items, k, |page|)
  {}

  /**
   Replay is gapless: the page after the last event of one page continues it, so two requests
   return what one larger request would.
   */
  lemma PagesJoin(items: seq<Item>, from: Guid, page: seq<Payload>, m: nat, n: nat)
    requires DistinctEvents(items) && from != ZERO_GUID && FindEvent(items, from) < |items|
    requires page == Replay(items, from, m) && page != [] && page[|page| - 1].guid != ZERO_GUID
    ensures page + Replay(items, page[|page| - 1].guid, n) == Replay(items, from, |page| + n)
  {
    var k := FindEvent(items, from) + 1;
    ReplayAfter(items, from, k, m);
    ShortPage(items, k, m);
    LastFound(items, k, page);
    FullPageJoins(items, from, page[|page| - 1].guid, k, page, n);
  }

  lemma PageLast(items: seq<Item>, k: nat, n: nat)
    requires k + n <= |items|
    ensures |Page(items, k, n)| == n && (n > 0 ==> Page(items, k, n)[n - 1] == items[k + n - 1].payload)
  {}

  lemma EventAt(items: seq<Item>, i: nat)
    requires DistinctEvents(items) && i < |items| && items[i].payload.guid != ZERO_GUID
    ensures FindEvent(items, items[i].payload.guid) == i
  {
    var guid := items[i].payload.guid;
    forall j | 0 <= j < i ensures items[j].payload.guid != guid {}
    FoundAt(items, guid, i);
  }

  lemma Joined(items: seq<Item>, k: nat, page: seq<Payload>, rest: seq<Payload>, n: nat, whole: seq<Payload>)
    requires k + |page| <= |items| && page == Page(items, k, |page|)
    requires rest == Page(items, k + |page|, n) && whole == Page(items, k, |page| + n)
    ensures page + rest == whole
  {}

  class ActivityStore {
    var items: seq<Item>
    var nextItemId: nat
    var limits: Limits

    ghost predicate Valid()
      reads this
    {
      WellFormed(items, nextItemId)
    }

    constructor (limits: Limits)
      ensures Valid() && items == [] && nextItemId == 1 && this.limits == limits
    {
      items, nextItemId, this.limits := [], 1, limits;
    }

    // ---- Limits ----

    /** `base` is what the updates already hold. */
    method ApplyLimits(now: int, base: seq<Update>) returns (updates: seq<Update>)
      modifies this`items
      ensures items == Limited(old(items), limits, now).0
      ensures updates == base + Limited(old(items), limits, now).1
    {
      items, updates := LimitItems(items, limits, now, base);
    }

    method SetLimits(memoryLimitBytes: u64, maxAgeSeconds: u64, maxItems: u64, now: int) returns (updates: seq<Update>)
      requires Valid()
      modifies this`items, this`limits
      ensures Valid() && limits == Limits(memoryLimitBytes, maxAgeSeconds, maxItems)
      ensures (items, updates) == Limited(old(items), limits, now)
      ensures Seen(Ids(old(items)), updates) == Ids(items)
    {
      limits := Limits(memoryLimitBytes, maxAgeSeconds, maxItems);
      LimitedKeeps(items, limits, now, nextItemId);
      updates := ApplyLimits(now, []);
      Sequences.AppendNone(Limited(old(items), limits, now).1);
    }

    method Snapshot(now: int) returns (snapshot: seq<Item>, updates: seq<Update>)
      requires Valid()
      modifies this`items
      ensures Valid() && snapshot == items
      ensures (items, updates) == Limited(old(items), limits, now)
      ensures Seen(Ids(old(items)), updates) == Ids(items)
    {
      LimitedKeeps(items, limits, now, nextItemId);
      updates := ApplyLimits(now, []);
      Sequences.AppendNone(Limited(old(items), limits, now).1);
      snapshot := items;
    }

    // ---- Adding ----

    /** The insertion or relocation; no updates for an echo. */
    method AddUnlimited(p: Payload, now: int) returns (id: nat, updates: seq<Update>)
      requires Valid()
      modifies this`items, this`nextItemId
      ensures Valid()
      ensures AddResult(items, nextItemId, id, updates) == AddEvent(old(items), old(nextItemId), p, now)
    {
      AddKeeps(items, nextItemId, p, now);
      if p.guid != ZERO_GUID {
        var k := IndexOfEvent(items, p.guid);
        if k < |items| {
          if p.timestamp <= items[k].payload.timestamp {
            return items[k].id, [];
          }
          var moved := Item(items[k].id, now, p);
          RemoveKeeps(items, k, nextItemId);
          items := RemoveAt(items, k);
          var pos := LowerBoundOf(items, moved.payload.timestamp);
          items := InsertAt(items, pos, moved);
          return moved.id, [Moved(moved.id)];
        }
      }
      var item := Item(nextItemId, now, p);
      nextItemId := nextItemId + 1;
      var pos := LowerBoundOf(items, item.payload.timestamp);
      items := InsertAt(items, pos, item);
      return item.id, [Added(item.id)];
    }

    method AddItem(payload: Option<Payload>, now: int) returns (id: nat, updates: seq<Update>)
      requires Valid()
      modifies this`items, this`nextItemId
      ensures Valid()
      ensures AddResult(items, nextItemId, id, updates) == Arrive(old(items), old(nextItemId), limits, payload, now)
      ensures Seen(Ids(old(items)), updates) == Ids(items)
    {
      ArriveKeeps(items, nextItemId, limits, payload, now);
      if payload.None? || payload.value.formatId == FORMAT_NONE {
        return 0, [];
      }
      id, updates := AddUnlimited(payload.value, now);
      if updates == [] {
        return;
      }
      updates := ApplyLimits(now, updates);
    }

    // ---- Removing ----

    method Remove(id: nat) returns (removed: bool, updates: seq<Update>)
      requires Valid()
      modifies this`items
      ensures Valid() && removed == (id in Ids(old(items)))
      ensures Ids(items) == Ids(old(items)) - {id} && updates == if removed then [Removed(id)] else []
      ensures forall x :: x in items <==> x in old(items) && x.id != id
    {
      var k := IndexOfId(items, id);
      if k == |items| {
        return false, [];
      }
      RemoveKeeps(items, k, nextItemId);
      RemoveMembers(items, k);
      SameIdSameItem(items, nextItemId, items[k]);
      assert items[k] in items;
      items := RemoveAt(items, k);
      return true, [Removed(id)];
    }

    method RemoveByEventGuid(guid: Guid) returns (removed: bool, updates: seq<Update>)
      requires Valid()
      modifies this`items
      ensures Valid() && removed == (guid != ZERO_GUID && exists x :: x in old(items) && x.payload.guid == guid)
      ensures forall x :: x in items <==> x in old(items) && (x.payload.guid == guid ==> guid == ZERO_GUID)
      ensures Seen(Ids(old(items)), updates) == Ids(items)
    {
      if guid == ZERO_GUID {
        return false, [];
      }
      var k := IndexOfEvent(items, guid);
      FoundFirst(items, guid);
      if k == |items| {
        return false, [];
      }
      RemoveKeeps(items, k, nextItemId);
      RemoveMembers(items, k);
      OnlyCopy(items, nextItemId, k);
      SameIdSameItem(items, nextItemId, items[k]);
      assert items[k] in items;
      updates := [Removed(items[k].id)];
      assert updates[..0] == [];
      items := RemoveAt(items, k);
      removed := true;
    }

    method Clear() returns (updates: seq<Update>)
      requires Valid()
      modifies this`items
      ensures Valid() && items == [] && updates == if old(items) == [] then [] else [Cleared]
    {
      if items == [] {
        return [];
      }
      items := [];
      updates := [Cleared];
    }

    // ---- Queries ----

    method PayloadReference(id: nat) returns (payload: Option<Payload>)
      requires Valid()
      ensures payload.None? <==> id !in Ids(items)
      ensures payload.Some? ==> exists x :: x in items && x.id == id && x.payload == payload.value
    {
      var k := IndexOfId(items, id);
      if k == |items| {
        return None;
      }
      assert items[k] in items;
      return Some(items[k].payload);
    }

    method TailEventGuid() returns (guid: Guid)
      requires Valid()
      ensures items == [] ==> guid == ZERO_GUID
      ensures items != [] ==> exists x :: x in items && x.payload.guid == guid
                                       && forall y | y in items :: y.payload.timestamp <= x.payload.timestamp
    {
      if items == [] {
        return ZERO_GUID;
      }
      var x := items[|items| - 1];
      assert x in items;
      guid := x.payload.guid;
    }

    method ItemsSince(from: Guid, maxItems: u64) returns (result: seq<Payload>)
      requires Valid()
      ensures result == Replay(items, from, maxItems)
    {
      result := [];
      if maxItems == 0 || items == [] {
        return;
      }
      var start := if |items| > maxItems then |items| - maxItems else 0;
      if from != ZERO_GUID {
        var k := IndexOfEvent(items, from);
        if k < |items| {
          start := k + 1;
        }
      }
      result := TakePayloads(items, start, maxItems);
    }
  }

  // ---- Loops over the list ----

  method IndexOfEvent(items: seq<Item>, guid: Guid) returns (k: nat)
    ensures k == FindEvent(items, guid)
  {
    k := 0;
    while k < |items| && items[k].payload.guid != guid
      invariant k <= |items| && forall i | 0 <= i < k :: items[i].payload.guid != guid
    {
      k := k + 1;
    }
    FoundAt(items, guid, k);
  }

  method IndexOfId(items: seq<Item>, id: nat) returns (k: nat)
    ensures k == FindId(items, id)
  {
    k := 0;
    while k < |items| && items[k].id != id
      invariant k <= |items| && forall i | 0 <= i < k :: items[i].id != id
    {
      k := k + 1;
    }
  }

  /** `std::lower_bound` halves the range left to search; the list must be sorted for it to be right. */
  method LowerBoundOf(items: seq<Item>, timestamp: u64) returns (first: nat)
    requires Sorted(items)
    ensures first == LowerBound(items, timestamp)
  {
    first := 0;
    var count := |items|;
    while count > 0
      invariant 0 <= count && first + count <= |items|
      invariant forall i | 0 <= i < first :: items[i].payload.timestamp < timestamp
      invariant forall i | first + count <= i < |items| :: items[i].payload.timestamp >= timestamp
      decreases count
    {
      var half := count / 2;
      var mid := first + half;
      if items[mid].payload.timestamp < timestamp {
        first := mid + 1;
        count := count - half - 1;
      } else {
        count := half;
      }
    }
    LowerBoundUnique(items, timestamp, first);
  }

  lemma LowerBoundUnique(items: seq<Item>, timestamp: u64, k: nat)
    requires k <= |items| && forall i | 0 <= i < k :: items[i].payload.timestamp < timestamp
    requires forall i | k <= i < |items| :: items[i].payload.timestamp >= timestamp
    ensures LowerBound(items, timestamp) == k
  {
    if k > 0 {
      LowerBoundUnique(items[1..], timestamp, k - 1);
    }
  }

  method TakePayloads(items: seq<Item>, start: nat, maxItems: nat) returns (result: seq<Payload>)
    requires start <= |items|
    ensures result == Page(items, start, maxItems)
  {
    result := [];
    var i := start;
    while i < |items| && |result| < maxItems
      invariant start <= i <= |items| && i - start <= maxItems
      invariant result == PayloadsOf(items[start..i])
    {
      assert items[start..i + 1] == items[start..i] + [items[i]];
      result := result + [items[i].payload];
      i := i + 1;
    }
    assert items[start..i] == items[start..][..i - start];
  }

  // ---- The limits' loops ----

  method LimitItems(all: seq<Item>, limits: Limits, now: int, base: seq<Update>)
    returns (items: seq<Item>, updates: seq<Update>)
    ensures items == Limited(all, limits, now).0
    ensures updates == base + Limited(all, limits, now).1
  {
    items, updates := KeepYoung(all, limits, now, base);
    ghost var young := items;
    items, updates := KeepCount(items, limits, updates);
    ghost var n := OverCount(young, limits);
    ghost var m := OverBytesBy(young[n..], limits);
    items, updates := KeepBytes(items, limits, updates);
    Sequences.Regroup4(base, RemovedAll(Aged(all, limits, now)), RemovedAll(young[..n]), RemovedAll(young[n..][..m]));
  }

  method KeepYoung(before: seq<Item>, limits: Limits, now: int, base: seq<Update>)
    returns (items: seq<Item>, updates: seq<Update>)
    ensures items == Young(before, limits, now)
    ensures updates == base + RemovedAll(Aged(before, limits, now))
  {
    if limits.maxAgeSeconds != 0 && limits.maxAgeSeconds <= MAX_SUPPORTED_AGE_SECONDS {
      items, updates := RemoveAged(before, limits, now, base);
    } else {
      NoAgeLimit(before, limits, now);
      Sequences.AppendNone(base);
      assert RemovedAll([]) == [];
      items, updates := before, base;
    }
  }

  method KeepBytes(before: seq<Item>, limits: Limits, base: seq<Update>) returns (items: seq<Item>, updates: seq<Update>)
    ensures var n := OverBytesBy(before, limits);
      items == before[n..] && updates == base + RemovedAll(before[..n])
  {
    if limits.memoryLimitBytes == 0 {
      Sequences.AppendNone(base);
      assert RemovedAll([]) == [];
      items, updates := before, base;
    } else {
      items, updates := EvictOldest(before, limits.memoryLimitBytes, base);
    }
  }

  method KeepCount(before: seq<Item>, limits: Limits, base: seq<Update>) returns (items: seq<Item>, updates: seq<Update>)
    ensures var n := OverCount(before, limits);
      items == before[n..] && updates == base + RemovedAll(before[..n])
  {
    if limits.maxItems != 0 {
      items, updates := RemoveOverCount(before, limits, base);
    } else {
      items, updates := before, base;
      Sequences.AppendNone(updates);
      assert RemovedAll([]) == [];
    }
  }

  ghost predicate AgeLoop(before: seq<Item>, limits: Limits, now: int, base: seq<Update>,
                          done: nat, i: nat, items: seq<Item>, updates: seq<Update>)
  {
    && done <= |before|
    && i == |Young(before[..done], limits, now)|
    && items == Young(before[..done], limits, now) + before[done..]
    && updates == base + RemovedAll(Aged(before[..done], limits, now))
  }

  lemma AgeLoopStarts(before: seq<Item>, limits: Limits, now: int, base: seq<Update>)
    ensures AgeLoop(before, limits, now, base, 0, 0, before, base)
  {}

  lemma AgeLoopDrops(before: seq<Item>, limits: Limits, now: int, base: seq<Update>,
                     done: nat, i: nat, items: seq<Item>, updates: seq<Update>)
    requires AgeLoop(before, limits, now, base, done, i, items, updates) && done < |before|
    requires TooOld(before[done], limits, now)
    ensures i < |items| && items[i] == before[done]
    ensures AgeLoop(before, limits, now, base, done + 1, i, RemoveAt(items, i), updates + [Removed(items[i].id)])
  {
    AgeStep(before, done, limits, now);
    var young, aged := Young(before[..done], limits, now), Aged(before[..done], limits, now);
    SkipOne(young, before, done);
    RemoveMiddle(young, before, done);
    RemovedOne(base, aged, before[done]);
  }

  lemma AgeLoopKeeps(before: seq<Item>, limits: Limits, now: int, base: seq<Update>,
                     done: nat, i: nat, items: seq<Item>, updates: seq<Update>)
    requires AgeLoop(before, limits, now, base, done, i, items, updates) && done < |before|
    requires !TooOld(before[done], limits, now)
    ensures i < |items| && items[i] == before[done]
    ensures AgeLoop(before, limits, now, base, done + 1, i + 1, items, updates)
  {
    AgeStep(before, done, limits, now);
    SkipOne(Young(before[..done], limits, now), before, done);
  }

  lemma AgeLoopEnds(before: seq<Item>, limits: Limits, now: int, base: seq<Update>,
                    done: nat, i: nat, items: seq<Item>, updates: seq<Update>)
    requires AgeLoop(before, limits, now, base, done, i, items, updates)
    ensures |items| - i == |before| - done
    ensures i < |items| ==> items[i] == before[done]
    ensures done == |before| ==>
      items == Young(before, limits, now) && updates == base + RemovedAll(Aged(before, limits, now))
  {
    if done == |before| {
      assert before[..done] == before && before[done..] == [];
    }
  }

  method RemoveAged(before: seq<Item>, limits: Limits, now: int, base: seq<Update>)
    returns (items: seq<Item>, updates: seq<Update>)
    requires 0 < limits.maxAgeSeconds <= MAX_SUPPORTED_AGE_SECONDS
    ensures items == Young(before, limits, now)
    ensures updates == base + RemovedAll(Aged(before, limits, now))
  {
    items, updates := before, base;
    var cutoff := now - limits.maxAgeSeconds * NANOSECONDS;
    var i: nat := 0;
    ghost var done: nat := 0;
    AgeLoopStarts(before, limits, now, base);
    while i < |items|
      invariant AgeLoop(before, limits, now, base, done, i, items, updates)
      decreases |before| - done
    {
      AgeLoopEnds(before, limits, now, base, done, i, items, updates);
      if items[i].learned < cutoff {
        AgeLoopDrops(before, limits, now, base, done, i, items, updates);
        updates := updates + [Removed(items[i].id)];
        items := RemoveAt(items, i);
      } else {
        AgeLoopKeeps(before, limits, now, base, done, i, items, updates);
        i := i + 1;
      }
      done := done + 1;
    }
    AgeLoopEnds(before, limits, now, base, done, i, items, updates);
  }

  lemma SkipOne(young: seq<Item>, before: seq<Item>, done: nat)
    requires done < |before|
    ensures (young + before[done..])[|young|] == before[done]
    ensures young + before[done..] == young + [before[done]] + before[done + 1..]
  {}

  lemma RemoveMiddle(young: seq<Item>, before: seq<Item>, done: nat)
    requires done < |before|
    ensures RemoveAt(young + before[done..], |young|) == young + before[done + 1..]
  {}

  lemma RemovedOne(base: seq<Update>, gone: seq<Item>, x: Item)
    ensures base + RemovedAll(gone) + [Removed(x.id)] == base + RemovedAll(gone + [x])
  {}

  lemma AgeStep(before: seq<Item>, done: nat, limits: Limits, now: int)
    requires done < |before|
    ensures var young := Young(before[..done], limits, now);
      Young(before[..done + 1], limits, now) == if TooOld(before[done], limits, now) then young else young + [before[done]]
    ensures var aged := Aged(before[..done], limits, now);
      Aged(before[..done + 1], limits, now) == if TooOld(before[done], limits, now) then aged + [before[done]] else aged
  {
    assert before[..done + 1][..done] == before[..done];
  }

  method RemoveOverCount(before: seq<Item>, limits: Limits, base: seq<Update>)
    returns (items: seq<Item>, updates: seq<Update>)
    requires limits.maxItems != 0
    ensures items == before[OverCount(before, limits)..]
    ensures updates == base + RemovedAll(before[..OverCount(before, limits)])
  {
    items, updates := before, base;
    ghost var k := 0;
    while |items| > limits.maxItems
      invariant 0 <= k <= OverCount(before, limits) && items == before[k..]
      invariant updates == base + RemovedAll(before[..k])
    {
      assert before[..k + 1] == before[..k] + [before[k]];
      RemovedOne(base, before[..k], before[k]);
      updates := updates + [Removed(items[0].id)];
      items := items[1..];
      k := k + 1;
    }
  }

  method SumBytes(items: seq<Item>) returns (totalBytes: u64)
    ensures totalBytes == SaturatedTotal(items)
  {
    totalBytes := 0;
    for i := 0 to |items|
      invariant totalBytes == SaturatedTotal(items[..i])
    {
      assert items[..i + 1][..i] == items[..i];
      var itemBytes := ItemBytes(items[i]);
      if totalBytes > U64_MAX - itemBytes {
        totalBytes := U64_MAX;
      } else {
        totalBytes := totalBytes + itemBytes;
      }
    }
    assert items[..|items|] == items;
  }

  method EvictOldest(before: seq<Item>, limit: u64, base: seq<Update>) returns (items: seq<Item>, updates: seq<Update>)
    ensures var n := Evicted(before, SaturatedTotal(before), limit);
      items == before[n..] && updates == base + RemovedAll(before[..n])
  {
    items, updates := before, base;
    var totalBytes: u64 := SumBytes(before);
    ghost var k := 0;
    ghost var n := Evicted(before, totalBytes, limit);
    while |items| > 1 && totalBytes > limit
      invariant 0 <= k <= |before| && items == before[k..]
      invariant 0 <= totalBytes <= U64_MAX && n == k + Evicted(items, totalBytes, limit)
      invariant updates == base + RemovedAll(before[..k])
    {
      assert before[..k + 1] == before[..k] + [before[k]];
      RemovedOne(base, before[..k], before[k]);
      var itemBytes := ItemBytes(items[0]);
      updates := updates + [Removed(items[0].id)];
      items := items[1..];
      totalBytes := if itemBytes >= totalBytes then 0 else totalBytes - itemBytes;
      k := k + 1;
    }
  }
}
