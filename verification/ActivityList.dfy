/**
 The clipboard activity list of src/ClipboardActivityStore.cpp as a value: items sorted by the
 event's timestamp, deduplicated and relocated by the event's identity.
 */
module ActivityList {
  import opened Machine

  type Guid = b: Bytes | |b| == 16 witness seq(16, _ => 0)

  const ZERO_GUID: Guid := [0, 0, 0, 0, 0, 0, 0, 0, 0, 0, 0, 0, 0, 0, 0, 0]
  const FORMAT_NONE: u32 := 0

  /** A buffer in memory: its size is below 2^63. */
  type Encoded = b: Bytes | |b| < 0x8000_0000_0000_0000

  datatype Payload = Payload(guid: Guid, timestamp: u64, formatId: u32, encoded: Encoded)

  /** `learned` is when this store learned of the item, in nanoseconds. */
  datatype Item = Item(id: nat, learned: int, payload: Payload)

  datatype Update = Added(id: nat) | Removed(id: nat) | Cleared | Moved(id: nat)

  ghost predicate Sorted(items: seq<Item>) {
    forall i, j | 0 <= i < j < |items| :: items[i].payload.timestamp <= items[j].payload.timestamp
  }

  ghost predicate DistinctIds(items: seq<Item>) {
    forall i, j | 0 <= i < j < |items| :: items[i].id != items[j].id
  }

  /** At most one item per event; unstamped events have the zero identity and are never merged. */
  ghost predicate DistinctEvents(items: seq<Item>) {
    forall i, j | 0 <= i < j < |items| && items[i].payload.guid != ZERO_GUID :: items[i].payload.guid != items[j].payload.guid
  }

  ghost predicate IdsBelow(items: seq<Item>, next: nat) {
    forall i | 0 <= i < |items| :: 1 <= items[i].id < next
  }

  ghost predicate WellFormed(items: seq<Item>, next: nat) {
    next >= 1 && Sorted(items) && DistinctIds(items) && DistinctEvents(items) && IdsBelow(items, next)
  }

  // ---- Positions ----

  /** The first item not older than `timestamp`. */
  function LowerBound(items: seq<Item>, timestamp: u64): (k: nat)
    ensures k <= |items|
    ensures forall i | 0 <= i < k :: items[i].payload.timestamp < timestamp
    ensures k < |items| ==> items[k].payload.timestamp >= timestamp
  {
    if items == [] || items[0].payload.timestamp >= timestamp then 0
    else 1 + LowerBound(items[1..], timestamp)
  }

  /** The first item of an event, or the length of the list. */
  function FindEvent(items: seq<Item>, guid: Guid): (k: nat)
    ensures k <= |items|
    ensures k < |items| ==> items[k].payload.guid == guid
  {
    if items == [] || items[0].payload.guid == guid then 0
    else 1 + FindEvent(items[1..], guid)
  }

  lemma {:induction false} FoundFirst(items: seq<Item>, guid: Guid)
    ensures forall i | 0 <= i < FindEvent(items, guid) :: items[i].payload.guid != guid
  {
    if items != [] && items[0].payload.guid != guid {
      FoundFirst(items[1..], guid);
    }
  }

  lemma {:induction false} FoundAt(items: seq<Item>, guid: Guid, k: nat)
    requires k <= |items| && forall i | 0 <= i < k :: items[i].payload.guid != guid
    requires k < |items| ==> items[k].payload.guid == guid
    ensures FindEvent(items, guid) == k
  {
    if k > 0 {
      FoundAt(items[1..], guid, k - 1);
    }
  }

  function FindId(items: seq<Item>, id: nat): (k: nat)
    ensures k <= |items|
    ensures forall i | 0 <= i < k :: items[i].id != id
    ensures k < |items| ==> items[k].id == id
  {
    if items == [] || items[0].id == id then 0
    else 1 + FindId(items[1..], id)
  }

  function RemoveAt(items: seq<Item>, k: nat): seq<Item>
    requires k < |items|
  {
    items[..k] + items[k + 1..]
  }

  function InsertAt(items: seq<Item>, k: nat, item: Item): seq<Item>
    requires k <= |items|
  {
    items[..k] + [item] + items[k..]
  }

  /** Before the items of the same timestamp. */
  function Insert(items: seq<Item>, item: Item): seq<Item> {
    InsertAt(items, LowerBound(items, item.payload.timestamp), item)
  }

  // ---- Adding, before any limit is applied ----

  datatype AddResult = AddResult(items: seq<Item>, next: nat, id: nat, updates: seq<Update>)

  /** A known event with a newer timestamp is relocated under its old id; an older or equal one is an echo. */
  function AddEvent(items: seq<Item>, next: nat, p: Payload, now: int): AddResult {
    var k := if p.guid == ZERO_GUID then |items| else FindEvent(items, p.guid);
    if k == |items| then
      AddResult(Insert(items, Item(next, now, p)), next + 1, next, [Added(next)])
    else if p.timestamp <= items[k].payload.timestamp then
      AddResult(items, next, items[k].id, [])
    else
      var moved := Item(items[k].id, now, p);
      AddResult(Insert(RemoveAt(items, k), moved), next, moved.id, [Moved(moved.id)])
  }

  predicate IsEcho(items: seq<Item>, p: Payload) {
    && p.guid != ZERO_GUID
    && var k := FindEvent(items, p.guid); k < |items| && p.timestamp <= items[k].payload.timestamp
  }

  // ---- The invariant ----

  lemma InsertMembers(items: seq<Item>, item: Item)
    ensures forall x :: x in Insert(items, item) <==> x in items || x == item
  {}

  lemma RemoveMembers(items: seq<Item>, k: nat)
    requires k < |items| && DistinctIds(items)
    ensures forall x :: x in RemoveAt(items, k) <==> x in items && x != items[k]
  {}

  lemma InsertSorted(items: seq<Item>, item: Item)
    requires Sorted(items)
    ensures Sorted(Insert(items, item))
  {}

  lemma RemoveKeeps(items: seq<Item>, k: nat, next: nat)
    requires k < |items| && WellFormed(items, next)
    ensures WellFormed(RemoveAt(items, k), next)
  {}

  lemma InsertIndex(items: seq<Item>, item: Item)
    ensures var k, after := LowerBound(items, item.payload.timestamp), Insert(items, item);
      && |after| == |items| + 1
      && forall i | 0 <= i < |after| :: after[i] == (if i < k then items[i] else if i == k then item else items[i - 1])
  {}

  lemma InsertDistinctIds(items: seq<Item>, item: Item)
    requires DistinctIds(items) && forall i | 0 <= i < |items| :: items[i].id != item.id
    ensures DistinctIds(Insert(items, item))
  {}

  lemma InsertDistinctEvents(items: seq<Item>, item: Item)
    requires DistinctEvents(items)
    requires item.payload.guid != ZERO_GUID ==> forall i | 0 <= i < |items| :: items[i].payload.guid != item.payload.guid
    ensures DistinctEvents(Insert(items, item))
  {
    InsertIndex(items, item);
  }

  lemma InsertIdsBelow(items: seq<Item>, item: Item, next: nat)
    requires IdsBelow(items, next) && 1 <= item.id < next
    ensures IdsBelow(Insert(items, item), next)
  {}

  lemma InsertKeeps(items: seq<Item>, item: Item, next: nat)
    requires WellFormed(items, next) && 1 <= item.id < next
    requires forall i | 0 <= i < |items| :: items[i].id != item.id
    requires item.payload.guid != ZERO_GUID ==> forall i | 0 <= i < |items| :: items[i].payload.guid != item.payload.guid
    ensures WellFormed(Insert(items, item), next)
  {
    InsertSorted(items, item);
    InsertDistinctIds(items, item);
    InsertDistinctEvents(items, item);
    InsertIdsBelow(items, item, next);
  }

  /** Adding keeps the list sorted, with distinct ids and one item per event. */
  lemma AddKeeps(items: seq<Item>, next: nat, p: Payload, now: int)
    requires WellFormed(items, next)
    ensures var r := AddEvent(items, next, p, now); WellFormed(r.items, r.next) && r.next >= next
  {
    var k := if p.guid == ZERO_GUID then |items| else FindEvent(items, p.guid);
    FoundFirst(items, p.guid);
    if k == |items| {
      InsertKeeps(items, Item(next, now, p), next + 1);
    } else if p.timestamp > items[k].payload.timestamp {
      RemoveKeeps(items, k, next);
      var moved, left := Item(items[k].id, now, p), RemoveAt(items, k);
      assert forall i | 0 <= i < |left| :: left[i] == items[if i < k then i else i + 1];
      InsertKeeps(RemoveAt(items, k), moved, next);
    }
  }

  /** What adding does to the set of items: exactly one item may change, and its id does not. */
  lemma AddMembers(items: seq<Item>, next: nat, p: Payload, now: int)
    requires WellFormed(items, next)
    ensures var r := AddEvent(items, next, p, now);
      && (forall x | x in r.items :: x in items || x == Item(r.id, now, p))
      && (forall x | x in items :: x in r.items || (x.id == r.id && x.payload.guid == p.guid != ZERO_GUID && x.payload.timestamp < p.timestamp))
      && (IsEcho(items, p) ==> r.items == items)
      && (!IsEcho(items, p) ==> Item(r.id, now, p) in r.items && forall x | x in r.items && x.id == r.id :: x == Item(r.id, now, p))
  {
    var k := if p.guid == ZERO_GUID then |items| else FindEvent(items, p.guid);
    AddKeeps(items, next, p, now);
    FoundFirst(items, p.guid);
    var r := AddEvent(items, next, p, now);
    if k == |items| {
      InsertMembers(items, Item(next, now, p));
    } else if p.timestamp > items[k].payload.timestamp {
      RemoveMembers(items, k);
      InsertMembers(RemoveAt(items, k), Item(items[k].id, now, p));
    }
    if !IsEcho(items, p) {
      SameIdSameItem(r.items, r.next, Item(r.id, now, p));
    }
  }

  lemma SameIdSameItem(items: seq<Item>, next: nat, item: Item)
    requires WellFormed(items, next) && item in items
    ensures forall x | x in items && x.id == item.id :: x == item
  {}

  // ---- Where an addition goes ----

  /** The item of `x`'s event that `p` replaces. */
  predicate Replaced(x: Item, p: Payload) {
    x.payload.guid == p.guid && p.guid != ZERO_GUID
  }

  /** A copy of a listed event that is not newer than it. */
  ghost predicate OldCopy(items: seq<Item>, p: Payload) {
    exists x :: x in items && Replaced(x, p) && p.timestamp <= x.payload.timestamp
  }

  lemma EchoExact(items: seq<Item>, next: nat, p: Payload)
    requires WellFormed(items, next)
    ensures IsEcho(items, p) <==> OldCopy(items, p)
  {
    var k := FindEvent(items, p.guid);
    FoundFirst(items, p.guid);
    if p.guid != ZERO_GUID && k < |items| {
      OnlyCopy(items, next, k);
      assert items[k] in items;
    }
  }

  /** What the list was before, the replaced copy aside. */
  function Others(items: seq<Item>, p: Payload): seq<Item> {
    if items == [] then []
    else Others(items[..|items| - 1], p) + if Replaced(items[|items| - 1], p) then [] else [items[|items| - 1]]
  }

  lemma {:induction false} OthersAll(items: seq<Item>, p: Payload)
    requires forall x | x in items :: !Replaced(x, p)
    ensures Others(items, p) == items
  {
    if items != [] {
      OthersAll(items[..|items| - 1], p);
      assert items == items[..|items| - 1] + [items[|items| - 1]];
    }
  }

  lemma {:induction false} OthersBut(items: seq<Item>, p: Payload, k: nat)
    requires k < |items| && Replaced(items[k], p)
    requires forall i | 0 <= i < |items| && i != k :: !Replaced(items[i], p)
    ensures Others(items, p) == RemoveAt(items, k)
  {
    var init, last := items[..|items| - 1], items[|items| - 1];
    if k == |items| - 1 {
      OthersAll(init, p);
    } else {
      OthersBut(init, p, k);
      assert RemoveAt(items, k) == RemoveAt(init, k) + [last];
    }
  }

  /**
   An addition that is not an old copy takes the old copy out, leaves the others as they are, and
   puts the new item behind all older ones and before all of its own timestamp or newer: under the
   id of the copy it replaces, or the next one.
   */
  lemma AddedPlace(items: seq<Item>, next: nat, p: Payload, now: int)
    requires WellFormed(items, next) && !OldCopy(items, p)
    ensures var r, others := AddEvent(items, next, p, now), Others(items, p);
      exists i | 0 <= i <= |others| ::
        && r.items == others[..i] + [Item(r.id, now, p)] + others[i..]
        && (forall j | 0 <= j < i :: others[j].payload.timestamp < p.timestamp)
        && (forall j | i <= j < |others| :: p.timestamp <= others[j].payload.timestamp)
    ensures var r := AddEvent(items, next, p, now);
      if exists x :: x in items && Replaced(x, p)
      then r.next == next && r.updates == [Moved(r.id)] && exists x :: x in items && Replaced(x, p) && x.id == r.id
      else r.next == next + 1 && r.id == next && r.updates == [Added(next)]
  {
    EchoExact(items, next, p);
    var k := if p.guid == ZERO_GUID then |items| else FindEvent(items, p.guid);
    FoundFirst(items, p.guid);
    var r, others := AddEvent(items, next, p, now), Others(items, p);
    if k == |items| {
      OthersAll(items, p);
    } else {
      OnlyCopy(items, next, k);
      assert items[k] in items;
      OthersBut(items, p, k);
      RemoveKeeps(items, k, next);
    }
    var i := LowerBound(others, p.timestamp);
    InsertedAt(others, next, Item(r.id, now, p));
  }

  lemma InsertedAt(items: seq<Item>, next: nat, item: Item)
    requires WellFormed(items, next)
    ensures var i := LowerBound(items, item.payload.timestamp);
      && Insert(items, item) == items[..i] + [item] + items[i..]
      && forall j | i <= j < |items| :: item.payload.timestamp <= items[j].payload.timestamp
  {}

  // ---- The list is the map from events to their newest copies ----

  /** The copies of a stamped event that no other copy in `q` is newer than. */
  predicate Newest(q: seq<Payload>, p: Payload) {
    p in q && forall r | r in q && r.guid == p.guid :: r.timestamp <= p.timestamp
  }

  ghost predicate Holds(items: seq<Item>, p: Payload) {
    exists x :: x in items && x.payload == p
  }

  /** Event and timestamp determine the payload. */
  ghost predicate Determined(q: seq<Payload>) {
    forall p, r | p in q && r in q && p.guid == r.guid && p.timestamp == r.timestamp :: p == r
  }

  ghost predicate Stamped(q: seq<Payload>) {
    forall p | p in q :: p.guid != ZERO_GUID
  }

  /** The list holds exactly the newest copy of each event of `q`. */
  ghost predicate Mirrors(items: seq<Item>, q: seq<Payload>) {
    forall p :: Holds(items, p) <==> Newest(q, p)
  }

  /** A copy arriving: with its time. */
  datatype Arrival = Arrival(payload: Payload, now: int)

  function Payloads(q: seq<Arrival>): (r: seq<Payload>)
    ensures |r| == |q| && forall i | 0 <= i < |q| :: r[i] == q[i].payload
  {
    seq(|q|, i requires 0 <= i < |q| => q[i].payload)
  }

  /** The list after the copies in `q` arrived, oldest first. */
  function AddAll(q: seq<Arrival>): AddResult {
    if q == [] then AddResult([], 1, 0, [])
    else
      var before := AddAll(q[..|q| - 1]);
      AddEvent(before.items, before.next, q[|q| - 1].payload, q[|q| - 1].now)
  }

  lemma {:induction false} AddAllKeeps(q: seq<Arrival>)
    ensures WellFormed(AddAll(q).items, AddAll(q).next)
  {
    if q != [] {
      AddAllKeeps(q[..|q| - 1]);
      var before := AddAll(q[..|q| - 1]);
      AddKeeps(before.items, before.next, q[|q| - 1].payload, q[|q| - 1].now);
    }
  }

  /** With the event already listed, the listed copy is its newest. */
  lemma ListedIsNewest(items: seq<Item>, q: seq<Payload>, guid: Guid)
    requires Mirrors(items, q)
    ensures FindEvent(items, guid) < |items| ==> Newest(q, items[FindEvent(items, guid)].payload)
  {}

  /** Every event of `q` has a newest copy, so it is listed. */
  lemma {:induction false} NewestExists(q: seq<Payload>, guid: Guid) returns (p: Payload)
    requires exists r :: r in q && r.guid == guid
    ensures Newest(q, p) && p.guid == guid
  {
    var init, last := q[..|q| - 1], q[|q| - 1];
    assert q == init + [last];
    if exists r :: r in init && r.guid == guid {
      p := NewestExists(init, guid);
      if last.guid == guid && p.timestamp < last.timestamp {
        p := last;
      }
    } else {
      p := last;
    }
  }

  lemma AddMirrors(items: seq<Item>, next: nat, q: seq<Payload>, p: Payload, now: int)
    requires WellFormed(items, next) && Mirrors(items, q)
    requires Stamped(q + [p]) && Determined(q + [p])
    ensures Mirrors(AddEvent(items, next, p, now).items, q + [p])
  {
    var r := AddEvent(items, next, p, now);
    AddMembers(items, next, p, now);
    assert p in q + [p] && forall x | x in q :: x in q + [p];
    ListedIsNewest(items, q, p.guid);
    forall x ensures Holds(r.items, x) <==> Newest(q + [p], x) {
      if x.guid == p.guid {
        AddedEvent(items, next, q, p, now, x);
      } else {
        OtherEvent(items, next, q, p, now, x);
      }
    }
  }

  lemma OtherEvent(items: seq<Item>, next: nat, q: seq<Payload>, p: Payload, now: int, x: Payload)
    requires WellFormed(items, next) && Mirrors(items, q) && x.guid != p.guid
    ensures Holds(AddEvent(items, next, p, now).items, x) <==> Newest(q + [p], x)
  {
    var r := AddEvent(items, next, p, now);
    AddMembers(items, next, p, now);
    assert Holds(items, x) <==> Holds(r.items, x);
    assert Newest(q, x) <==> Newest(q + [p], x);
  }

  lemma AddedEvent(items: seq<Item>, next: nat, q: seq<Payload>, p: Payload, now: int, x: Payload)
    requires WellFormed(items, next) && Mirrors(items, q) && x.guid == p.guid
    requires Stamped(q + [p]) && Determined(q + [p])
    ensures Holds(AddEvent(items, next, p, now).items, x) <==> Newest(q + [p], x)
  {
    assert p in q + [p];
    if IsEcho(items, p) {
      EchoEvent(items, next, q, p, now, x);
    } else {
      OnlyNewCopy(items, next, p, now);
      NewIsNewest(items, q, p);
      assert Newest(q + [p], x) ==> x.timestamp == p.timestamp;
    }
  }

  lemma EchoEvent(items: seq<Item>, next: nat, q: seq<Payload>, p: Payload, now: int, x: Payload)
    requires WellFormed(items, next) && Mirrors(items, q) && x.guid == p.guid
    requires Determined(q + [p]) && IsEcho(items, p)
    ensures Holds(AddEvent(items, next, p, now).items, x) <==> Newest(q + [p], x)
  {
    var k := FindEvent(items, p.guid);
    var listed := items[k].payload;
    ListedIsNewest(items, q, p.guid);
    OnlyCopy(items, next, k);
    assert listed in q + [p] && p in q + [p];
    assert Newest(q + [p], listed);
    assert Newest(q + [p], x) <==> x == listed;
    assert Holds(items, x) <==> x == listed;
  }

  /** A copy that is not an echo is newer than all that came before. */
  lemma NewIsNewest(items: seq<Item>, q: seq<Payload>, p: Payload)
    requires Mirrors(items, q) && p.guid != ZERO_GUID && !IsEcho(items, p)
    ensures Newest(q + [p], p)
  {
    if exists c :: c in q && c.guid == p.guid {
      var c := NewestExists(q, p.guid);
      assert Holds(items, c);
      var y :| y in items && y.payload == c;
      var k := FindEvent(items, p.guid);
      ListedIsNewest(items, q, p.guid);
      FoundFirst(items, p.guid);
    }
  }

  /** The item found is the event's only one. */
  lemma OnlyCopy(items: seq<Item>, next: nat, k: nat)
    requires WellFormed(items, next) && k < |items| && items[k].payload.guid != ZERO_GUID
    ensures forall x | x in items && x.payload.guid == items[k].payload.guid :: x == items[k]
  {}

  lemma OnlyNewCopy(items: seq<Item>, next: nat, p: Payload, now: int)
    requires WellFormed(items, next) && p.guid != ZERO_GUID && !IsEcho(items, p)
    ensures forall x: Payload :: x.guid == p.guid ==> (Holds(AddEvent(items, next, p, now).items, x) <==> x == p)
  {
    AddMembers(items, next, p, now);
    AddKeeps(items, next, p, now);
    var r := AddEvent(items, next, p, now);
    var k :| 0 <= k < |r.items| && r.items[k] == Item(r.id, now, p);
    OnlyCopy(r.items, r.next, k);
  }

  /**
   Any sequence of arrivals leaves a sorted list holding exactly the newest copy of each
   event, under one id per event.
   */
  lemma {:induction false} ListMirrorsArrivals(q: seq<Arrival>)
    requires Stamped(Payloads(q)) && Determined(Payloads(q))
    ensures Sorted(AddAll(q).items) && DistinctEvents(AddAll(q).items) && DistinctIds(AddAll(q).items)
    ensures Mirrors(AddAll(q).items, Payloads(q))
  {
    AddAllKeeps(q);
    if q != [] {
      var init, last := q[..|q| - 1], q[|q| - 1];
      var ps := Payloads(init);
      assert Payloads(q) == ps + [last.payload];
      assert forall p | p in ps :: p in Payloads(q);
      ListMirrorsArrivals(init);
      AddAllKeeps(init);
      AddMirrors(AddAll(init).items, AddAll(init).next, ps, last.payload, last.now);
    }
  }

  /** So the content does not depend on the order of the calls or on repetitions, only on which copies arrived. */
  lemma ContentIgnoresOrder(q: seq<Arrival>, r: seq<Arrival>)
    requires Stamped(Payloads(q)) && Determined(Payloads(q)) && Stamped(Payloads(r)) && Determined(Payloads(r))
    requires forall p :: p in Payloads(q) <==> p in Payloads(r)
    ensures forall p :: Holds(AddAll(q).items, p) <==> Holds(AddAll(r).items, p)
  {
    ListMirrorsArrivals(q);
    ListMirrorsArrivals(r);
    assert forall p :: Newest(Payloads(q), p) <==> Newest(Payloads(r), p);
  }

  ghost predicate Lists(items: seq<Item>, id: nat, guid: Guid) {
    exists y :: y in items && y.id == id && y.payload.guid == guid
  }

  lemma AddKeepsIds(items: seq<Item>, next: nat, p: Payload, now: int, id: nat, guid: Guid)
    requires WellFormed(items, next) && Lists(items, id, guid)
    ensures Lists(AddEvent(items, next, p, now).items, id, guid)
  {
    AddMembers(items, next, p, now);
    var r := AddEvent(items, next, p, now);
    var y :| y in items && y.id == id && y.payload.guid == guid;
    if y !in r.items {
      assert Item(r.id, now, p) in r.items;
    }
  }

  lemma AddAllAppend(q: seq<Arrival>, last: Arrival)
    ensures var before := AddAll(q); AddAll(q + [last]) == AddEvent(before.items, before.next, last.payload, last.now)
  {}

  lemma IdStaysOnce(q: seq<Arrival>, last: Arrival, id: nat, guid: Guid)
    requires Lists(AddAll(q).items, id, guid)
    ensures Lists(AddAll(q + [last]).items, id, guid)
  {
    AddAllKeeps(q);
    AddAllAppend(q, last);
    AddKeepsIds(AddAll(q).items, AddAll(q).next, last.payload, last.now, id, guid);
  }

  lemma SplitLast(q: seq<Arrival>, more: seq<Arrival>)
    requires more != []
    ensures q + more == q + more[..|more| - 1] + [more[|more| - 1]]
  {}

  /** A listed event keeps its id through any further arrivals. */
  lemma {:induction false} IdsAreStable(q: seq<Arrival>, more: seq<Arrival>, id: nat, guid: Guid)
    requires Lists(AddAll(q).items, id, guid)
    ensures Lists(AddAll(q + more).items, id, guid)
  {
    if more == [] {
      assert q + more == q;
    } else {
      IdsAreStable(q, more[..|more| - 1], id, guid);
      SplitLast(q, more);
      IdStaysOnce(q + more[..|more| - 1], more[|more| - 1], id, guid);
    }
  }
}
