/**
 Register records and the pure merge core of src/RegisterStore.h and src/RegisterStore.cpp:
 the value order, the last-writer-wins join, expiry, and the joins of whole sets of records.
 */
module RegisterMerge {
  import opened Machine
  import opened HybridClock
  import ByteOrder

  const TOMBSTONE: byte := 1
  const PRIVATE: byte := 2
  const BINARY_HEADER: byte := 4

  datatype Record = Record(name: Bytes, value: Bytes, written: Hlc, touched: Hlc,
                           origin: HostId, flags: byte)
  {
    predicate IsTombstone() {
      flags % 2 == 1
    }
  }

  datatype DigestEntry = DigestEntry(name: Bytes, written: Hlc, touched: Hlc)

  // ---- The value order ----

  predicate ValueLess(a: Record, b: Record) {
    if a.written != b.written then HybridClock.Less(a.written, b.written)
    else if a.origin != b.origin then ByteOrder.Less(a.origin, b.origin)
    else if a.flags != b.flags then a.flags < b.flags
    else ByteOrder.Less(a.value, b.value)
  }

  predicate SameValue(a: Record, b: Record) {
    a.written == b.written && a.origin == b.origin && a.flags == b.flags && a.value == b.value
  }

  /** `ValueLess` is a strict total order on everything a record holds except `touched`. */
  lemma ValueOrderTotal(a: Record, b: Record)
    ensures !(ValueLess(a, b) && ValueLess(b, a))
    ensures !ValueLess(a, b) && !ValueLess(b, a) <==> SameValue(a, b)
  {
    ByteOrder.Trichotomy(a.origin, b.origin);
    ByteOrder.Trichotomy(a.value, b.value);
  }

  lemma ValueOrderTransitive(a: Record, b: Record, c: Record)
    requires ValueLess(a, b) && ValueLess(b, c)
    ensures ValueLess(a, c)
  {
    if a.origin != b.origin && b.origin != c.origin && a.written == b.written == c.written {
      ByteOrder.Transitive(a.origin, b.origin, c.origin);
      ByteOrder.Trichotomy(a.origin, b.origin);
    }
    if SameButValue(a, b) && SameButValue(b, c) {
      ByteOrder.Transitive(a.value, b.value, c.value);
    }
  }

  predicate SameButValue(a: Record, b: Record) {
    a.written == b.written && a.origin == b.origin && a.flags == b.flags
  }

  // ---- The join ----

  /** Meant for two records of one name; the name of the winner is kept. */
  function Merge(a: Record, b: Record): Record {
    var winner := if ValueLess(a, b) then b else a;
    winner.(touched := Later(a.touched, b.touched))
  }

  /** The laws strong convergence rests on, for all records of one name, forged ones included. */
  lemma MergeLaws(a: Record, b: Record, c: Record)
    requires a.name == b.name == c.name
    ensures Merge(a, b) == Merge(b, a)
    ensures Merge(Merge(a, b), c) == Merge(a, Merge(b, c))
    ensures Merge(a, a) == a
  {
    ValueOrderTotal(a, b);
    ValueOrderTotal(b, c);
    ValueOrderTotal(a, c);
    if ValueLess(a, b) && ValueLess(b, c) { ValueOrderTransitive(a, b, c); }
    if ValueLess(b, a) && ValueLess(a, c) { ValueOrderTransitive(b, a, c); }
    if ValueLess(a, c) && ValueLess(c, b) { ValueOrderTransitive(a, c, b); }
    if ValueLess(c, a) && ValueLess(a, b) { ValueOrderTransitive(c, a, b); }
    if ValueLess(b, c) && ValueLess(c, a) { ValueOrderTransitive(b, c, a); }
    if ValueLess(c, b) && ValueLess(b, a) { ValueOrderTransitive(c, b, a); }
  }

  /** `b` adds nothing to `a`: the order the join is the least upper bound of. */
  predicate Below(b: Record, a: Record) {
    !ValueLess(a, b) && AtMost(b.touched, a.touched)
  }

  // ---- What wins, as bytes ----

  /** Stamp, host, flags, value: the byte strings that decide between two writes of a name. */
  function SortKey(r: Record): Bytes {
    PackBytes(r.written) + (r.origin + ([r.flags] + r.value))
  }

  lemma KeyLess(a: Record, b: Record)
    ensures ValueLess(a, b) <==> ByteOrder.Less(SortKey(a), SortKey(b))
    ensures SameValue(a, b) <==> SortKey(a) == SortKey(b)
  {
    PackPreservesOrder(a.written, b.written);
    PackPreservesOrder(b.written, a.written);
    ByteOrder.Trichotomy(PackBytes(a.written), PackBytes(b.written));
    ByteOrder.Trichotomy(a.origin, b.origin);
    ByteOrder.LessConcat(PackBytes(a.written), PackBytes(b.written),
                         a.origin + ([a.flags] + a.value), b.origin + ([b.flags] + b.value));
    ByteOrder.LessConcat(a.origin, b.origin, [a.flags] + a.value, [b.flags] + b.value);
    FlagsLess(a, b);
    KeyExact(a, b);
  }

  lemma FlagsLess(a: Record, b: Record)
    ensures ByteOrder.Less([a.flags] + a.value, [b.flags] + b.value) <==>
      a.flags < b.flags || (a.flags == b.flags && ByteOrder.Less(a.value, b.value))
  {
    assert ([a.flags] + a.value)[1..] == a.value && ([b.flags] + b.value)[1..] == b.value;
  }

  lemma KeyExact(a: Record, b: Record)
    ensures SortKey(a) == SortKey(b) <==> SameValue(a, b)
  {
    PackUnpack(a.written);
    PackUnpack(b.written);
    KeyParts(a);
    KeyParts(b);
  }

  lemma KeyParts(r: Record)
    ensures var k := SortKey(r);
      k[..16] == PackBytes(r.written) && k[16..32] == r.origin && k[32] == r.flags && k[33..] == r.value
  {}

  /** The later stamp wins; of one stamp the higher host; of one host, the higher flags and then the higher value. */
  lemma LaterWinsThenHigherHost(a: Record, b: Record)
    requires a.name == b.name
    ensures var m := Merge(a, b); m.name == a.name
    ensures Less(a.written, b.written) ==> SameValue(Merge(a, b), b)
    ensures a.written == b.written && ByteOrder.Less(a.origin, b.origin) ==> SameValue(Merge(a, b), b)
    ensures a.written == b.written && a.origin == b.origin && a.flags < b.flags ==> SameValue(Merge(a, b), b)
    ensures SortKey(Merge(a, b)) == if ByteOrder.Less(SortKey(a), SortKey(b)) then SortKey(b) else SortKey(a)
    ensures Merge(a, b).touched == Later(a.touched, b.touched)
  {
    KeyLess(a, b);
    ByteOrder.Trichotomy(a.origin, b.origin);
  }

  /** The join of any set is the write whose bytes are the greatest, touched last. */
  lemma JoinIsGreatest(s: set<Record>, m: Record)
    ensures IsJoin(s, m) <==>
      && (exists r :: r in s && r.name == m.name && SortKey(r) == SortKey(m))
      && (forall r | r in s :: !ByteOrder.Less(SortKey(m), SortKey(r)))
      && (exists r :: r in s && r.touched == m.touched) && (forall r | r in s :: !Less(m.touched, r.touched))
  {
    forall r ensures ValueLess(m, r) <==> ByteOrder.Less(SortKey(m), SortKey(r))
             ensures SameValue(r, m) <==> SortKey(r) == SortKey(m)
    {
      KeyLess(m, r);
      KeyLess(r, m);
    }
  }

  // ---- Joins of sets ----

  ghost predicate OneName(s: set<Record>, name: Bytes) {
    forall r | r in s :: r.name == name
  }

  /** `m` holds the greatest value of `s` and the latest touch of `s`, each attained in `s`. */
  ghost predicate IsJoin(s: set<Record>, m: Record) {
    && (exists r :: r in s && r.name == m.name && SameValue(r, m))
    && (exists r :: r in s && r.touched == m.touched)
    && (forall r | r in s :: Below(r, m))
  }

  lemma JoinUnique(s: set<Record>, m: Record, k: Record, name: Bytes)
    requires OneName(s, name) && IsJoin(s, m) && IsJoin(s, k)
    ensures m == k
  {
    var rm :| rm in s && rm.name == m.name && SameValue(rm, m);
    var rk :| rk in s && rk.name == k.name && SameValue(rk, k);
    assert Below(rm, k) && Below(rk, m);
    ValueOrderTotal(m, k);
    var tm :| tm in s && tm.touched == m.touched;
    var tk :| tk in s && tk.touched == k.touched;
    assert Below(tm, k) && Below(tk, m);
  }

  lemma JoinSingleton(r: Record)
    ensures IsJoin({r}, r)
  {
    ValueOrderTotal(r, r);
    assert r in {r} && SameValue(r, r);
  }

  lemma BelowMerge(a: Record, b: Record, r: Record)
    requires Below(r, a) || Below(r, b)
    ensures Below(r, Merge(a, b))
  {
    var m := Merge(a, b);
    ValueOrderTotal(a, b);
    if ValueLess(m, r) {
      if ValueLess(a, b) { ValueOrderTransitive(a, b, r); }
      if ValueLess(b, a) { ValueOrderTransitive(b, a, r); }
    }
  }

  /** Merging two joins is joining the union: the state-based CRDT step. */
  lemma JoinUnion(s: set<Record>, t: set<Record>, m: Record, k: Record, name: Bytes)
    requires OneName(s + t, name)
    requires IsJoin(s, m) && IsJoin(t, k)
    ensures IsJoin(s + t, Merge(m, k))
  {
    var j := Merge(m, k);
    var rm :| rm in s && rm.name == m.name && SameValue(rm, m);
    var rk :| rk in t && rk.name == k.name && SameValue(rk, k);
    assert SameValue(if ValueLess(m, k) then rk else rm, j);
    assert (if ValueLess(m, k) then rk else rm) in s + t;
    var tm :| tm in s && tm.touched == m.touched;
    var tk :| tk in t && tk.touched == k.touched;
    assert (if Less(m.touched, k.touched) then tk else tm) in s + t;
    forall r | r in s + t ensures Below(r, j) {
      BelowMerge(m, k, r);
    }
  }

  function Elements(q: seq<Record>): set<Record> {
    set r | r in q
  }

  /** Folding the join over any list of deliveries. */
  function MergeAll(r: Record, rest: seq<Record>): Record {
    if rest == [] then r else Merge(MergeAll(r, rest[..|rest| - 1]), rest[|rest| - 1])
  }

  /** The fold is the join of the *set* delivered, so neither order nor duplication matters. */
  lemma {:induction false} FoldIsJoin(r: Record, rest: seq<Record>)
    requires forall q | q in rest :: q.name == r.name
    ensures IsJoin({r} + Elements(rest), MergeAll(r, rest))
    ensures MergeAll(r, rest).name == r.name
  {
    if rest == [] {
      JoinSingleton(r);
      assert {r} + Elements(rest) == {r};
    } else {
      var init, last := rest[..|rest| - 1], rest[|rest| - 1];
      assert rest == init + [last];
      FoldIsJoin(r, init);
      JoinSingleton(last);
      var s := {r} + Elements(init);
      assert {r} + Elements(rest) == s + {last};
      JoinUnion(s, {last}, MergeAll(r, init), last, r.name);
    }
  }

  lemma FoldOrderIrrelevant(r: Record, rest: seq<Record>, q: Record, others: seq<Record>)
    requires forall x | x in rest + others + [q] :: x.name == r.name
    requires {r} + Elements(rest) == {q} + Elements(others)
    ensures MergeAll(r, rest) == MergeAll(q, others)
  {
    assert forall x | x in rest || x in others || x == q :: x in rest + others + [q];
    FoldIsJoin(r, rest);
    FoldIsJoin(q, others);
    JoinUnique({r} + Elements(rest), MergeAll(r, rest), MergeAll(q, others), r.name);
  }

  // ---- Expiry ----

  predicate IsExpired(r: Record, nowMs: u64, ttlMs: u64) {
    if r.touched.wallMs > nowMs then false
    else nowMs - r.touched.wallMs >= ttlMs
  }

  /** Expiry is permanent as time passes, and a later touch can only postpone it. */
  lemma ExpiryMonotone(r: Record, later: Record, now: u64, now': u64, ttl: u64)
    requires now <= now' && AtMost(r.touched, later.touched)
    ensures IsExpired(r, now, ttl) ==> IsExpired(r, now', ttl)
    ensures IsExpired(later, now, ttl) ==> IsExpired(r, now, ttl)
  {}
}
