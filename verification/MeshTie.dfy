/** When two hosts mint one stamp: exactly which meshes two rounds of pulls are sure to heal. */
module MeshTie {
  import opened Machine
  import opened HybridClock
  import opened RegisterMerge
  import opened RegisterState
  import opened AntiEntropy
  import opened MeshHeal

  // Module MeshHeal shows that two rounds heal a name on which no tie can hide. Here is the converse:
  // where a tie can hide there is a plan of meetings, with whole digests, that leaves it for good.

  // ---- The loser that is never told ----

  /** A loser of the tie at the top stamp that has the top touch. */
  ghost predicate Stuck(s: set<Record>, z: Record, v: Option<Record>) {
    && z in s && TopValue(s, Some(z)) && TopTouch(s, v)
    && v.value.written == z.written && ValueLess(v.value, z)
  }

  lemma PullStuck(s: set<Record>, n: Bytes, z: Record, a: Option<Record>, b: Option<Record>)
    requires OneName(s, n) && MadeOfOrNone(s, a) && MadeOfOrNone(s, b) && Stuck(s, z, a)
    ensures PullOne(a, b, true) == a
  {
    if b.Some? {
      var x :| x in s && x.name == b.value.name && SameValue(x, b.value);
      var y :| y in s && y.touched == b.value.touched;
      assert !ValueLess(z, x) && AtMost(y.touched, a.value.touched);
    }
  }

  /** Every digest sent lists the name if its sender holds it. */
  ghost predicate WholeDigests(cfg: Config, now: u64, plan: seq<Meeting>, trace: seq<seq<State>>, n: Bytes)
    requires IsHealing(cfg, now, plan, trace)
  {
    forall k | 0 <= k < |plan| :: Told(cfg, now, plan[k], trace[k], n)
  }

  ghost predicate Told(cfg: Config, now: u64, m: Meeting, reps: seq<State>, n: Bytes) {
    m.to < |reps| && (View(cfg, reps[m.to], now, n).Some? ==> Lists(m.digest, n))
  }

  ghost predicate StuckAt(cfg: Config, now: u64, reps: seq<State>, n: Bytes, s: set<Record>, z: Record, i: nat) {
    i < |reps| && Stuck(s, z, View(cfg, reps[i], now, n))
  }

  lemma {:induction false} StaysStuck(cfg: Config, now: u64, plan: seq<Meeting>, trace: seq<seq<State>>, n: Bytes,
                                      s: set<Record>, z: Record, i: nat, j: nat, k: nat)
    requires Healing(cfg, now, plan, trace, n, s) && j <= k <= |plan|
    requires WholeDigests(cfg, now, plan, trace, n) && StuckAt(cfg, now, trace[j], n, s, z, i)
    ensures StuckAt(cfg, now, trace[k], n, s, z, i)
  {
    if j < k {
      var before := k - 1;
      StaysStuck(cfg, now, plan, trace, n, s, z, i, j, before);
      MeetingAt(cfg, now, plan, trace, n, s, before);
      StepStuck(cfg, now, trace[before], plan[before], trace[before + 1], n, s, z, i);
    }
  }

  lemma MeetingAt(cfg: Config, now: u64, plan: seq<Meeting>, trace: seq<seq<State>>, n: Bytes, s: set<Record>, k: nat)
    requires Healing(cfg, now, plan, trace, n, s) && WholeDigests(cfg, now, plan, trace, n) && k < |plan|
    ensures Meets(cfg, trace[k], plan[k], now, trace[k + 1]) && Told(cfg, now, plan[k], trace[k], n)
    ensures Sound(cfg, trace[k], now, n, s)
  {
    RunSound(cfg, now, plan, trace, n, s, k);
  }

  lemma StepStuck(cfg: Config, now: u64, reps: seq<State>, m: Meeting, reps': seq<State>, n: Bytes,
                  s: set<Record>, z: Record, i: nat)
    requires Meets(cfg, reps, m, now, reps') && Sound(cfg, reps, now, n, s) && OneName(s, n) && n != MIRROR
    requires Told(cfg, now, m, reps, n) && StuckAt(cfg, now, reps, n, s, z, i)
    ensures StuckAt(cfg, now, reps', n, s, z, i)
  {
    MeetsView(cfg, reps, m, now, reps', n, s);
    if m.to == i {
      PullStuck(s, n, z, View(cfg, reps[i], now, n), View(cfg, reps[m.from], now, n));
    }
  }

  lemma StuckIsNoJoin(s: set<Record>, z: Record, v: Option<Record>)
    requires Stuck(s, z, v)
    ensures !ShowsJoin(s, v)
  {
    assert IsJoin(s, v.value) ==> Below(z, v.value);
  }

  // ---- A plan that lets all meet all ----

  /** `to` pulls from each of the first `k`. */
  function Row(to: nat, k: nat): seq<(nat, nat)> {
    if k == 0 then [] else Row(to, k - 1) + (if k - 1 == to then [] else [(to, k - 1)])
  }

  function Grid(m: nat, n: nat): seq<(nat, nat)> {
    if m == 0 then [] else Grid(m - 1, n) + Row(m - 1, n)
  }

  lemma {:induction false} InRow(to: nat, k: nat, f: nat)
    requires f < k && f != to
    ensures (to, f) in Row(to, k)
  {
    var before := Row(to, k - 1);
    if f < k - 1 {
      InRow(to, k - 1, f);
      InJoin(before, if k - 1 == to then [] else [(to, k - 1)], (to, f));
    } else {
      InJoin(before, [(to, f)], (to, f));
    }
  }

  lemma InJoin(a: seq<(nat, nat)>, b: seq<(nat, nat)>, p: (nat, nat))
    requires p in a || p in b
    ensures p in a + b
  {}

  lemma {:induction false} InGrid(m: nat, n: nat, t: nat, f: nat)
    requires t < m && f < n && t != f
    ensures (t, f) in Grid(m, n)
  {
    var upper, row := Grid(m - 1, n), Row(m - 1, n);
    if t < m - 1 {
      InGrid(m - 1, n, t, f);
    } else {
      InRow(m - 1, n, f);
    }
    InJoin(upper, row, (t, f));
    assert Grid(m, n) == upper + row;
  }

  ghost predicate Pairs(pairs: seq<(nat, nat)>, size: nat) {
    forall k | 0 <= k < |pairs| :: pairs[k].0 < size && pairs[k].1 < size
  }

  lemma PairsJoin(a: seq<(nat, nat)>, b: seq<(nat, nat)>, size: nat)
    requires Pairs(a, size) && Pairs(b, size)
    ensures Pairs(a + b, size)
  {}

  lemma {:induction false} RowPairs(to: nat, k: nat, size: nat)
    requires to < size && k <= size
    ensures Pairs(Row(to, k), size)
  {
    if k > 0 {
      RowPairs(to, k - 1, size);
    }
  }

  lemma {:induction false} GridPairs(m: nat, n: nat, size: nat)
    requires m <= size && n <= size
    ensures Pairs(Grid(m, n), size)
  {
    if m > 0 {
      GridPairs(m - 1, n, size);
      RowPairs(m - 1, n, size);
      PairsJoin(Grid(m - 1, n), Row(m - 1, n), size);
    }
  }

  // ---- Carrying out a plan with whole digests ----

  ghost function WholeDigest(cfg: Config, st: State, now: u64): seq<DigestEntry> {
    Step(cfg, st, Digest, now).1.entries
  }

  lemma WholeDigestLists(cfg: Config, st: State, now: u64, n: Bytes)
    requires Keyed(st.records) && n != MIRROR
    ensures CutOfDigest(cfg, st, WholeDigest(cfg, st, now), now)
    ensures View(cfg, st, now, n).Some? ==> Lists(WholeDigest(cfg, st, now), n)
  {
    var m := Prune(st.records, now, cfg.ttlMs);
    var q := Select(m, m.Keys - {MIRROR});
    PrefixIsCut(cfg, st, now, |Entries(q)|);
    assert Entries(q)[..|q|] == Entries(q);
    SelectFacts(m, m.Keys - {MIRROR});
    if n in m {
      assert m[n] in q;
      var i :| 0 <= i < |q| && q[i] == m[n];
      assert Entries(q)[i] in Entries(q);
    }
  }

  ghost predicate AllKeyed(reps: seq<State>) {
    forall i | 0 <= i < |reps| :: Keyed(reps[i].records)
  }

  /** The meetings of `pairs`, one after another, with whole digests. */
  lemma {:induction false} Arrange(cfg: Config, now: u64, reps: seq<State>, pairs: seq<(nat, nat)>, n: Bytes)
    returns (plan: seq<Meeting>, trace: seq<seq<State>>)
    requires AllKeyed(reps) && Pairs(pairs, |reps|) && n != MIRROR
    ensures Follows(plan, pairs) && IsHealing(cfg, now, plan, trace) && trace[0] == reps
    ensures WholeDigests(cfg, now, plan, trace, n)
    ensures |trace[|plan|]| == |reps| && AllKeyed(trace[|plan|])
  {
    if pairs == [] {
      plan, trace := [], [reps];
    } else {
      var init, last := pairs[..|pairs| - 1], pairs[|pairs| - 1];
      var p, t := Arrange(cfg, now, reps, init, n);
      var before := t[|p|];
      var a, b := before[last.0], before[last.1];
      var m := Meeting(last.0, last.1, WholeDigest(cfg, a, now));
      WholeDigestLists(cfg, a, now, n);
      ApplyAllKeyed(cfg, Snapshot(cfg, a, now), Pushed(cfg, b, m.digest, now), now);
      var after := before[m.to := Pull(cfg, a, b, m.digest, now)];
      Extended(cfg, now, p, t, m, after, n);
      plan, trace := p + [m], t + [after];
    }
  }

  /** One more meeting. */
  lemma Extended(cfg: Config, now: u64, plan: seq<Meeting>, trace: seq<seq<State>>, m: Meeting, after: seq<State>, n: Bytes)
    requires IsHealing(cfg, now, plan, trace) && WholeDigests(cfg, now, plan, trace, n)
    requires Meets(cfg, trace[|plan|], m, now, after) && Told(cfg, now, m, trace[|plan|], n)
    ensures IsHealing(cfg, now, plan + [m], trace + [after]) && WholeDigests(cfg, now, plan + [m], trace + [after], n)
  {
    var p, t := plan + [m], trace + [after];
    forall k | 0 <= k < |p| ensures Meets(cfg, t[k], p[k], now, t[k + 1]) && Told(cfg, now, p[k], t[k], n) {
      if k < |plan| {
        assert Meets(cfg, trace[k], plan[k], now, trace[k + 1]) && Told(cfg, now, plan[k], trace[k], n);
      }
    }
  }

  // ---- The plan that hides the tie ----

  /** The replica that holds a record of `s`. */
  lemma HolderOf(cfg: Config, reps: seq<State>, now: u64, n: Bytes, r: Record) returns (i: nat)
    requires r in Held(cfg, reps, now, n)
    ensures i < |reps| && View(cfg, reps[i], now, n) == Some(r)
  {
    var views := Views(cfg, reps, now, n);
    ValuesExact(views);
    i :| 0 <= i < |views| && views[i] == Some(r);
  }

  /** The older record that was touched last picks up the tie's loser. */
  lemma LoserTakesTouch(s: set<Record>, n: Bytes, z: Record, x: Record, r: Record)
    requires OneName(s, n) && Hides(s, z, x, r)
    ensures if r.written == z.written then Stuck(s, z, Some(r)) else Stuck(s, z, PullOne(Some(r), Some(x), true))
  {
    ValueOrderTotal(x, z);
    ValueOrderTotal(r, z);
    ValueOrderTotal(r, x);
    assert !ValueLess(z, x) && !ValueLess(z, r) && AtMost(x.touched, r.touched);
  }

  /**
   The meetings of the plan: the loser's record is picked up where the top touch is, if it has to be;
   then all meet all, twice.
   */
  ghost function HidingPairs(z: Record, r: Record, i: nat, from: nat, size: nat): seq<(nat, nat)> {
    (if r.written == z.written then [] else [(i, from)]) + Grid(size, size) + Grid(size, size)
  }

  lemma HidingPairsOk(z: Record, r: Record, i: nat, from: nat, size: nat)
    requires i < size && from < size
    ensures Pairs(HidingPairs(z, r, i, from, size), size)
  {
    var grid := Grid(size, size);
    var first := if r.written == z.written then [] else [(i, from)];
    GridPairs(size, size, size);
    PairsJoin(first, grid, size);
    PairsJoin(first + grid, grid, size);
  }

  ghost predicate Follows(plan: seq<Meeting>, pairs: seq<(nat, nat)>) {
    |plan| == |pairs| && forall k | 0 <= k < |pairs| :: plan[k].to == pairs[k].0 && plan[k].from == pairs[k].1
  }

  /** After the first meeting, or at once, the loser is stuck. */
  lemma StuckSoon(cfg: Config, now: u64, plan: seq<Meeting>, trace: seq<seq<State>>, n: Bytes, s: set<Record>,
                  z: Record, x: Record, r: Record, i: nat, from: nat)
    returns (j: nat)
    requires Healing(cfg, now, plan, trace, n, s) && WholeDigests(cfg, now, plan, trace, n) && Hides(s, z, x, r)
    requires i < |trace[0]| && from < |trace[0]|
    requires View(cfg, trace[0][i], now, n) == Some(r) && View(cfg, trace[0][from], now, n) == Some(x)
    requires r.written == z.written || (|plan| > 0 && plan[0].to == i && plan[0].from == from)
    ensures j <= |plan| && StuckAt(cfg, now, trace[j], n, s, z, i)
  {
    LoserTakesTouch(s, n, z, x, r);
    if r.written == z.written {
      j := 0;
    } else {
      j := 1;
      assert Told(cfg, now, plan[0], trace[0], n);
      MeetsView(cfg, trace[0], plan[0], now, trace[1], n, s);
    }
  }

  lemma HidingPlan(cfg: Config, now: u64, reps: seq<State>, n: Bytes)
    returns (plan: seq<Meeting>, trace: seq<seq<State>>, half: nat, i: nat)
    requires AllKeyed(reps) && n != MIRROR && TieCanHide(Held(cfg, reps, now, n))
    ensures TwoRounds(cfg, now, plan, trace, half) && trace[0] == reps && i < |reps| == |trace[|plan|]|
    ensures !ShowsJoin(Held(cfg, reps, now, n), View(cfg, trace[|plan|][i], now, n))
  {
    var s, size := Held(cfg, reps, now, n), |reps|;
    StartSound(cfg, reps, now, n);
    var z, x, r :| Hides(s, z, x, r);
    i := HolderOf(cfg, reps, now, n, r);
    var from := HolderOf(cfg, reps, now, n, x);
    var pairs := HidingPairs(z, r, i, from, size);
    HidingPairsOk(z, r, i, from, size);
    plan, trace := Arrange(cfg, now, reps, pairs, n);
    half := |pairs| - |Grid(size, size)|;
    Rounds(plan, pairs, if r.written == z.written then [] else [(i, from)], half, size);
    var j := StuckSoon(cfg, now, plan, trace, n, s, z, x, r, i, from);
    StaysStuck(cfg, now, plan, trace, n, s, z, i, j, |plan|);
    StuckIsNoJoin(s, z, View(cfg, trace[|plan|][i], now, n));
  }

  lemma Rounds(plan: seq<Meeting>, pairs: seq<(nat, nat)>, first: seq<(nat, nat)>, half: nat, size: nat)
    requires pairs == first + Grid(size, size) + Grid(size, size) && half == |first| + |Grid(size, size)|
    requires Follows(plan, pairs)
    ensures AllMeet(plan, 0, half, size) && AllMeet(plan, half, |plan|, size)
  {
    var all := |plan|;
    forall to: nat, from: nat | to < size && from < size && to != from ensures Met(plan, 0, half, to, from) {
      MetInGrid(plan, pairs, first, half, size, to, from);
    }
    forall to: nat, from: nat | to < size && from < size && to != from ensures Met(plan, half, all, to, from) {
      MetInGrid(plan, pairs, first, half, size, to, from);
    }
  }

  lemma MetInGrid(plan: seq<Meeting>, pairs: seq<(nat, nat)>, first: seq<(nat, nat)>, half: nat, size: nat, to: nat, from: nat)
    requires pairs == first + Grid(size, size) + Grid(size, size) && half == |first| + |Grid(size, size)|
    requires Follows(plan, pairs) && to < size && from < size && to != from
    ensures Met(plan, 0, half, to, from) && Met(plan, half, |plan|, to, from)
  {
    var grid := Grid(size, size);
    InGrid(size, size, to, from);
    var k :| 0 <= k < |grid| && grid[k] == (to, from);
    assert pairs[|first| + k] == (to, from) && pairs[half + k] == (to, from);
  }

  // ---- Exactly ----

  /** In every plan of two rounds from `reps`, all end with the join of what was held. */
  ghost predicate SureToHeal(cfg: Config, now: u64, reps: seq<State>, n: Bytes) {
    forall plan, trace, half | TwoRounds(cfg, now, plan, trace, half) && trace[0] == reps ::
      AllShowJoin(cfg, now, trace[|plan|], n, Held(cfg, reps, now, n))
  }

  ghost predicate AllShowJoin(cfg: Config, now: u64, reps: seq<State>, n: Bytes, s: set<Record>) {
    forall i | 0 <= i < |reps| :: ShowsJoin(s, View(cfg, reps[i], now, n))
  }

  /**
   Two rounds are sure to heal a name, in whatever order the replicas meet and however their digests
   are cut, if and only if no tie can hide: either one write alone has the top stamp, or every record
   touched last is the winning write.
   */
  lemma SureToHealExactly(cfg: Config, now: u64, reps: seq<State>, n: Bytes)
    requires AllKeyed(reps) && n != MIRROR
    ensures SureToHeal(cfg, now, reps, n) <==> !TieCanHide(Held(cfg, reps, now, n))
  {
    var s := Held(cfg, reps, now, n);
    if TieCanHide(s) {
      var plan, trace, half, i := HidingPlan(cfg, now, reps, n);
      assert !AllShowJoin(cfg, now, trace[|plan|], n, s);
    } else {
      forall plan, trace, half | TwoRounds(cfg, now, plan, trace, half) && trace[0] == reps
        ensures AllShowJoin(cfg, now, trace[|plan|], n, s)
      {
        StartSound(cfg, reps, now, n);
        RunSound(cfg, now, plan, trace, n, s, |plan|);
        forall i | 0 <= i < |trace[|plan|]| ensures ShowsJoin(s, View(cfg, trace[|plan|][i], now, n)) {
          TwoRoundsHeal(cfg, now, plan, trace, half, n, i);
        }
      }
    }
  }
}
