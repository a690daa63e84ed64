/** Healing a partition among any number of replicas. */
module MeshHeal {
  import opened Machine
  import opened HybridClock
  import opened RegisterMerge
  import opened RegisterState
  import opened AntiEntropy

  // Replicas pull from one another at one wall-clock reading. Each pull may stop short of the join,
  // because a digest can hide a fresher touch on an older write; still, once every replica has pulled
  // from every other twice over, in any order, all hold the join of what all of them held, unless two
  // hosts minted one stamp for different writes and the touches let that stay hidden.

  /** `to` pulls from `from`, having sent `digest`. */
  datatype Meeting = Meeting(to: nat, from: nat, digest: seq<DigestEntry>)

  ghost predicate Meets(cfg: Config, reps: seq<State>, m: Meeting, now: u64, reps': seq<State>) {
    && m.to < |reps| && m.from < |reps|
    && CutOfDigest(cfg, reps[m.to], m.digest, now)
    && reps' == reps[m.to := Pull(cfg, reps[m.to], reps[m.from], m.digest, now)]
  }

  ghost predicate IsHealing(cfg: Config, now: u64, plan: seq<Meeting>, trace: seq<seq<State>>) {
    && |trace| == |plan| + 1
    && forall k | 0 <= k < |plan| :: Meets(cfg, trace[k], plan[k], now, trace[k + 1])
  }

  /** Between steps j and k each of n replicas pulls from every other. */
  ghost predicate AllMeet(plan: seq<Meeting>, j: nat, k: nat, n: nat)
    requires j <= k <= |plan|
  {
    forall to: nat, from: nat | to < n && from < n && to != from :: Met(plan, j, k, to, from)
  }

  ghost predicate Met(plan: seq<Meeting>, j: nat, k: nat, to: nat, from: nat)
    requires j <= k <= |plan|
  {
    exists i | j <= i < k :: plan[i].to == to && plan[i].from == from
  }

  // ---- One name ----

  /** What a replica shows of a name. */
  function View(cfg: Config, st: State, now: u64, n: Bytes): Option<Record> {
    Get(Prune(st.records, now, cfg.ttlMs), n)
  }

  function Views(cfg: Config, reps: seq<State>, now: u64, n: Bytes): (q: seq<Option<Record>>)
    ensures |q| == |reps| && forall i | 0 <= i < |reps| :: q[i] == View(cfg, reps[i], now, n)
  {
    seq(|reps|, i requires 0 <= i < |reps| => View(cfg, reps[i], now, n))
  }

  function Values(q: seq<Option<Record>>): set<Record> {
    if q == [] then {}
    else Values(q[..|q| - 1]) + (if q[|q| - 1].Some? then {q[|q| - 1].value} else {})
  }

  lemma {:induction false} ValuesExact(q: seq<Option<Record>>)
    ensures forall r :: r in Values(q) <==> Some(r) in q
  {
    if q != [] {
      ValuesExact(q[..|q| - 1]);
      assert q == q[..|q| - 1] + [q[|q| - 1]];
    }
  }

  /** The records of a name that the replicas hold, unexpired. */
  ghost function Held(cfg: Config, reps: seq<State>, now: u64, n: Bytes): set<Record> {
    Values(Views(cfg, reps, now, n))
  }

  /** A record put together from `s`: the value of one, the touch of one. */
  ghost predicate MadeOf(s: set<Record>, r: Record) {
    && (exists x :: x in s && x.name == r.name && SameValue(x, r))
    && (exists x :: x in s && x.touched == r.touched)
  }

  ghost predicate MadeOfOrNone(s: set<Record>, v: Option<Record>) {
    v.Some? ==> MadeOf(s, v.value)
  }

  ghost predicate TopValue(s: set<Record>, v: Option<Record>) {
    v.Some? && forall x | x in s :: !ValueLess(v.value, x)
  }

  ghost predicate TopTouch(s: set<Record>, v: Option<Record>) {
    v.Some? && forall x | x in s :: AtMost(x.touched, v.value.touched)
  }

  /** The top stamp was minted for one write. */
  ghost predicate OneTopWrite(s: set<Record>) {
    forall x, z | x in s && z in s && TopValue(s, Some(z)) && x.written == z.written :: SameValue(x, z)
  }

  /** Every record touched last is the top write. */
  ghost predicate TopTouchWins(s: set<Record>) {
    forall r, z | r in s && z in s && TopTouch(s, Some(r)) && TopValue(s, Some(z)) :: SameValue(r, z)
  }

  /** `x` lost a tie at the top stamp to `z`, and `r`, which is not that write, was touched last. */
  ghost predicate Hides(s: set<Record>, z: Record, x: Record, r: Record) {
    && z in s && TopValue(s, Some(z)) && x in s && x.written == z.written && !SameValue(x, z)
    && r in s && TopTouch(s, Some(r)) && !SameValue(r, z)
  }

  ghost predicate TieCanHide(s: set<Record>) {
    exists z, x, r :: Hides(s, z, x, r)
  }

  lemma NoTieHides(s: set<Record>)
    requires !TieCanHide(s)
    ensures OneTopWrite(s) || TopTouchWins(s)
  {
    if !OneTopWrite(s) && !TopTouchWins(s) {
      var x, z :| x in s && z in s && TopValue(s, Some(z)) && x.written == z.written && !SameValue(x, z);
      var r, y :| r in s && y in s && TopTouch(s, Some(r)) && TopValue(s, Some(y)) && !SameValue(r, y);
      ValueOrderTotal(y, z);
      assert Hides(s, z, x, r);
    }
  }

  lemma MergeMadeOf(s: set<Record>, a: Record, b: Record)
    requires MadeOf(s, a) && MadeOf(s, b) && a.name == b.name
    ensures MadeOf(s, Merge(a, b))
  {
    var xa :| xa in s && xa.name == a.name && SameValue(xa, a);
    var xb :| xb in s && xb.name == b.name && SameValue(xb, b);
    var m := Merge(a, b);
    assert SameValue(xa, m) || SameValue(xb, m);
  }

  /** A pull stays within what is held, and never loses the top value or the top touch. */
  lemma PullKeeps(s: set<Record>, n: Bytes, a: Option<Record>, b: Option<Record>, listed: bool)
    requires OneName(s, n) && MadeOfOrNone(s, a) && MadeOfOrNone(s, b)
    ensures MadeOfOrNone(s, PullOne(a, b, listed))
    ensures TopValue(s, a) ==> TopValue(s, PullOne(a, b, listed))
    ensures TopTouch(s, a) ==> TopTouch(s, PullOne(a, b, listed))
  {
    if a.Some? && PushOne(a, b, listed).Some? {
      MergeMadeOf(s, a.value, b.value);
      if TopValue(s, a) {
        forall x | x in s ensures !ValueLess(Merge(a.value, b.value), x) {
          assert !ValueLess(a.value, x);
          ValueOrderTotal(a.value, x);
          BelowMerge(a.value, b.value, x.(touched := a.value.touched));
        }
      }
    }
  }

  /** Pulling from a replica that has the top value gives it. */
  lemma PullTopValue(s: set<Record>, n: Bytes, a: Option<Record>, b: Option<Record>, listed: bool)
    requires OneName(s, n) && OneTopWrite(s) && MadeOfOrNone(s, a) && MadeOfOrNone(s, b)
    requires TopValue(s, b)
    ensures TopValue(s, PullOne(a, b, listed))
  {
    if a.Some? {
      var xa :| xa in s && xa.name == a.value.name && SameValue(xa, a.value);
      var xb :| xb in s && xb.name == b.value.name && SameValue(xb, b.value);
      assert !ValueLess(b.value, xa) && TopValue(s, Some(xb));
      ValueOrderTotal(a.value, b.value);
    }
  }

  /** Whoever has the top touch has the top value. */
  ghost predicate Wins(s: set<Record>, v: Option<Record>) {
    TopTouch(s, v) ==> TopValue(s, v)
  }

  lemma PullKeepsWins(s: set<Record>, n: Bytes, a: Option<Record>, b: Option<Record>, listed: bool)
    requires OneName(s, n) && MadeOfOrNone(s, a) && MadeOfOrNone(s, b) && Wins(s, a) && Wins(s, b)
    ensures Wins(s, PullOne(a, b, listed))
  {
    if a.Some? && PushOne(a, b, listed).Some? && TopTouch(s, PullOne(a, b, listed)) {
      var m := Merge(a.value, b.value);
      forall x | x in s ensures !ValueLess(m, x) {
        assert AtMost(x.touched, m.touched);
        var probe := x.(touched := a.value.touched);
        ValueOrderTotal(a.value, x);
        BelowMerge(a.value, b.value, if TopTouch(s, a) then probe else x.(touched := b.value.touched));
      }
    }
  }

  /** Pulling from a replica that has the top value and the top touch gives both. */
  lemma PullFromWinner(s: set<Record>, n: Bytes, a: Option<Record>, b: Option<Record>, listed: bool)
    requires OneName(s, n) && MadeOfOrNone(s, a) && MadeOfOrNone(s, b) && Wins(s, a)
    requires TopValue(s, b) && TopTouch(s, b)
    ensures TopValue(s, PullOne(a, b, listed)) && TopTouch(s, PullOne(a, b, listed))
  {
    if a.Some? {
      var xa :| xa in s && xa.name == a.value.name && SameValue(xa, a.value);
      assert !ValueLess(b.value, xa);
      ValueOrderTotal(a.value, b.value);
      if PushOne(a, b, listed).Some? {
        forall x | x in s ensures !ValueLess(Merge(a.value, b.value), x) {
          BelowMerge(a.value, b.value, x.(touched := b.value.touched));
        }
      }
    }
  }

  /** Once both have the top value, pulling from the one with the top touch gives that too. */
  lemma PullTopTouch(s: set<Record>, n: Bytes, a: Option<Record>, b: Option<Record>, listed: bool)
    requires OneName(s, n) && MadeOfOrNone(s, a) && MadeOfOrNone(s, b)
    requires TopValue(s, a) && TopValue(s, b) && TopTouch(s, b)
    ensures TopTouch(s, PullOne(a, b, listed))
  {
    var xa :| xa in s && xa.name == a.value.name && SameValue(xa, a.value);
    var xb :| xb in s && xb.name == b.value.name && SameValue(xb, b.value);
    assert !ValueLess(b.value, xa) && !ValueLess(a.value, xb);
    ValueOrderTotal(a.value, b.value);
  }

  lemma TopIsJoin(s: set<Record>, v: Option<Record>)
    requires MadeOfOrNone(s, v) && TopValue(s, v) && TopTouch(s, v)
    ensures IsJoin(s, v.value)
  {}

  // ---- Whole plans ----

  /** Every replica keeps its records in order, and shows of the name only what `s` is made of. */
  ghost predicate Sound(cfg: Config, reps: seq<State>, now: u64, n: Bytes, s: set<Record>) {
    forall i | 0 <= i < |reps| :: Keyed(reps[i].records) && MadeOfOrNone(s, View(cfg, reps[i], now, n))
  }

  lemma MeetsView(cfg: Config, reps: seq<State>, m: Meeting, now: u64, reps': seq<State>, n: Bytes, s: set<Record>)
    requires Meets(cfg, reps, m, now, reps') && Sound(cfg, reps, now, n, s) && OneName(s, n) && n != MIRROR
    ensures |reps'| == |reps| && Sound(cfg, reps', now, n, s)
    ensures View(cfg, reps'[m.to], now, n)
         == PullOne(View(cfg, reps[m.to], now, n), View(cfg, reps[m.from], now, n), Lists(m.digest, n))
    ensures forall i | 0 <= i < |reps| && i != m.to :: reps'[i] == reps[i]
  {
    var a, b := reps[m.to], reps[m.from];
    PullAt(cfg, a, b, m.digest, now, n);
    SnapshotGet(cfg, reps'[m.to].records, now, n);
    ApplyAllKeyed(cfg, Snapshot(cfg, a, now), Pushed(cfg, b, m.digest, now), now);
    PullKeeps(s, n, View(cfg, a, now, n), View(cfg, b, now, n), Lists(m.digest, n));
  }

  lemma {:induction false} RunSound(cfg: Config, now: u64, plan: seq<Meeting>, trace: seq<seq<State>>, n: Bytes,
                                    s: set<Record>, k: nat)
    requires IsHealing(cfg, now, plan, trace) && k <= |plan| && n != MIRROR
    requires Sound(cfg, trace[0], now, n, s) && OneName(s, n)
    ensures |trace[k]| == |trace[0]| && Sound(cfg, trace[k], now, n, s)
  {
    if k > 0 {
      RunSound(cfg, now, plan, trace, n, s, k - 1);
      MeetsView(cfg, trace[k - 1], plan[k - 1], now, trace[k], n, s);
    }
  }

  /** The setting of the lemmas below: a run of meetings, one name, and what was held of it. */
  ghost predicate Healing(cfg: Config, now: u64, plan: seq<Meeting>, trace: seq<seq<State>>, n: Bytes, s: set<Record>) {
    && IsHealing(cfg, now, plan, trace) && n != MIRROR && OneName(s, n) && Sound(cfg, trace[0], now, n, s)
  }

  /** Once a replica has the top value, or the top touch, it keeps it. */
  lemma {:induction false} StaysTop(cfg: Config, now: u64, plan: seq<Meeting>, trace: seq<seq<State>>, n: Bytes,
                                    s: set<Record>, i: nat, j: nat, k: nat)
    requires Healing(cfg, now, plan, trace, n, s) && j <= k <= |plan| && i < |trace[0]|
    ensures |trace[j]| == |trace[k]| == |trace[0]|
    ensures TopValue(s, View(cfg, trace[j][i], now, n)) ==> TopValue(s, View(cfg, trace[k][i], now, n))
    ensures TopTouch(s, View(cfg, trace[j][i], now, n)) ==> TopTouch(s, View(cfg, trace[k][i], now, n))
  {
    RunSound(cfg, now, plan, trace, n, s, j);
    if j < k {
      StaysTop(cfg, now, plan, trace, n, s, i, j, k - 1);
      RunSound(cfg, now, plan, trace, n, s, k - 1);
      var m, reps := plan[k - 1], trace[k - 1];
      MeetsView(cfg, reps, m, now, trace[k], n, s);
      PullKeeps(s, n, View(cfg, reps[m.to], now, n), View(cfg, reps[m.from], now, n), Lists(m.digest, n));
    }
  }

  /** A replica that meets a holder of the top value has it afterwards. */
  lemma ValueSpreads(cfg: Config, now: u64, plan: seq<Meeting>, trace: seq<seq<State>>, n: Bytes, s: set<Record>,
                     h: nat, i: nat, j: nat, k: nat)
    requires Healing(cfg, now, plan, trace, n, s) && j <= k <= |plan| && i < |trace[0]| && h < |trace[0]|
    requires |trace[j]| == |trace[0]| && TopValue(s, View(cfg, trace[j][h], now, n)) && OneTopWrite(s)
    requires i != h ==> Met(plan, j, k, i, h)
    ensures |trace[k]| == |trace[0]| && TopValue(s, View(cfg, trace[k][i], now, n))
  {
    if i == h {
      StaysTop(cfg, now, plan, trace, n, s, h, j, k);
    } else {
      var l :| j <= l < k && plan[l].to == i && plan[l].from == h;
      StaysTop(cfg, now, plan, trace, n, s, h, j, l);
      RunSound(cfg, now, plan, trace, n, s, l);
      MeetsView(cfg, trace[l], plan[l], now, trace[l + 1], n, s);
      PullTopValue(s, n, View(cfg, trace[l][i], now, n), View(cfg, trace[l][h], now, n), Lists(plan[l].digest, n));
      StaysTop(cfg, now, plan, trace, n, s, i, l + 1, k);
    }
  }

  /** Among replicas that have the top value, one that meets a holder of the top touch has that too. */
  lemma TouchSpreads(cfg: Config, now: u64, plan: seq<Meeting>, trace: seq<seq<State>>, n: Bytes, s: set<Record>,
                     h: nat, i: nat, j: nat, k: nat)
    requires Healing(cfg, now, plan, trace, n, s) && j <= k <= |plan| && i < |trace[0]| && h < |trace[0]|
    requires |trace[j]| == |trace[0]| && TopTouch(s, View(cfg, trace[j][h], now, n))
    requires TopValue(s, View(cfg, trace[j][h], now, n)) && TopValue(s, View(cfg, trace[j][i], now, n))
    requires i != h ==> Met(plan, j, k, i, h)
    ensures |trace[k]| == |trace[0]| && TopTouch(s, View(cfg, trace[k][i], now, n))
  {
    if i == h {
      StaysTop(cfg, now, plan, trace, n, s, h, j, k);
    } else {
      var l :| j <= l < k && plan[l].to == i && plan[l].from == h;
      StaysTop(cfg, now, plan, trace, n, s, h, j, l);
      StaysTop(cfg, now, plan, trace, n, s, i, j, l);
      RunSound(cfg, now, plan, trace, n, s, l);
      MeetsView(cfg, trace[l], plan[l], now, trace[l + 1], n, s);
      PullTopTouch(s, n, View(cfg, trace[l][i], now, n), View(cfg, trace[l][h], now, n), Lists(plan[l].digest, n));
      StaysTop(cfg, now, plan, trace, n, s, i, l + 1, k);
    }
  }

  ghost predicate AllWin(cfg: Config, reps: seq<State>, now: u64, n: Bytes, s: set<Record>) {
    forall i | 0 <= i < |reps| :: Wins(s, View(cfg, reps[i], now, n))
  }

  lemma {:induction false} StayWinning(cfg: Config, now: u64, plan: seq<Meeting>, trace: seq<seq<State>>, n: Bytes,
                                       s: set<Record>, k: nat)
    requires Healing(cfg, now, plan, trace, n, s) && k <= |plan| && AllWin(cfg, trace[0], now, n, s)
    ensures |trace[k]| == |trace[0]| && AllWin(cfg, trace[k], now, n, s)
  {
    if k > 0 {
      StayWinning(cfg, now, plan, trace, n, s, k - 1);
      RunSound(cfg, now, plan, trace, n, s, k - 1);
      StepWinning(cfg, trace[k - 1], plan[k - 1], now, trace[k], n, s);
    }
  }

  lemma StepWinning(cfg: Config, reps: seq<State>, m: Meeting, now: u64, reps': seq<State>, n: Bytes, s: set<Record>)
    requires Meets(cfg, reps, m, now, reps') && Sound(cfg, reps, now, n, s) && OneName(s, n) && n != MIRROR
    requires AllWin(cfg, reps, now, n, s)
    ensures AllWin(cfg, reps', now, n, s)
  {
    MeetsView(cfg, reps, m, now, reps', n, s);
    PullKeepsWins(s, n, View(cfg, reps[m.to], now, n), View(cfg, reps[m.from], now, n), Lists(m.digest, n));
    forall i | 0 <= i < |reps'| ensures Wins(s, View(cfg, reps'[i], now, n)) {
      assert Wins(s, View(cfg, reps[i], now, n));
    }
  }

  /** While whoever has the top touch has the top value, a replica that meets a winner is one afterwards. */
  lemma WinnerSpreads(cfg: Config, now: u64, plan: seq<Meeting>, trace: seq<seq<State>>, n: Bytes, s: set<Record>,
                      h: nat, i: nat, k: nat)
    requires Healing(cfg, now, plan, trace, n, s) && k <= |plan| && i < |trace[0]| && h < |trace[0]|
    requires AllWin(cfg, trace[0], now, n, s) && TopTouch(s, View(cfg, trace[0][h], now, n))
    requires i != h ==> Met(plan, 0, k, i, h)
    ensures |trace[k]| == |trace[0]|
    ensures TopValue(s, View(cfg, trace[k][i], now, n)) && TopTouch(s, View(cfg, trace[k][i], now, n))
  {
    if i == h {
      StaysTop(cfg, now, plan, trace, n, s, h, 0, k);
    } else {
      var l :| 0 <= l < k && plan[l].to == i && plan[l].from == h;
      StaysTop(cfg, now, plan, trace, n, s, h, 0, l);
      StayWinning(cfg, now, plan, trace, n, s, l);
      RunSound(cfg, now, plan, trace, n, s, l);
      MeetsView(cfg, trace[l], plan[l], now, trace[l + 1], n, s);
      PullFromWinner(s, n, View(cfg, trace[l][i], now, n), View(cfg, trace[l][h], now, n), Lists(plan[l].digest, n));
      StaysTop(cfg, now, plan, trace, n, s, i, l + 1, k);
    }
  }

  // ---- Where the winners are at the start ----

  predicate ValueUpTo(views: seq<Option<Record>>, h: nat, m: nat)
    requires h < |views| && m <= |views|
  {
    views[h].Some? && forall i | 0 <= i < m && views[i].Some? :: !ValueLess(views[h].value, views[i].value)
  }

  predicate TouchUpTo(views: seq<Option<Record>>, h: nat, m: nat)
    requires h < |views| && m <= |views|
  {
    views[h].Some? && forall i | 0 <= i < m && views[i].Some? :: AtMost(views[i].value.touched, views[h].value.touched)
  }

  /** Somebody holds the top value, and somebody the top touch. */
  lemma {:induction false} HoldersExist(views: seq<Option<Record>>, start: nat, m: nat) returns (v: nat, t: nat)
    requires start < |views| && views[start].Some? && m <= |views|
    ensures v < |views| && ValueUpTo(views, v, m) && t < |views| && TouchUpTo(views, t, m)
  {
    if m == 0 {
      v, t := start, start;
    } else {
      v, t := HoldersExist(views, start, m - 1);
      var last := views[m - 1];
      if last.Some? && ValueLess(views[v].value, last.value) {
        forall i | 0 <= i < m && views[i].Some? ensures !ValueLess(last.value, views[i].value) {
          ValueOrderTotal(last.value, views[i].value);
          ValueOrderTotal(views[v].value, last.value);
          if ValueLess(last.value, views[i].value) {
            ValueOrderTransitive(views[v].value, last.value, views[i].value);
          }
        }
        v := m - 1;
      }
      if last.Some? && Less(views[t].value.touched, last.value.touched) {
        t := m - 1;
      }
    }
  }

  lemma StartSound(cfg: Config, reps: seq<State>, now: u64, n: Bytes)
    requires forall i | 0 <= i < |reps| :: Keyed(reps[i].records)
    ensures OneName(Held(cfg, reps, now, n), n) && Sound(cfg, reps, now, n, Held(cfg, reps, now, n))
  {
    var s, views := Held(cfg, reps, now, n), Views(cfg, reps, now, n);
    ValuesExact(views);
    forall r | r in s ensures r.name == n {
      var i :| 0 <= i < |views| && views[i] == Some(r);
    }
    forall i | 0 <= i < |reps| ensures MadeOfOrNone(s, View(cfg, reps[i], now, n)) {
      if views[i].Some? {
        assert Some(views[i].value) in views && SameValue(views[i].value, views[i].value);
      }
    }
  }

  lemma HoldersAtStart(cfg: Config, reps: seq<State>, now: u64, n: Bytes) returns (v: nat, t: nat)
    requires Held(cfg, reps, now, n) != {}
    ensures v < |reps| && TopValue(Held(cfg, reps, now, n), View(cfg, reps[v], now, n))
    ensures t < |reps| && TopTouch(Held(cfg, reps, now, n), View(cfg, reps[t], now, n))
  {
    var s, views := Held(cfg, reps, now, n), Views(cfg, reps, now, n);
    ValuesExact(views);
    var x :| x in s;
    var start :| 0 <= start < |views| && views[start] == Some(x);
    v, t := HoldersExist(views, start, |views|);
    TopOfValues(views, v, t);
  }

  lemma TopOfValues(views: seq<Option<Record>>, v: nat, t: nat)
    requires v < |views| && ValueUpTo(views, v, |views|) && t < |views| && TouchUpTo(views, t, |views|)
    ensures TopValue(Values(views), views[v]) && TopTouch(Values(views), views[t])
  {
    ValuesExact(views);
    forall r | r in Values(views) ensures !ValueLess(views[v].value, r) && AtMost(r.touched, views[t].value.touched) {
      var i :| 0 <= i < |views| && views[i] == Some(r);
    }
  }

  lemma AllWinAtStart(cfg: Config, reps: seq<State>, now: u64, n: Bytes)
    requires forall i | 0 <= i < |reps| :: Keyed(reps[i].records)
    requires TopTouchWins(Held(cfg, reps, now, n))
    ensures AllWin(cfg, reps, now, n, Held(cfg, reps, now, n))
  {
    var s, views := Held(cfg, reps, now, n), Views(cfg, reps, now, n);
    ValuesExact(views);
    forall i | 0 <= i < |reps| ensures Wins(s, View(cfg, reps[i], now, n)) {
      if TopTouch(s, views[i]) {
        var v, t := HoldersAtStart(cfg, reps, now, n);
        assert views[i] == Some(views[i].value) && views[v] == Some(views[v].value);
        TopAlike(s, views[i].value, views[v].value);
      }
    }
  }

  lemma TopAlike(s: set<Record>, r: Record, z: Record)
    requires TopTouchWins(s) && r in s && z in s && TopTouch(s, Some(r)) && TopValue(s, Some(z))
    ensures TopValue(s, Some(r))
  {
    assert SameValue(r, z);
  }

  /** The setting: a mesh of any size, and a plan that lets all meet all before step `half` and again after it. */
  ghost predicate TwoRounds(cfg: Config, now: u64, plan: seq<Meeting>, trace: seq<seq<State>>, half: nat) {
    && IsHealing(cfg, now, plan, trace) && half <= |plan|
    && (forall r | 0 <= r < |trace[0]| :: Keyed(trace[0][r].records))
    && AllMeet(plan, 0, half, |trace[0]|) && AllMeet(plan, half, |plan|, |trace[0]|)
  }

  lemma TopAfterTwoRounds(cfg: Config, now: u64, plan: seq<Meeting>, trace: seq<seq<State>>, half: nat, n: Bytes, i: nat)
    requires TwoRounds(cfg, now, plan, trace, half) && n != MIRROR && i < |trace[0]|
    requires Held(cfg, trace[0], now, n) != {} && !TieCanHide(Held(cfg, trace[0], now, n))
    ensures var s := Held(cfg, trace[0], now, n);
      && |trace[|plan|]| == |trace[0]|
      && TopValue(s, View(cfg, trace[|plan|][i], now, n)) && TopTouch(s, View(cfg, trace[|plan|][i], now, n))
  {
    var s := Held(cfg, trace[0], now, n);
    StartSound(cfg, trace[0], now, n);
    NoTieHides(s);
    var v, t := HoldersAtStart(cfg, trace[0], now, n);
    if OneTopWrite(s) {
      ValueSpreads(cfg, now, plan, trace, n, s, v, i, 0, half);
      ValueSpreads(cfg, now, plan, trace, n, s, v, t, 0, half);
      StaysTop(cfg, now, plan, trace, n, s, t, 0, half);
      TouchSpreads(cfg, now, plan, trace, n, s, t, i, half, |plan|);
      StaysTop(cfg, now, plan, trace, n, s, i, half, |plan|);
    } else {
      AllWinAtStart(cfg, trace[0], now, n);
      WinnerSpreads(cfg, now, plan, trace, n, s, t, i, half);
      StaysTop(cfg, now, plan, trace, n, s, i, half, |plan|);
    }
  }

  /** What a replica should show in the end: the join of what was held, or nothing if nobody held anything. */
  ghost predicate ShowsJoin(s: set<Record>, v: Option<Record>) {
    if s == {} then v == None else v.Some? && IsJoin(s, v.value)
  }

  /**
   However many replicas there are, whatever they held, and in whatever order they meet: when
   each has pulled from every other, and then again, all hold exactly the join of what was held of
   every name on which no tie can hide.
   */
  lemma TwoRoundsHeal(cfg: Config, now: u64, plan: seq<Meeting>, trace: seq<seq<State>>, half: nat, n: Bytes, i: nat)
    requires TwoRounds(cfg, now, plan, trace, half) && n != MIRROR && i < |trace[0]|
    requires !TieCanHide(Held(cfg, trace[0], now, n))
    ensures |trace[|plan|]| == |trace[0]|
    ensures ShowsJoin(Held(cfg, trace[0], now, n), View(cfg, trace[|plan|][i], now, n))
  {
    var s := Held(cfg, trace[0], now, n);
    StartSound(cfg, trace[0], now, n);
    RunSound(cfg, now, plan, trace, n, s, |plan|);
    if s != {} {
      TopAfterTwoRounds(cfg, now, plan, trace, half, n, i);
      TopIsJoin(s, View(cfg, trace[|plan|][i], now, n));
    }
  }

  /** So all of them agree. */
  lemma HealedAgree(cfg: Config, now: u64, plan: seq<Meeting>, trace: seq<seq<State>>, half: nat, n: Bytes, i: nat, j: nat)
    requires TwoRounds(cfg, now, plan, trace, half) && n != MIRROR && i < |trace[0]| && j < |trace[0]|
    requires !TieCanHide(Held(cfg, trace[0], now, n))
    ensures |trace[|plan|]| == |trace[0]|
    ensures View(cfg, trace[|plan|][i], now, n) == View(cfg, trace[|plan|][j], now, n)
  {
    var s := Held(cfg, trace[0], now, n);
    TwoRoundsHeal(cfg, now, plan, trace, half, n, i);
    TwoRoundsHeal(cfg, now, plan, trace, half, n, j);
    StartSound(cfg, trace[0], now, n);
    if s != {} {
      JoinUnique(s, View(cfg, trace[|plan|][i], now, n).value, View(cfg, trace[|plan|][j], now, n).value, n);
    }
  }
}
