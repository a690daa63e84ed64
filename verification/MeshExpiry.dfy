/** Tombstones outlive their victims: a mesh of replicas whose records expire. */
module MeshExpiry {
  import opened Machine
  import opened HybridClock
  import opened RegisterMerge
  import opened RegisterState
  import opened ClockBound
  import opened Convergence
  import LazyExpiry
  import RegisterStore
  import MeshHeal

  // The mesh of module Convergence with expiry in force, under one wall clock that never runs back.
  // A replica may forget; what it forgets is never overtaken by a write it had seen and that is still
  // alive somewhere, because a record is touched no earlier than anything it absorbed.

  datatype Mesh = Mesh(replicas: map<nat, Replica>, sent: set<Message>, now: u64)

  /** One atomic step. A copy is sent while unexpired; it may arrive at any time, again, or never. */
  ghost predicate MeshNext(cfg: Config, mesh: Mesh, act: Action, mesh': Mesh) {
    && act.who in mesh.replicas
    && var rep := mesh.replicas[act.who];
      match act
      case Local(who, op, now) =>
        && mesh.now <= now && !op.ApplyRemote? && CanRun(rep.state, op, now)
        && mesh' == mesh.(replicas := mesh.replicas[who := Served(cfg, rep, op, now)], now := now)
      case Send(who, name) =>
        && name != MIRROR && name in rep.state.records && !IsExpired(rep.state.records[name], mesh.now, cfg.ttlMs)
        && mesh' == mesh.(sent := mesh.sent + {Message(rep.state.records[name], Named(rep.seen, name))})
      case Deliver(who, message, now) =>
        && mesh.now <= now && message in mesh.sent
        && mesh' == mesh.(replicas := mesh.replicas[who := Received(cfg, rep, message, now)], now := now)
  }

  /** The write a local call originates, if any. */
  ghost function Wrote(cfg: Config, rep: Replica, op: Op, now: u64): set<Record> {
    var (st', r) := Step(cfg, rep.state, op, now);
    Originated(op, r, st'.records)
  }

  ghost function Served(cfg: Config, rep: Replica, op: Op, now: u64): Replica {
    Replica(Step(cfg, rep.state, op, now).0, rep.seen + Wrote(cfg, rep, op, now))
  }

  ghost function Received(cfg: Config, rep: Replica, message: Message, now: u64): Replica {
    Replica(Step(cfg, rep.state, ApplyRemote(message.record), now).0, rep.seen + message.carried)
  }

  ghost predicate IsMeshRun(cfg: Config, acts: seq<Action>, trace: seq<Mesh>) {
    && |trace| == |acts| + 1 && trace[0].sent == {}
    && (forall i | i in trace[0].replicas :: trace[0].replicas[i].state.records == map[] && trace[0].replicas[i].seen == {})
    && forall k | 0 <= k < |acts| :: MeshNext(cfg, trace[k], acts[k], trace[k + 1])
  }

  // ---- The invariant ----

  function Alive(cfg: Config, rep: Replica, now: u64): Records {
    Prune(rep.state.records, now, cfg.ttlMs)
  }

  /** Every unexpired write in `s` is below `r`. */
  ghost predicate Covers(cfg: Config, s: set<Record>, r: Record, now: u64) {
    forall x | x in s && !IsExpired(x, now, cfg.ttlMs) :: Below(x, r)
  }

  /** The unexpired record is made of writes seen, and is above every unexpired write seen; without one, all have expired. */
  ghost predicate Dominates(cfg: Config, m: Records, s: set<Record>, now: u64, n: Bytes) {
    if n in m then MeshHeal.MadeOf(s, m[n]) && Covers(cfg, s, m[n], now)
    else forall x | x in s :: IsExpired(x, now, cfg.ttlMs)
  }

  ghost predicate MeshReplicaOk(cfg: Config, rep: Replica, now: u64) {
    && Keyed(rep.state.records) && Bounded(rep.state)
    && forall n | n != MIRROR :: Dominates(cfg, Alive(cfg, rep, now), Named(rep.seen, n), now, n)
  }

  ghost predicate MeshMessageOk(cfg: Config, m: Message, now: u64) {
    && m.record.name != MIRROR && OneName(m.carried, m.record.name)
    && MeshHeal.MadeOf(m.carried, m.record) && Covers(cfg, m.carried, m.record, now)
  }

  ghost predicate MeshOk(cfg: Config, mesh: Mesh) {
    && (forall i | i in mesh.replicas :: MeshReplicaOk(cfg, mesh.replicas[i], mesh.now))
    && (forall m | m in mesh.sent :: MeshMessageOk(cfg, m, mesh.now))
  }

  // ---- Time passes ----

  lemma ReplicaLater(cfg: Config, rep: Replica, now: u64, later: u64)
    requires MeshReplicaOk(cfg, rep, now) && now <= later
    ensures MeshReplicaOk(cfg, rep, later)
  {
    forall n | n != MIRROR ensures Dominates(cfg, Alive(cfg, rep, later), Named(rep.seen, n), later, n) {
      assert Dominates(cfg, Alive(cfg, rep, now), Named(rep.seen, n), now, n);
    }
  }

  lemma MeshLater(cfg: Config, mesh: Mesh, later: u64)
    requires MeshOk(cfg, mesh) && mesh.now <= later
    ensures MeshOk(cfg, mesh.(now := later))
  {
    forall i | i in mesh.replicas ensures MeshReplicaOk(cfg, mesh.replicas[i], later) {
      ReplicaLater(cfg, mesh.replicas[i], mesh.now, later);
    }
  }

  // ---- What a step does to the unexpired records ----

  /** `r` is assigned over what is unexpired, and absorbs it. */
  ghost predicate Assigns(cfg: Config, m: Records, r: Record, now: u64, m': Records) {
    && m' == Prune(m[r.name := r], now, cfg.ttlMs)
    && (r.name in m ==> Merge(m[r.name], r) == r)
  }

  ghost predicate SameButMirror(m: Records, m': Records) {
    forall n | n != MIRROR :: (n in m' <==> n in m) && (n in m ==> m'[n] == m[n])
  }

  /** A local call that originates nothing leaves the unexpired registers alone. */
  lemma LocalSilent(cfg: Config, st: State, op: Op, now: u64)
    requires !op.ApplyRemote? && Keyed(st.records)
    requires var (st', r) := Step(cfg, st, op, now); Originated(op, r, st'.records) == {}
    ensures SameButMirror(Prune(st.records, now, cfg.ttlMs), Prune(Step(cfg, st, op, now).0.records, now, cfg.ttlMs))
  {
    OriginatesNothing(cfg, st, op, now);
    RegisterStore.SilentRecords(cfg, st, op, now);
    SilentAlive(cfg, st.records, Step(cfg, st, op, now).0.records, now);
  }

  /** Only a write makes a local call heard. */
  lemma OriginatesNothing(cfg: Config, st: State, op: Op, now: u64)
    requires !op.ApplyRemote?
    requires var (st', r) := Step(cfg, st, op, now); Originated(op, r, st'.records) == {}
    ensures !RegisterStore.Notifies(op, Step(cfg, st, op, now).1)
  {
    if op.Upsert? || op.Delete? || op.Read? {
      WriteKeepsName(cfg, st, op, now);
    } else {
      OthersUnheard(cfg, st, op, now);
    }
  }

  lemma WriteKeepsName(cfg: Config, st: State, op: Op, now: u64)
    requires op.Upsert? || op.Delete? || op.Read?
    ensures var (st', r) := Step(cfg, st, op, now);
      RegisterStore.Notifies(op, r) ==> op.name in st'.records && (op.Read? ==> r.Found? && r.record.Some?)
  {}

  lemma OthersUnheard(cfg: Config, st: State, op: Op, now: u64)
    requires !op.ApplyRemote? && !op.Upsert? && !op.Delete? && !op.Read?
    ensures !RegisterStore.Notifies(op, Step(cfg, st, op, now).1)
  {
    AnswerKind(cfg, st, op, now);
  }

  /** None of these calls answers as a write, a delete or a merge does. */
  lemma AnswerKind(cfg: Config, st: State, op: Op, now: u64)
    requires !op.ApplyRemote? && !op.Upsert? && !op.Delete?
    ensures var r := Step(cfg, st, op, now).1; !r.Wrote? && !r.Deletion? && !r.Applied?
  {}

  lemma SilentAlive(cfg: Config, m: Records, m': Records, now: u64)
    requires || m' == m || m' == Prune(m, now, cfg.ttlMs)
             || (exists n :: n in m && IsExpired(m[n], now, cfg.ttlMs) && m' == m - {n})
             || (MIRROR in m' && m' == m[MIRROR := m'[MIRROR]])
    ensures SameButMirror(Prune(m, now, cfg.ttlMs), Prune(m', now, cfg.ttlMs))
  {}

  /** One that originates a write assigns it over everything the clock bounds. */
  lemma LocalWrites(cfg: Config, st: State, op: Op, now: u64, w: Record)
    requires !op.ApplyRemote? && CanRun(st, op, now) && Keyed(st.records) && Bounded(st)
    requires var (st', r) := Step(cfg, st, op, now); w in Originated(op, r, st'.records)
    ensures var (st', r) := Step(cfg, st, op, now);
      && Originated(op, r, st'.records) == {w} && w.name == Target(op)
      && Assigns(cfg, Prune(st.records, now, cfg.ttlMs), w, now, Prune(st'.records, now, cfg.ttlMs))
  {
    var m, n, ts := Prune(st.records, now, cfg.ttlMs), Target(op), Tick(st.last, now);
    TickAdvances(st.last, now);
    LazyExpiry.PruneAgain(st.records, now, cfg.ttlMs);
    LazyExpiry.PruneUpdate(st.records, m, n, w, now, cfg.ttlMs);
    if n in m {
      if op.Read? {
        RefreshIsTheJoin(st.records[n], ts);
      } else {
        FreshWriteIsTheJoin(st.last, now, w);
      }
    }
  }

  lemma DeliveryAssigns(cfg: Config, st: State, r: Record, now: u64)
    requires Keyed(st.records) && r.name != MIRROR && !IsExpired(r, now, cfg.ttlMs)
    ensures var m := Prune(st.records, now, cfg.ttlMs);
      var m' := Prune(ApplyRemoteStep(cfg, st, r, now).0.records, now, cfg.ttlMs);
      m' == m[r.name := if r.name in m then Merge(m[r.name], r) else r]
  {}

  // ---- Every step keeps the invariant ----

  lemma MadeOfMore(s: set<Record>, t: set<Record>, r: Record)
    requires MeshHeal.MadeOf(s, r)
    ensures MeshHeal.MadeOf(s + t, r) && MeshHeal.MadeOf(t + s, r)
  {
    var x :| x in s && x.name == r.name && SameValue(x, r);
    var y :| y in s && y.touched == r.touched;
    assert x in s + t && y in s + t;
  }

  /** Joining a record made of `t` into one made of `s`. */
  lemma JoinDominates(cfg: Config, m: Records, s: set<Record>, r: Record, t: set<Record>, now: u64, m': Records)
    requires var n := r.name; Dominates(cfg, m, s, now, n) && (n in m ==> m[n].name == n)
    requires MeshHeal.MadeOf(t, r) && Covers(cfg, t, r, now)
    requires r.name in m' && m'[r.name] == if r.name in m then Merge(m[r.name], r) else r
    ensures Dominates(cfg, m', s + t, now, r.name)
  {
    var n := r.name;
    MadeOfMore(t, s, r);
    if n in m {
      MadeOfMore(s, t, m[n]);
      MeshHeal.MergeMadeOf(s + t, m[n], r);
      forall x | x in s + t && !IsExpired(x, now, cfg.ttlMs) ensures Below(x, m'[n]) {
        BelowMerge(m[n], r, x);
      }
    }
  }

  /** An expired record brings nothing unexpired with it. */
  lemma ExpiredCarriesNothing(cfg: Config, t: set<Record>, r: Record, now: u64)
    requires Covers(cfg, t, r, now) && IsExpired(r, now, cfg.ttlMs)
    ensures forall x | x in t :: IsExpired(x, now, cfg.ttlMs)
  {}

  lemma WriteDominates(cfg: Config, m: Records, s: set<Record>, w: Record, now: u64, m': Records)
    requires var n := w.name; Dominates(cfg, m, s, now, n) && (n in m ==> m[n].name == n)
    requires Assigns(cfg, m, w, now, m')
    ensures Dominates(cfg, m', s + {w}, now, w.name)
  {
    JoinSingleton(w);
    assert w in {w} && MeshHeal.MadeOf({w}, w);
    if w.name in m' {
      JoinDominates(cfg, m, s, w, {w}, now, m');
    }
  }

  lemma ServedSilently(cfg: Config, rep: Replica, op: Op, now: u64, n: Bytes)
    requires MeshReplicaOk(cfg, rep, now) && !op.ApplyRemote? && n != MIRROR
    requires Wrote(cfg, rep, op, now) == {}
    ensures Dominates(cfg, Alive(cfg, Served(cfg, rep, op, now), now), Named(Served(cfg, rep, op, now).seen, n), now, n)
  {
    LocalSilent(cfg, rep.state, op, now);
    assert Dominates(cfg, Alive(cfg, rep, now), Named(rep.seen, n), now, n);
    assert Served(cfg, rep, op, now).seen == rep.seen;
  }

  lemma ServedWriting(cfg: Config, rep: Replica, op: Op, now: u64, w: Record, n: Bytes)
    requires MeshReplicaOk(cfg, rep, now) && !op.ApplyRemote? && CanRun(rep.state, op, now) && n != MIRROR
    requires w in Wrote(cfg, rep, op, now)
    ensures Dominates(cfg, Alive(cfg, Served(cfg, rep, op, now), now), Named(Served(cfg, rep, op, now).seen, n), now, n)
  {
    var m, m' := Alive(cfg, rep, now), Alive(cfg, Served(cfg, rep, op, now), now);
    LocalWrites(cfg, rep.state, op, now, w);
    assert Dominates(cfg, m, Named(rep.seen, n), now, n);
    NamedUnion(rep.seen, {w}, n);
    if n == w.name {
      WriteDominates(cfg, m, Named(rep.seen, n), w, now, m');
    } else {
      assert Named({w}, n) == {} && (n in m' <==> n in m);
    }
  }

  lemma ServedOk(cfg: Config, rep: Replica, op: Op, now: u64)
    requires MeshReplicaOk(cfg, rep, now) && !op.ApplyRemote? && CanRun(rep.state, op, now)
    ensures MeshReplicaOk(cfg, Served(cfg, rep, op, now), now)
  {
    StepKeyed(cfg, rep.state, op, now);
    StepBounded(cfg, rep.state, op, now);
    var rep' := Served(cfg, rep, op, now);
    forall n | n != MIRROR ensures Dominates(cfg, Alive(cfg, rep', now), Named(rep'.seen, n), now, n) {
      if Wrote(cfg, rep, op, now) == {} {
        ServedSilently(cfg, rep, op, now, n);
      } else {
        var w :| w in Wrote(cfg, rep, op, now);
        ServedWriting(cfg, rep, op, now, w, n);
      }
    }
  }

  lemma ReceivedOk(cfg: Config, rep: Replica, message: Message, now: u64)
    requires MeshReplicaOk(cfg, rep, now) && MeshMessageOk(cfg, message, now)
    ensures MeshReplicaOk(cfg, Received(cfg, rep, message, now), now)
  {
    var r, t, rep' := message.record, message.carried, Received(cfg, rep, message, now);
    StepKeyed(cfg, rep.state, ApplyRemote(r), now);
    StepBounded(cfg, rep.state, ApplyRemote(r), now);
    forall n | n != MIRROR ensures Dominates(cfg, Alive(cfg, rep', now), Named(rep'.seen, n), now, n) {
      var m, s := Alive(cfg, rep, now), Named(rep.seen, n);
      assert Dominates(cfg, m, s, now, n);
      NamedUnion(rep.seen, t, n);
      if IsExpired(r, now, cfg.ttlMs) {
        ExpiredCarriesNothing(cfg, t, r, now);
        if n == r.name && n in m {
          MadeOfMore(s, t, m[n]);
        }
        assert n != r.name ==> Named(t, n) == {};
      } else {
        DeliveryAssigns(cfg, rep.state, r, now);
        if n == r.name {
          JoinDominates(cfg, m, s, r, t, now, Alive(cfg, rep', now));
        } else {
          assert Named(t, n) == {};
        }
      }
    }
  }

  lemma MeshNextOk(cfg: Config, mesh: Mesh, act: Action, mesh': Mesh)
    requires MeshOk(cfg, mesh) && MeshNext(cfg, mesh, act, mesh')
    ensures MeshOk(cfg, mesh')
  {
    MeshLater(cfg, mesh, mesh'.now);
    var rep := mesh.replicas[act.who];
    match act {
      case Local(who, op, now) => ServedOk(cfg, rep, op, now);
      case Deliver(who, message, now) => ReceivedOk(cfg, rep, message, now);
      case Send(who, name) =>
        NamedUnion(rep.seen, {}, name);
        assert Dominates(cfg, Alive(cfg, rep, mesh.now), Named(rep.seen, name), mesh.now, name);
    }
  }

  /** In every run, each replica's unexpired record is above every unexpired write that ever reached it. */
  lemma {:induction false} AlwaysDominates(cfg: Config, acts: seq<Action>, trace: seq<Mesh>, k: nat)
    requires IsMeshRun(cfg, acts, trace) && k <= |acts|
    ensures MeshOk(cfg, trace[k])
  {
    if k > 0 {
      AlwaysDominates(cfg, acts, trace, k - 1);
      MeshNextOk(cfg, trace[k - 1], acts[k - 1], trace[k]);
    }
  }

  // ---- Convergence in spite of expiry ----

  /** When the newest write that reached a replica is unexpired, the replica's record is the join of all that reached it. */
  lemma NewestAliveIsTheJoin(cfg: Config, m: Records, s: set<Record>, now: u64, n: Bytes, newest: Record)
    requires Dominates(cfg, m, s, now, n) && OneName(s, n)
    requires n in m ==> !IsExpired(m[n], now, cfg.ttlMs)
    requires newest in s && !IsExpired(newest, now, cfg.ttlMs) && forall x | x in s :: !ValueLess(newest, x)
    ensures n in m && IsJoin(s, m[n])
  {
    var r := m[n];
    var x :| x in s && x.name == r.name && SameValue(x, r);
    assert Below(newest, r) && !ValueLess(newest, x);
    ValueOrderTotal(newest, r);
    ValueOrderTotal(newest, x);
    forall y | y in s ensures Below(y, r) {
      assert !ValueLess(newest, y);
    }
  }

  /**
   Replicas reached by the same writes of a name hold the same record of it, however the writes
   travelled and whatever was dropped in between, as long as the newest of them is unexpired.
   */
  lemma SameWritesSameRecordAlive(cfg: Config, acts: seq<Action>, trace: seq<Mesh>, k: nat, i: nat, j: nat, n: Bytes,
                                  newest: Record)
    requires IsMeshRun(cfg, acts, trace) && k <= |acts| && n != MIRROR
    requires i in trace[k].replicas && j in trace[k].replicas
    requires var s := Named(trace[k].replicas[i].seen, n);
      && s == Named(trace[k].replicas[j].seen, n)
      && newest in s && !IsExpired(newest, trace[k].now, cfg.ttlMs) && forall x | x in s :: !ValueLess(newest, x)
    ensures var a, b := Alive(cfg, trace[k].replicas[i], trace[k].now), Alive(cfg, trace[k].replicas[j], trace[k].now);
      n in a && n in b && a[n] == b[n] && IsJoin(Named(trace[k].replicas[i].seen, n), a[n])
  {
    AlwaysDominates(cfg, acts, trace, k);
    var now, s := trace[k].now, Named(trace[k].replicas[i].seen, n);
    var a, b := Alive(cfg, trace[k].replicas[i], now), Alive(cfg, trace[k].replicas[j], now);
    NamedUnion(trace[k].replicas[i].seen, {}, n);
    assert Dominates(cfg, a, s, now, n) && Dominates(cfg, b, s, now, n);
    NewestAliveIsTheJoin(cfg, a, s, now, n, newest);
    NewestAliveIsTheJoin(cfg, b, s, now, n, newest);
    JoinUnique(s, a[n], b[n], n);
  }

  // ---- A tombstone never expires before its victims ----

  /** No older write. */
  predicate NotOlder(b: Record, a: Record) {
    !ValueLess(b, a)
  }

  lemma NotOlderTransitive(a: Record, b: Record, c: Record)
    requires NotOlder(b, a) && NotOlder(c, b)
    ensures NotOlder(c, a)
  {
    ValueOrderTotal(a, b);
    ValueOrderTotal(b, c);
    if ValueLess(c, a) && ValueLess(a, b) {
      ValueOrderTransitive(c, a, b);
    }
  }

  lemma MergeNotOlder(a: Record, b: Record)
    ensures NotOlder(Merge(a, b), a) && (Merge(a, b) == b ==> NotOlder(b, a))
  {
    ValueOrderTotal(a, b);
    ValueOrderTotal(a, a);
  }

  lemma ServedNotOlder(cfg: Config, rep: Replica, op: Op, now: u64, n: Bytes)
    requires MeshReplicaOk(cfg, rep, now) && !op.ApplyRemote? && CanRun(rep.state, op, now) && n != MIRROR
    ensures var m, m' := Alive(cfg, rep, now), Alive(cfg, Served(cfg, rep, op, now), now);
      n in m && n in m' ==> NotOlder(m'[n], m[n])
  {
    var m := Alive(cfg, rep, now);
    if n in m {
      ValueOrderTotal(m[n], m[n]);
      if Wrote(cfg, rep, op, now) == {} {
        LocalSilent(cfg, rep.state, op, now);
      } else {
        var w :| w in Wrote(cfg, rep, op, now);
        LocalWrites(cfg, rep.state, op, now, w);
        MergeNotOlder(m[n], w);
      }
    }
  }

  lemma ReceivedNotOlder(cfg: Config, rep: Replica, message: Message, now: u64, n: Bytes)
    requires MeshReplicaOk(cfg, rep, now) && MeshMessageOk(cfg, message, now) && n != MIRROR
    ensures var m, m' := Alive(cfg, rep, now), Alive(cfg, Received(cfg, rep, message, now), now);
      n in m && n in m' ==> NotOlder(m'[n], m[n])
  {
    var m := Alive(cfg, rep, now);
    if n in m {
      ValueOrderTotal(m[n], m[n]);
      MergeNotOlder(m[n], message.record);
      if !IsExpired(message.record, now, cfg.ttlMs) {
        DeliveryAssigns(cfg, rep.state, message.record, now);
      }
    }
  }

  /** What stands over an unexpired victim: the victim has been seen, and `r` is the replica's unexpired record. */
  ghost predicate StandsOver(cfg: Config, mesh: Mesh, i: nat, n: Bytes, victim: Record, r: Record) {
    && i in mesh.replicas && victim in Named(mesh.replicas[i].seen, n)
    && var m := Alive(cfg, mesh.replicas[i], mesh.now);
       n in m && m[n] == r
  }

  lemma StepStandsOver(cfg: Config, mesh: Mesh, act: Action, mesh': Mesh, i: nat, n: Bytes, victim: Record, r: Record)
    returns (r': Record)
    requires MeshOk(cfg, mesh) && MeshNext(cfg, mesh, act, mesh') && n != MIRROR
    requires StandsOver(cfg, mesh, i, n, victim, r) && !IsExpired(victim, mesh'.now, cfg.ttlMs)
    ensures StandsOver(cfg, mesh', i, n, victim, r') && NotOlder(r', r)
  {
    MeshNextOk(cfg, mesh, act, mesh');
    MeshLater(cfg, mesh, mesh'.now);
    var now, rep, rep' := mesh'.now, mesh.replicas[i], mesh'.replicas[i];
    assert Dominates(cfg, Alive(cfg, rep, now), Named(rep.seen, n), now, n);
    assert Dominates(cfg, Alive(cfg, rep', now), Named(rep'.seen, n), now, n);
    r' := Alive(cfg, rep', now)[n];
    ValueOrderTotal(r, r);
    if act.who == i {
      match act {
        case Local(who, op, at) => ServedNotOlder(cfg, rep, op, now, n);
        case Deliver(who, message, at) => ReceivedNotOlder(cfg, rep, message, now, n);
        case Send(_, _) =>
      }
    }
  }

  /**
   Whatever stands over a write that reached a replica, a tombstone in particular, stands as long
   as that write is unexpired, or has given way to something newer: it never expires first.
   */
  lemma {:induction false} VictimStaysDown(cfg: Config, acts: seq<Action>, trace: seq<Mesh>, j: nat, k: nat,
                                           i: nat, n: Bytes, victim: Record, r: Record) returns (r': Record)
    requires IsMeshRun(cfg, acts, trace) && j <= k <= |acts| && n != MIRROR
    requires StandsOver(cfg, trace[j], i, n, victim, r) && !IsExpired(victim, trace[k].now, cfg.ttlMs)
    ensures StandsOver(cfg, trace[k], i, n, victim, r') && NotOlder(r', r)
  {
    if j == k {
      r' := r;
      ValueOrderTotal(r, r);
    } else {
      assert MeshNext(cfg, trace[k - 1], acts[k - 1], trace[k]);
      var before := VictimStaysDown(cfg, acts, trace, j, k - 1, i, n, victim, r);
      AlwaysDominates(cfg, acts, trace, k - 1);
      r' := StepStandsOver(cfg, trace[k - 1], acts[k - 1], trace[k], i, n, victim, before);
      NotOlderTransitive(r, before, r');
    }
  }

  /**
   So a deleted value comes back only as a copy the replica had not met while the tombstone stood:
   by then every write that had reached it has expired.
   */
  lemma OnlyTheUnmetComeBack(cfg: Config, acts: seq<Action>, trace: seq<Mesh>, j: nat, k: nat, i: nat, n: Bytes,
                             victim: Record)
    requires IsMeshRun(cfg, acts, trace) && j <= k <= |acts| && n != MIRROR
    requires i in trace[j].replicas && n in Alive(cfg, trace[j].replicas[i], trace[j].now)
    requires i in trace[k].replicas && n in Alive(cfg, trace[k].replicas[i], trace[k].now)
    requires ValueLess(Alive(cfg, trace[k].replicas[i], trace[k].now)[n], Alive(cfg, trace[j].replicas[i], trace[j].now)[n])
    requires victim in Named(trace[j].replicas[i].seen, n)
    ensures IsExpired(victim, trace[k].now, cfg.ttlMs)
  {
    if !IsExpired(victim, trace[k].now, cfg.ttlMs) {
      var stood := Alive(cfg, trace[j].replicas[i], trace[j].now)[n];
      var stands := VictimStaysDown(cfg, acts, trace, j, k, i, n, victim, stood);
    }
  }
}
