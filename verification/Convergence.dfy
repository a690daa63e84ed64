/** Strong eventual consistency over whole runs. */
module Convergence {
  import opened Machine
  import opened HybridClock
  import opened RegisterMerge
  import opened RegisterState
  import opened ClockBound
  import RegisterName

  // Any number of replicas serve local calls and exchange records over a network that may delay,
  // drop, reorder and duplicate. Each replica's record of a name is, at every moment, the join of
  // all the writes that have reached it; so replicas reached by the same writes agree, however
  // those writes travelled.

  /** A store and, for the proof, every write that has reached it, directly or inside a merged record. */
  datatype Replica = Replica(state: State, seen: set<Record>)

  /** A record in flight and the writes it carries. */
  datatype Message = Message(record: Record, carried: set<Record>)

  datatype Net = Net(replicas: map<nat, Replica>, sent: set<Message>)

  datatype Action =
    | Local(who: nat, op: Op, now: u64)
    | Send(who: nat, name: Bytes)
    | Deliver(who: nat, message: Message, now: u64)

  function Named(s: set<Record>, name: Bytes): set<Record> {
    set r | r in s && r.name == name
  }

  /** The write a local call originates: an upserted value, a tombstone, or a refreshed `touched`. */
  function Originated(op: Op, r: Result, after: Records): set<Record> {
    match op
    case Upsert(name, _, _, _) => if r == Wrote(Ok) && name in after then {after[name]} else {}
    case Delete(name, _) => if r == Deletion(Deleted) && name in after then {after[name]} else {}
    case Read(name) => if r.Found? && r.record.Some? then {r.record.value} else {}
    case _ => {}
  }

  /** Nothing the replica holds has outlived its idle time. */
  ghost predicate NothingExpired(cfg: Config, st: State, now: u64) {
    forall n | n in st.records :: !IsExpired(st.records[n], now, cfg.ttlMs)
  }

  /** One atomic step of the mesh. Messages stay in `sent`, so they may arrive again or never. */
  ghost predicate NetNext(cfg: Config, net: Net, act: Action, net': Net) {
    && act.who in net.replicas
    && var rep := net.replicas[act.who];
      match act
      case Local(who, op, now) =>
        && !op.ApplyRemote? && CanRun(rep.state, op, now) && NothingExpired(cfg, rep.state, now)
        && var (st', r) := Step(cfg, rep.state, op, now);
           net' == net.(replicas := net.replicas[who := Replica(st', rep.seen + Originated(op, r, st'.records))])
      case Send(who, name) =>
        && name != MIRROR && name in rep.state.records
        && net' == net.(sent := net.sent + {Message(rep.state.records[name], Named(rep.seen, name))})
      case Deliver(who, message, now) =>
        && message in net.sent && NothingExpired(cfg, rep.state, now)
        && !IsExpired(message.record, now, cfg.ttlMs)
        && var st' := Step(cfg, rep.state, ApplyRemote(message.record), now).0;
           net' == net.(replicas := net.replicas[who := Replica(st', rep.seen + message.carried)])
  }

  ghost predicate Initial(net: Net) {
    net.sent == {} && forall i | i in net.replicas :: net.replicas[i].state.records == map[] && net.replicas[i].seen == {}
  }

  ghost predicate IsNetRun(cfg: Config, acts: seq<Action>, trace: seq<Net>) {
    && |trace| == |acts| + 1 && Initial(trace[0])
    && forall k | 0 <= k < |acts| :: NetNext(cfg, trace[k], acts[k], trace[k + 1])
  }

  // ---- The invariant ----

  /** The record of `name` is the join of the writes to `name` that were seen; there is one iff any was. */
  ghost predicate HoldsJoin(rep: Replica, name: Bytes) {
    && (name in rep.state.records <==> Named(rep.seen, name) != {})
    && (name in rep.state.records ==> IsJoin(Named(rep.seen, name), rep.state.records[name]))
  }

  ghost predicate ReplicaOk(rep: Replica) {
    && Keyed(rep.state.records) && Bounded(rep.state)
    && forall n | n != MIRROR :: HoldsJoin(rep, n)
  }

  ghost predicate MessageOk(m: Message) {
    m.record.name != MIRROR && OneName(m.carried, m.record.name) && IsJoin(m.carried, m.record)
  }

  ghost predicate NetOk(net: Net) {
    && (forall i | i in net.replicas :: ReplicaOk(net.replicas[i]))
    && (forall m | m in net.sent :: MessageOk(m))
  }

  lemma NamedUnion(s: set<Record>, t: set<Record>, name: Bytes)
    ensures Named(s + t, name) == Named(s, name) + Named(t, name)
    ensures OneName(Named(s, name), name)
    ensures OneName(t, name) ==> Named(t, name) == t
  {}

  /** Joining more writes of a name into a replica that holds the join of the earlier ones. */
  lemma JoinMore(rep: Replica, more: set<Record>, r: Record, rep': Replica)
    requires HoldsJoin(rep, r.name) && Keyed(rep.state.records)
    requires OneName(more, r.name) && IsJoin(more, r)
    requires rep'.seen == rep.seen + more && r.name in rep'.state.records
    requires rep'.state.records[r.name] ==
      if r.name in rep.state.records then Merge(rep.state.records[r.name], r) else r
    ensures HoldsJoin(rep', r.name)
  {
    var name, before := r.name, Named(rep.seen, r.name);
    NamedUnion(rep.seen, more, name);
    var x :| x in more && x.name == r.name && SameValue(x, r);
    assert x in Named(rep'.seen, name);
    if name in rep.state.records {
      JoinUnion(before, more, rep.state.records[name], r, name);
    } else {
      assert before + more == more;
    }
  }

  lemma JoinOthers(rep: Replica, more: set<Record>, rep': Replica, name: Bytes, n: Bytes)
    requires HoldsJoin(rep, n) && n != name
    requires OneName(more, name) && rep'.seen == rep.seen + more
    requires n in rep'.state.records <==> n in rep.state.records
    requires n in rep.state.records ==> rep'.state.records[n] == rep.state.records[n]
    ensures HoldsJoin(rep', n)
  {}

  lemma PruneKeepsAll(cfg: Config, st: State, now: u64)
    requires NothingExpired(cfg, st, now)
    ensures Prune(st.records, now, cfg.ttlMs) == st.records
  {}

  /** A local call either originates nothing and leaves the registers alone, or assigns one record that is the join. */
  lemma LocalEffect(cfg: Config, st: State, op: Op, now: u64)
    requires Keyed(st.records) && Bounded(st) && !op.ApplyRemote?
    requires CanRun(st, op, now) && NothingExpired(cfg, st, now)
    ensures var (st', r) := Step(cfg, st, op, now); var more := Originated(op, r, st'.records);
      || (more == {} && forall n | n != MIRROR :: (n in st'.records <==> n in st.records) && (n in st.records ==> st'.records[n] == st.records[n]))
      || (exists w :: more == {w} && w.name == Target(op) && st'.records == st.records[w.name := w]
                      && (w.name in st.records ==> Merge(st.records[w.name], w) == w))
  {
    PruneKeepsAll(cfg, st, now);
    TickAdvances(st.last, now);
    var (st', r) := Step(cfg, st, op, now);
    var more := Originated(op, r, st'.records);
    var ts, n := Tick(st.last, now), Target(op);
    if more != {} {
      var w := st'.records[n];
      assert more == {w} && w.name == n && st'.records == st.records[n := w];
      if n in st.records {
        if op.Read? {
          RefreshIsTheJoin(st.records[n], ts);
        } else {
          FreshWriteIsTheJoin(st.last, now, w);
        }
      }
    }
  }

  lemma LocalKeeps(cfg: Config, rep: Replica, op: Op, now: u64)
    requires ReplicaOk(rep) && !op.ApplyRemote?
    requires CanRun(rep.state, op, now) && NothingExpired(cfg, rep.state, now)
    ensures var (st', r) := Step(cfg, rep.state, op, now);
      ReplicaOk(Replica(st', rep.seen + Originated(op, r, st'.records)))
  {
    var (st', r) := Step(cfg, rep.state, op, now);
    var more := Originated(op, r, st'.records);
    var rep' := Replica(st', rep.seen + more);
    StepKeyed(cfg, rep.state, op, now);
    StepBounded(cfg, rep.state, op, now);
    LocalEffect(cfg, rep.state, op, now);
    if more == {} {
      forall n | n != MIRROR ensures HoldsJoin(rep', n) {
        JoinOthers(rep, more, rep', MIRROR, n);
      }
    } else {
      var w :| more == {w} && w.name == Target(op) && st'.records == rep.state.records[w.name := w]
               && (w.name in rep.state.records ==> Merge(rep.state.records[w.name], w) == w);
      WriteKeeps(rep, w, rep');
    }
  }

  /** Assigning a record that is the join of the old one and itself keeps the invariant. */
  lemma WriteKeeps(rep: Replica, w: Record, rep': Replica)
    requires ReplicaOk(rep)
    requires rep'.seen == rep.seen + {w} && rep'.state.records == rep.state.records[w.name := w]
    requires w.name in rep.state.records ==> Merge(rep.state.records[w.name], w) == w
    ensures forall n | n != MIRROR :: HoldsJoin(rep', n)
  {
    JoinSingleton(w);
    forall n | n != MIRROR ensures HoldsJoin(rep', n) {
      if n == w.name {
        JoinMore(rep, {w}, w, rep');
      } else {
        JoinOthers(rep, {w}, rep', w.name, n);
      }
    }
  }

  lemma DeliverKeeps(cfg: Config, rep: Replica, message: Message, now: u64)
    requires ReplicaOk(rep) && MessageOk(message)
    requires NothingExpired(cfg, rep.state, now) && !IsExpired(message.record, now, cfg.ttlMs)
    ensures ReplicaOk(Replica(Step(cfg, rep.state, ApplyRemote(message.record), now).0, rep.seen + message.carried))
  {
    var r := message.record;
    var op := ApplyRemote(r);
    var st' := Step(cfg, rep.state, op, now).0;
    var rep' := Replica(st', rep.seen + message.carried);
    StepKeyed(cfg, rep.state, op, now);
    StepBounded(cfg, rep.state, op, now);
    forall n | n != MIRROR ensures HoldsJoin(rep', n) {
      if n == r.name {
        JoinMore(rep, message.carried, r, rep');
      } else {
        JoinOthers(rep, message.carried, rep', r.name, n);
      }
    }
  }

  lemma NetNextOk(cfg: Config, net: Net, act: Action, net': Net)
    requires NetOk(net) && NetNext(cfg, net, act, net')
    ensures NetOk(net')
  {
    var rep := net.replicas[act.who];
    match act {
      case Local(who, op, now) => LocalKeeps(cfg, rep, op, now);
      case Deliver(who, message, now) => DeliverKeeps(cfg, rep, message, now);
      case Send(who, name) =>
        NamedUnion(rep.seen, {}, name);
        assert HoldsJoin(rep, name);
    }
  }

  /** In every run, every replica holds the joins of what has reached it, and every message is a join. */
  lemma {:induction false} AlwaysJoins(cfg: Config, acts: seq<Action>, trace: seq<Net>, k: nat)
    requires IsNetRun(cfg, acts, trace) && k <= |acts|
    ensures NetOk(trace[k])
  {
    if k == 0 {
      forall i | i in trace[0].replicas ensures ReplicaOk(trace[0].replicas[i]) {
        forall n ensures HoldsJoin(trace[0].replicas[i], n) {
          assert Named({}, n) == {};
        }
      }
    } else {
      AlwaysJoins(cfg, acts, trace, k - 1);
      NetNextOk(cfg, trace[k - 1], acts[k - 1], trace[k]);
    }
  }

  /**
   Strong convergence: at any two moments of a run, any two replicas reached by the same
   writes of a name hold the same record of it, or both hold none.
   */
  lemma SameWritesSameRecord(cfg: Config, acts: seq<Action>, trace: seq<Net>, k: nat, l: nat, i: nat, j: nat, name: Bytes)
    requires IsNetRun(cfg, acts, trace) && k <= |acts| && l <= |acts| && name != MIRROR
    requires i in trace[k].replicas && j in trace[l].replicas
    requires Named(trace[k].replicas[i].seen, name) == Named(trace[l].replicas[j].seen, name)
    ensures var a, b := trace[k].replicas[i].state.records, trace[l].replicas[j].state.records;
      (name in a <==> name in b) && (name in a ==> a[name] == b[name])
  {
    AlwaysJoins(cfg, acts, trace, k);
    AlwaysJoins(cfg, acts, trace, l);
    var a, b := trace[k].replicas[i], trace[l].replicas[j];
    assert HoldsJoin(a, name) && HoldsJoin(b, name);
    if name in a.state.records {
      NamedUnion(a.seen, {}, name);
      JoinUnique(Named(a.seen, name), a.state.records[name], b.state.records[name], name);
    }
  }

  /** ... and that record is the fold of MergeRecords over them, in any order and with any repetition. */
  lemma RecordIsTheFold(cfg: Config, acts: seq<Action>, trace: seq<Net>, k: nat, i: nat, name: Bytes,
                        w: Record, others: seq<Record>)
    requires IsNetRun(cfg, acts, trace) && k <= |acts| && i in trace[k].replicas && name != MIRROR
    requires {w} + Elements(others) == Named(trace[k].replicas[i].seen, name)
    ensures name in trace[k].replicas[i].state.records
    ensures trace[k].replicas[i].state.records[name] == MergeAll(w, others)
  {
    AlwaysJoins(cfg, acts, trace, k);
    var rep := trace[k].replicas[i];
    assert HoldsJoin(rep, name);
    assert forall q | q in others :: q in Elements(others);
    assert w in Named(rep.seen, name);
    FoldIsJoin(w, others);
    JoinUnique(Named(rep.seen, name), rep.state.records[name], MergeAll(w, others), name);
  }
}
