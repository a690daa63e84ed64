/**
 The outgoing-peer reconciler of src/NetworkRuntime.cpp: the tracked peers and the pending
 removals as fields updated in place, over the peer manager it drives. Each method is proved to
 compute the matching function of ReconcilerState.dfy, the sweep's two loops included; what the
 reconciler promises over whole runs is proved there.
 */
module Reconciler {
  import opened Machine
  import opened PeerTable
  import S = ReconcilerState
  import ByteOrder
  import Collections

  class OutgoingReconciler {
    var active: map<Bytes, S.Tracked>
    var pendingRemoval: map<Bytes, int>
    const manager: PeerManager

    function Abstract(): S.State
      reads this, manager
    {
      S.State(active, pendingRemoval, manager.peers, manager.serial)
    }

    constructor (manager: PeerManager)
      ensures Abstract() == S.State(map[], map[], manager.peers, manager.serial) && this.manager == manager
    {
      active, pendingRemoval := map[], map[];
      this.manager := manager;
    }

    /** Forward to the manager and track the outcome. */
    method ForwardAddPeer(p: DiscoveredPeer, record: DiscoveredPeer)
      modifies this`active, manager
      ensures Abstract() == S.Connect(old(Abstract()), p, record)
    {
      var admission := manager.AddPeer(p);
      active := active[p.host := S.Tracked(record, admission != RejectedPeerLimit)];
    }

    method OnAdded(p: DiscoveredPeer)
      modifies this, manager
      ensures Abstract() == S.OnAdded(old(Abstract()), p)
    {
      pendingRemoval := pendingRemoval - {p.host};
      if p.host !in active {
        ForwardAddPeer(p, p);
      } else if active[p.host].peer.ip != p.ip || active[p.host].peer.port != p.port {
        if active[p.host].admitted {
          manager.RemoveOutgoingPeer(p.host);
          active := active[p.host := active[p.host].(admitted := false)];
        }
        ForwardAddPeer(p, p);
      } else if !active[p.host].admitted {
        ForwardAddPeer(p, active[p.host].peer);
      }
    }

    /** True when the runtime thread has to be woken to re-arm its sleep. */
    method OnRemoved(host: Bytes, now: int) returns (wake: bool)
      modifies this`pendingRemoval
      ensures Abstract() == S.OnRemoved(old(Abstract()), host, now)
      ensures wake == (host in active)
    {
      wake := host in active;
      if wake {
        pendingRemoval := pendingRemoval[host := now + S.REMOVAL_GRACE_MS];
      }
    }

    method Sweep(now: int)
      requires pendingRemoval.Keys <= active.Keys
      modifies this, manager
      ensures Abstract() == S.OnSweep(old(Abstract()), now)
    {
      var freed := DropExpired(now);
      if freed {
        AdmitPendingPeers();
      }
    }

    method DropExpired(now: int) returns (freed: bool)
      requires pendingRemoval.Keys <= active.Keys
      modifies this, manager`peers
      ensures Abstract() == S.DropExpired(old(Abstract()), now)
      ensures freed == (S.Leaving(old(Abstract()), now) != {})
    {
      freed := false;
      var order := ByteOrder.InOrder(pendingRemoval.Keys);
      ghost var st := Abstract();
      DropStarts(st, now, order);
      for i := 0 to |order|
        invariant manager.serial == st.serial && Dropping(st, now, order, i, Abstract(), freed)
      {
        var host := order[i];
        DropOne(st, now, order, i, Abstract(), freed);
        if now >= pendingRemoval[host] {
          if host in active && active[host].admitted {
            manager.RemoveOutgoingPeer(host);
            freed := true;
          }
          active := active - {host};
          pendingRemoval := pendingRemoval - {host};
        }
      }
      DropEnds(st, now, order, Abstract(), freed);
    }

    method AdmitPendingPeers()
      modifies this`active, manager
      ensures Abstract() == S.Admit(ByteOrder.Sorted(old(active.Keys)), old(Abstract()))
    {
      var order := ByteOrder.InOrder(active.Keys);
      ghost var st := Abstract();
      assert order[0..] == order;
      for i := 0 to |order|
        invariant S.Admit(order, st) == S.Admit(order[i..], Abstract())
      {
        var host := order[i];
        assert order[i..][1..] == order[i + 1..];
        if host !in active || active[host].admitted || host in pendingRemoval {
          continue;
        }
        var admission := manager.AddPeer(active[host].peer);
        if admission == RejectedPeerLimit {
          return;
        }
        active := active[active[host].peer.host := S.Tracked(active[host].peer, true)];
      }
    }

    /** The soonest deadline of a deferred removal, if any is pending. */
    method NextRemovalDeadline() returns (nearest: Option<int>)
      ensures nearest.None? <==> pendingRemoval == map[]
      ensures nearest.Some? ==>
        && (exists h :: h in pendingRemoval && pendingRemoval[h] == nearest.value)
        && (forall h | h in pendingRemoval :: nearest.value <= pendingRemoval[h])
    {
      nearest := None;
      var order := ByteOrder.InOrder(pendingRemoval.Keys);
      ByteOrder.SortedIsSorted(pendingRemoval.Keys);
      for i := 0 to |order|
        invariant nearest.None? <==> i == 0
        invariant nearest.Some? ==>
          && (exists k :: 0 <= k < i && pendingRemoval[order[k]] == nearest.value)
          && (forall k | 0 <= k < i :: nearest.value <= pendingRemoval[order[k]])
      {
        assert order[i] in pendingRemoval;
        var deadline := pendingRemoval[order[i]];
        if nearest.None? || deadline < nearest.value {
          nearest := Some(deadline);
        }
      }
      forall h | h in pendingRemoval ensures nearest.Some? && nearest.value <= pendingRemoval[h] {
        var k :| 0 <= k < |order| && order[k] == h;
        assert nearest.value <= pendingRemoval[order[k]];
      }
    }
  }

  // ---- The sweep, key by key ----

  /** After the first `i` pending hosts have been looked at. */
  ghost predicate Dropping(st: S.State, now: int, order: seq<Bytes>, i: nat, cur: S.State, freed: bool)
    requires i <= |order|
  {
    var visited := ByteOrder.Visited(order, i);
    && cur.active == st.active - visited * S.Expired(st, now)
    && cur.pending == st.pending - visited * S.Expired(st, now)
    && cur.peers == Without(st.peers, visited * S.Leaving(st, now))
    && cur.serial == st.serial
    && freed == (visited * S.Leaving(st, now) != {})
  }

  lemma DropStarts(st: S.State, now: int, order: seq<Bytes>)
    ensures Dropping(st, now, order, 0, st, false)
  {
    assert ByteOrder.Visited(order, 0) == {};
    Collections.RemoveNone(st.active, S.Expired(st, now));
    Collections.RemoveNone(st.pending, S.Expired(st, now));
    Collections.IntersectSubset(S.Leaving(st, now), S.Leaving(st, now));
    WithoutNothing(st.peers, {});
  }

  lemma DropOne(st: S.State, now: int, order: seq<Bytes>, i: nat, cur: S.State, freed: bool)
    requires order == ByteOrder.Sorted(st.pending.Keys) && i < |order|
    requires st.pending.Keys <= st.active.Keys
    requires Dropping(st, now, order, i, cur, freed)
    ensures order[i] in cur.pending && cur.pending[order[i]] == st.pending[order[i]]
    ensures order[i] in cur.active && cur.active[order[i]] == st.active[order[i]]
    ensures var h := order[i];
      var expired := now >= cur.pending[h];
      var leaving := expired && cur.active[h].admitted;
      Dropping(st, now, order, i + 1,
               if expired
               then S.State(cur.active - {h}, cur.pending - {h}, if leaving then Without(cur.peers, {h}) else cur.peers, cur.serial)
               else cur,
               freed || leaving)
  {
    var h := order[i];
    var visited := ByteOrder.Visited(order, i);
    ByteOrder.Visit(st.pending.Keys, order, i);
    Collections.RemoveOne(st.active, visited, S.Expired(st, now), h);
    Collections.RemoveOne(st.pending, visited, S.Expired(st, now), h);
    WithoutTwice(st.peers, visited * S.Leaving(st, now), {h});
    GrowIntersection(visited, S.Leaving(st, now), h);
  }

  lemma GrowIntersection(visited: set<Bytes>, kept: set<Bytes>, h: Bytes)
    ensures (visited + {h}) * kept == if h in kept then visited * kept + {h} else visited * kept
  {}

  lemma DropEnds(st: S.State, now: int, order: seq<Bytes>, cur: S.State, freed: bool)
    requires order == ByteOrder.Sorted(st.pending.Keys)
    requires Dropping(st, now, order, |order|, cur, freed)
    ensures cur == S.DropExpired(st, now) && freed == (S.Leaving(st, now) != {})
  {
    ByteOrder.VisitedAll(st.pending.Keys);
    Collections.IntersectSubset(st.pending.Keys, S.Expired(st, now));
    Collections.IntersectSubset(st.pending.Keys, S.Leaving(st, now));
  }
}
