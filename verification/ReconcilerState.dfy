/** The outgoing-peer reconciler of src/NetworkRuntime.cpp as functions. */
module ReconcilerState {
  import opened Machine
  import opened PeerTable
  import ByteOrder

  // Its state and the peer table under it, its invariant, and what it promises over whole runs of
  // discovery events and sweeps. Times are milliseconds of the steady clock.

  const REMOVAL_GRACE_MS := 4000

  datatype Tracked = Tracked(peer: DiscoveredPeer, admitted: bool)

  datatype State = State(active: map<Bytes, Tracked>, pending: map<Bytes, int>, peers: seq<Connection>, serial: nat)

  // ---- Steps ----

  /** Forward `p` to the peer table and remember `record`, admitted unless the table was full. */
  function Connect(st: State, p: DiscoveredPeer, record: DiscoveredPeer): State {
    var (peers, admission) := Added(st.peers, st.serial, p);
    State(st.active[p.host := Tracked(record, admission != RejectedPeerLimit)], st.pending, peers,
          st.serial + if admission == Accepted then 1 else 0)
  }

  /** Drop the live connection of a host about to be connected elsewhere. */
  function Disconnect(st: State, host: Bytes): State
    requires host in st.active
  {
    if st.active[host].admitted
    then st.(peers := Without(st.peers, {host}), active := st.active[host := st.active[host].(admitted := false)])
    else st
  }

  predicate SameEndpoint(a: DiscoveredPeer, b: DiscoveredPeer) {
    a.ip == b.ip && a.port == b.port
  }

  function OnAdded(st: State, p: DiscoveredPeer): State {
    var kept := st.(pending := st.pending - {p.host});
    if p.host !in st.active then Connect(kept, p, p)
    else if !SameEndpoint(st.active[p.host].peer, p) then Connect(Disconnect(kept, p.host), p, p)
    else if st.active[p.host].admitted then kept
    else Connect(kept, p, st.active[p.host].peer)
  }

  function OnRemoved(st: State, host: Bytes, now: int): State {
    if host in st.active then st.(pending := st.pending[host := now + REMOVAL_GRACE_MS]) else st
  }

  /** Fill free slots from the tracked peers in host order, until one is turned away. */
  function Admit(order: seq<Bytes>, st: State): State {
    if order == [] then st
    else if !Idle(st, order[0]) then Admit(order[1..], st)
    else if |Outgoing(st.peers)| >= MAX_OUTGOING_PEERS && !Connected(st.peers, st.active[order[0]].peer.host) then st
    else Admit(order[1..], Connect(st, st.active[order[0]].peer, st.active[order[0]].peer))
  }

  function Expired(st: State, now: int): set<Bytes> {
    set h | h in st.pending && now >= st.pending[h]
  }

  /** The hosts whose removal frees a slot. */
  function Leaving(st: State, now: int): set<Bytes> {
    set h | h in Expired(st, now) && h in st.active && st.active[h].admitted
  }

  function DropExpired(st: State, now: int): State {
    st.(active := st.active - Expired(st, now), pending := st.pending - Expired(st, now),
        peers := Without(st.peers, Leaving(st, now)))
  }

  ghost function OnSweep(st: State, now: int): State {
    var dropped := DropExpired(st, now);
    if Leaving(st, now) == {} then dropped else Admit(ByteOrder.Sorted(dropped.active.Keys), dropped)
  }

  // ---- The invariant ----

  /** Tracked, turned away and not about to go. */
  predicate Idle(st: State, host: Bytes) {
    host in st.active && !st.active[host].admitted && host !in st.pending
  }

  ghost predicate OwnHosts(active: map<Bytes, Tracked>) {
    forall h | h in active :: active[h].peer.host == h
  }

  ghost predicate AdmittedAreConnected(active: map<Bytes, Tracked>, peers: seq<Connection>) {
    forall h | h in active && active[h].admitted :: Connected(peers, h)
  }

  /** The connection's host is admitted, and the connection is to its last announced endpoint. */
  predicate Accounts(active: map<Bytes, Tracked>, c: Connection) {
    && c.host in active && active[c.host].admitted
    && c.ip == active[c.host].peer.ip && c.port == active[c.host].peer.port
  }

  ghost predicate ConnectionsAreAccounted(active: map<Bytes, Tracked>, peers: seq<Connection>) {
    forall c | c in peers && c.outgoing :: Accounts(active, c)
  }

  /** A host is admitted iff it has one outgoing connection, and that is to its last announced endpoint. */
  ghost predicate Matches(st: State) {
    && OnePerHost(Outgoing(st.peers))
    && OwnHosts(st.active)
    && AdmittedAreConnected(st.active, st.peers)
    && ConnectionsAreAccounted(st.active, st.peers)
  }

  ghost predicate Core(st: State) {
    && st.pending.Keys <= st.active.Keys
    && Matches(st)
    && |Outgoing(st.peers)| <= MAX_OUTGOING_PEERS
  }

  /** A peer is kept waiting only while every slot is taken. */
  ghost predicate NoneIdle(st: State) {
    forall h | Idle(st, h) :: |Outgoing(st.peers)| == MAX_OUTGOING_PEERS
  }

  ghost predicate Inv(st: State) {
    Core(st) && NoneIdle(st)
  }

  // ---- Connecting ----

  lemma NotConnected(st: State, host: Bytes)
    requires Core(st) && (host in st.active ==> !st.active[host].admitted)
    ensures !Connected(st.peers, host)
  {}

  lemma ConnectOutgoing(st: State, p: DiscoveredPeer, record: DiscoveredPeer)
    requires !Connected(st.peers, p.host)
    ensures var st' := Connect(st, p, record);
      var room := |Outgoing(st.peers)| < MAX_OUTGOING_PEERS;
      && st'.active[p.host].admitted == room
      && st'.peers == (if room then st.peers + [Connection(p.host, true, p.ip, p.port, st.serial)] else st.peers)
      && |Outgoing(st'.peers)| == |Outgoing(st.peers)| + if room then 1 else 0
  {}

  /** Connecting a host without a connection keeps the table and the tracking in step. */
  lemma ConnectKeeps(st: State, p: DiscoveredPeer, record: DiscoveredPeer)
    requires Core(st) && (p.host in st.active ==> !st.active[p.host].admitted)
    requires record.host == p.host && SameEndpoint(record, p)
    ensures Core(Connect(st, p, record))
  {
    NotConnected(st, p.host);
    ConnectOutgoing(st, p, record);
    if |Outgoing(st.peers)| < MAX_OUTGOING_PEERS {
      AcceptedKeeps(st, record);
    } else {
      RejectedKeeps(st, record);
    }
  }

  lemma RejectedKeeps(st: State, p: DiscoveredPeer)
    requires Core(st) && !Connected(st.peers, p.host)
    ensures Core(st.(active := st.active[p.host := Tracked(p, false)]))
  {}

  lemma AcceptedKeeps(st: State, p: DiscoveredPeer)
    requires Core(st) && !Connected(st.peers, p.host) && |Outgoing(st.peers)| < MAX_OUTGOING_PEERS
    ensures var c := Connection(p.host, true, p.ip, p.port, st.serial);
      Core(State(st.active[p.host := Tracked(p, true)], st.pending, st.peers + [c], st.serial + 1))
  {}

  /** If only this host was idle beside a free slot, connecting it leaves none idle. */
  lemma ConnectFills(st: State, p: DiscoveredPeer, record: DiscoveredPeer)
    requires Core(st) && (p.host in st.active ==> !st.active[p.host].admitted)
    requires forall h | Idle(st, h) && h != p.host :: |Outgoing(st.peers)| == MAX_OUTGOING_PEERS
    ensures NoneIdle(Connect(st, p, record))
  {
    NotConnected(st, p.host);
    ConnectOutgoing(st, p, record);
    var st' := Connect(st, p, record);
    forall h | Idle(st', h) ensures |Outgoing(st'.peers)| == MAX_OUTGOING_PEERS {
      if h != p.host {
        assert Idle(st, h);
      }
    }
  }

  lemma DisconnectKeeps(st: State, host: Bytes)
    requires Core(st) && host in st.active
    ensures var st' := Disconnect(st, host);
      && Core(st') && !st'.active[host].admitted
      && |Outgoing(st'.peers)| == |Outgoing(st.peers)| - if st.active[host].admitted then 1 else 0
  {
    if st.active[host].admitted {
      CutOne(st.peers, host);
      CutKeeps(st, host);
    }
  }

  lemma CutOne(peers: seq<Connection>, host: Bytes)
    requires OnePerHost(Outgoing(peers)) && Connected(peers, host)
    ensures |Outgoing(Without(peers, {host}))| == |Outgoing(peers)| - 1
  {
    OutgoingMembers(peers);
    OutgoingWithout(peers, {host});
    var c :| c in peers && c.outgoing && c.host == host;
    WithoutOne(Outgoing(peers), c);
  }

  lemma CutKeeps(st: State, host: Bytes)
    requires Core(st) && host in st.active
    ensures Core(st.(peers := Without(st.peers, {host}), active := st.active[host := st.active[host].(admitted := false)]))
  {
    OutgoingWithout(st.peers, {host});
    WithoutKeepsOne(Outgoing(st.peers), {host});
    CutAccounts(st.active, st.peers, host);
    CutConnects(st.active, st.peers, host);
  }

  lemma CutAccounts(active: map<Bytes, Tracked>, peers: seq<Connection>, host: Bytes)
    requires ConnectionsAreAccounted(active, peers) && host in active
    ensures ConnectionsAreAccounted(active[host := active[host].(admitted := false)], Without(peers, {host}))
  {
    WithoutMembers(peers, {host});
    forall d | d in Without(peers, {host}) && d.outgoing
      ensures Accounts(active[host := active[host].(admitted := false)], d)
    {
      assert Accounts(active, d) && d.host != host;
    }
  }

  lemma CutConnects(active: map<Bytes, Tracked>, peers: seq<Connection>, host: Bytes)
    requires AdmittedAreConnected(active, peers) && host in active
    ensures AdmittedAreConnected(active[host := active[host].(admitted := false)], Without(peers, {host}))
  {
    StillConnected(peers, {host});
  }

  lemma StillConnected(peers: seq<Connection>, hosts: set<Bytes>)
    ensures forall h | h !in hosts && Connected(peers, h) :: Connected(Without(peers, hosts), h)
  {
    WithoutMembers(peers, hosts);
  }

  // ---- Every step keeps the invariant ----

  /** Cancelling a pending removal can leave only that host idle. */
  lemma CancelKeeps(st: State, host: Bytes)
    requires Inv(st)
    ensures var kept := st.(pending := st.pending - {host});
      && Core(kept)
      && (forall h | Idle(kept, h) && h != host :: |Outgoing(kept.peers)| == MAX_OUTGOING_PEERS)
      && (!Idle(kept, host) ==> NoneIdle(kept))
  {
    var kept := st.(pending := st.pending - {host});
    forall h | Idle(kept, h) && h != host ensures |Outgoing(kept.peers)| == MAX_OUTGOING_PEERS {
      assert Idle(st, h);
    }
  }

  lemma AddedKeeps(st: State, p: DiscoveredPeer)
    requires Inv(st)
    ensures Inv(OnAdded(st, p))
  {
    var kept := st.(pending := st.pending - {p.host});
    CancelKeeps(st, p.host);
    if p.host !in st.active {
      ConnectKeeps(kept, p, p);
      ConnectFills(kept, p, p);
    } else if !SameEndpoint(st.active[p.host].peer, p) {
      MovedKeeps(st, p);
    } else if !st.active[p.host].admitted {
      ConnectKeeps(kept, p, st.active[p.host].peer);
      ConnectFills(kept, p, st.active[p.host].peer);
    } else {
      assert !Idle(kept, p.host);
    }
  }

  /** A move takes back the slot it frees. */
  lemma MovedKeeps(st: State, p: DiscoveredPeer)
    requires Inv(st) && p.host in st.active
    ensures var kept := st.(pending := st.pending - {p.host}); Inv(Connect(Disconnect(kept, p.host), p, p))
  {
    var kept := st.(pending := st.pending - {p.host});
    DisconnectKeeps(kept, p.host);
    var cut := Disconnect(kept, p.host);
    ConnectKeeps(cut, p, p);
    NotConnected(cut, p.host);
    ConnectOutgoing(cut, p, p);
    var st' := Connect(cut, p, p);
    forall h | Idle(st', h) ensures |Outgoing(st'.peers)| == MAX_OUTGOING_PEERS {
      if h != p.host {
        assert Idle(st, h);
      }
    }
  }

  lemma RemovedKeeps(st: State, host: Bytes, now: int)
    requires Inv(st)
    ensures Inv(OnRemoved(st, host, now))
  {
    var st' := OnRemoved(st, host, now);
    forall h | Idle(st', h) ensures |Outgoing(st'.peers)| == MAX_OUTGOING_PEERS {
      assert Idle(st, h);
    }
  }

  lemma DropKeeps(st: State, now: int)
    requires Core(st)
    ensures Core(DropExpired(st, now))
    ensures Leaving(st, now) == {} && NoneIdle(st) ==> NoneIdle(DropExpired(st, now))
  {
    var gone := Leaving(st, now);
    OutgoingMembers(st.peers);
    WithoutMembers(st.peers, gone);
    OutgoingWithout(st.peers, gone);
    WithoutKeepsOne(Outgoing(st.peers), gone);
    StillConnected(st.peers, gone);
    if gone == {} {
      WithoutNothing(st.peers, gone);
      forall h | Idle(DropExpired(st, now), h) ensures Idle(st, h) {}
    }
  }

  /** After admitting in order, either every slot is taken or none of those considered is idle. */
  lemma {:induction false} AdmitKeeps(order: seq<Bytes>, st: State)
    requires Core(st)
    ensures var st' := Admit(order, st);
      && Core(st') && st'.pending == st.pending
      && (|Outgoing(st'.peers)| == MAX_OUTGOING_PEERS || forall h | h in order :: !Idle(st', h))
      && (forall h | Idle(st', h) :: Idle(st, h))
    decreases |order|
  {
    if order != [] {
      var h := order[0];
      assert order == [h] + order[1..];
      if !Idle(st, h) {
        AdmitKeeps(order[1..], st);
      } else {
        var p := st.active[h].peer;
        NotConnected(st, h);
        ConnectOutgoing(st, p, p);
        if |Outgoing(st.peers)| < MAX_OUTGOING_PEERS {
          ConnectKeeps(st, p, p);
          AdmitKeeps(order[1..], Connect(st, p, p));
        }
      }
    }
  }

  lemma SweepKeeps(st: State, now: int)
    requires Inv(st)
    ensures Inv(OnSweep(st, now))
  {
    var dropped := DropExpired(st, now);
    DropKeeps(st, now);
    if Leaving(st, now) != {} {
      ByteOrder.SortedIsSorted(dropped.active.Keys);
      AdmitKeeps(ByteOrder.Sorted(dropped.active.Keys), dropped);
    }
  }

  // ---- Runs ----

  /** Incoming connections come and go beside the reconciler. */
  datatype Action =
    | Add(peer: DiscoveredPeer)
    | Remove(host: Bytes, at: int)
    | Sweep(at: int)
    | Incoming(peers: seq<Connection>)

  ghost predicate Step(st: State, a: Action, st': State) {
    match a
    case Add(p) => st' == OnAdded(st, p)
    case Remove(host, at) => st' == OnRemoved(st, host, at)
    case Sweep(at) => st' == OnSweep(st, at)
    case Incoming(peers) => Outgoing(peers) == Outgoing(st.peers) && st' == st.(peers := peers)
  }

  ghost predicate StepAt(actions: seq<Action>, trace: seq<State>, k: nat)
    requires k < |actions| < |trace|
  {
    Step(trace[k], actions[k], trace[k + 1])
  }

  /** A run starts with nothing tracked and no outgoing connection. */
  ghost predicate IsRun(actions: seq<Action>, trace: seq<State>) {
    && |trace| == |actions| + 1
    && trace[0].active == map[] && trace[0].pending == map[] && Outgoing(trace[0].peers) == []
    && forall k | 0 <= k < |actions| :: StepAt(actions, trace, k)
  }

  lemma StepKeeps(st: State, a: Action, st': State)
    requires Inv(st) && Step(st, a, st')
    ensures Inv(st')
  {
    match a
    case Add(p) => AddedKeeps(st, p);
    case Remove(host, at) => RemovedKeeps(st, host, at);
    case Sweep(at) => SweepKeeps(st, at);
    case Incoming(peers) => IncomingKeeps(st, peers);
  }

  lemma IncomingKeeps(st: State, peers: seq<Connection>)
    requires Inv(st) && Outgoing(peers) == Outgoing(st.peers)
    ensures Inv(st.(peers := peers))
  {
    OutgoingMembers(peers);
    OutgoingMembers(st.peers);
    forall h | Connected(st.peers, h) ensures Connected(peers, h) {
      var c :| c in st.peers && c.outgoing && c.host == h;
      assert c in Outgoing(st.peers);
    }
    forall c | c in peers && c.outgoing ensures c in st.peers {
      assert c in Outgoing(peers);
    }
    forall h | Idle(st.(peers := peers), h) ensures |Outgoing(peers)| == MAX_OUTGOING_PEERS {
      assert Idle(st, h);
    }
  }

  /**
   Throughout any run: pending hosts are tracked, a host is admitted iff it has exactly one
   outgoing connection and that is to its last announced endpoint, there are at most 127, and
   a host is kept waiting only while all 127 are taken.
   */
  lemma {:induction false} RunKeeps(actions: seq<Action>, trace: seq<State>, k: nat)
    requires IsRun(actions, trace) && k <= |actions|
    ensures Inv(trace[k])
  {
    if k == 0 {
      OutgoingMembers(trace[0].peers);
    } else {
      RunKeeps(actions, trace, k - 1);
      assert StepAt(actions, trace, k - 1);
      StepKeeps(trace[k - 1], actions[k - 1], trace[k]);
    }
  }

  // ---- No churn ----

  predicate Concerns(a: Action, host: Bytes) {
    (a.Add? && a.peer.host == host) || (a.Remove? && a.host == host)
  }

  /** The last thing discovery said of `host` before step k was that it went away, at `at`. */
  ghost predicate LastSaidGone(actions: seq<Action>, k: nat, host: Bytes, at: int)
    requires k <= |actions|
  {
    exists j | 0 <= j < k :: actions[j] == Remove(host, at) && forall i | j < i < k :: !Concerns(actions[i], host)
  }

  lemma StillLastSaid(actions: seq<Action>, k: nat, host: Bytes, at: int)
    requires k < |actions| && LastSaidGone(actions, k, host, at) && !Concerns(actions[k], host)
    ensures LastSaidGone(actions, k + 1, host, at)
  {}

  lemma {:induction false} AdmitPending(order: seq<Bytes>, st: State)
    ensures Admit(order, st).pending == st.pending
    decreases |order|
  {
    if order != [] {
      if !Idle(st, order[0]) {
        AdmitPending(order[1..], st);
      } else {
        AdmitPending(order[1..], Connect(st, st.active[order[0]].peer, st.active[order[0]].peer));
      }
    }
  }

  lemma SweepPending(st: State, now: int)
    ensures OnSweep(st, now).pending == st.pending - Expired(st, now)
  {
    var dropped := DropExpired(st, now);
    AdmitPending(ByteOrder.Sorted(dropped.active.Keys), dropped);
  }

  /** A deadline appears only with a departure, and any announcement clears it. */
  lemma StepPending(st: State, a: Action, st': State, host: Bytes)
    requires Core(st) && Step(st, a, st') && host in st'.pending
    ensures a == Remove(host, st'.pending[host] - REMOVAL_GRACE_MS)
         || (!Concerns(a, host) && host in st.pending && st'.pending[host] == st.pending[host])
  {
    if a.Sweep? {
      SweepPending(st, a.at);
    }
  }

  /** A deadline is always four seconds after the last departure reported, with no announcement since. */
  lemma {:induction false} DeadlinesAreEarned(actions: seq<Action>, trace: seq<State>, k: nat, host: Bytes)
    requires IsRun(actions, trace) && k <= |actions|
    requires host in trace[k].pending
    ensures LastSaidGone(actions, k, host, trace[k].pending[host] - REMOVAL_GRACE_MS)
  {
    if k > 0 {
      var at := trace[k].pending[host] - REMOVAL_GRACE_MS;
      RunKeeps(actions, trace, k - 1);
      assert StepAt(actions, trace, k - 1);
      StepPending(trace[k - 1], actions[k - 1], trace[k], host);
      if actions[k - 1] != Remove(host, at) {
        DeadlinesAreEarned(actions, trace, k - 1, host);
        StillLastSaid(actions, k - 1, host, at);
      }
    }
  }

  lemma {:induction false} AdmitAddsOnly(order: seq<Bytes>, st: State)
    ensures forall c | c in st.peers :: c in Admit(order, st).peers
    decreases |order|
  {
    if order != [] {
      if !Idle(st, order[0]) {
        AdmitAddsOnly(order[1..], st);
      } else {
        AdmitAddsOnly(order[1..], Connect(st, st.active[order[0]].peer, st.active[order[0]].peer));
      }
    }
  }

  /** A step tears down an outgoing connection only by moving its host or by its host's deadline passing. */
  lemma StepTearsDown(st: State, a: Action, st': State, c: Connection)
    requires Inv(st) && Step(st, a, st') && c.outgoing && c in st.peers && c !in st'.peers
    ensures (a.Add? && a.peer.host == c.host && !(a.peer.ip == c.ip && a.peer.port == c.port))
         || (a.Sweep? && c.host in st.pending && a.at >= st.pending[c.host])
  {
    match a
    case Add(p) =>
      WithoutMembers(st.peers, {p.host});
    case Remove(_, _) =>
    case Sweep(at) =>
      var dropped := DropExpired(st, at);
      WithoutMembers(st.peers, Leaving(st, at));
      AdmitAddsOnly(ByteOrder.Sorted(dropped.active.Keys), dropped);
    case Incoming(peers) =>
      OutgoingMembers(peers);
      OutgoingMembers(st.peers);
  }

  /**
   No churn: over every run, a live outgoing connection is torn down only when its host is
   announced at another endpoint, or by a sweep at least four seconds after discovery last
   reported the host gone, with no announcement since.
   */
  lemma NoChurn(actions: seq<Action>, trace: seq<State>, k: nat, c: Connection)
    requires IsRun(actions, trace) && k < |actions|
    requires c.outgoing && c in trace[k].peers && c !in trace[k + 1].peers
    ensures var a := actions[k];
      || (a.Add? && a.peer.host == c.host && !(a.peer.ip == c.ip && a.peer.port == c.port))
      || (a.Sweep? && exists at :: LastSaidGone(actions, k, c.host, at) && a.at >= at + REMOVAL_GRACE_MS)
  {
    RunKeeps(actions, trace, k);
    assert StepAt(actions, trace, k);
    StepTearsDown(trace[k], actions[k], trace[k + 1], c);
    if actions[k].Sweep? {
      DeadlinesAreEarned(actions, trace, k, c.host);
    }
  }

  // ---- What discovery last announced ----

  /** The last announcement of `host` in `actions`. */
  function LastAnnounced(actions: seq<Action>, host: Bytes): Option<DiscoveredPeer> {
    if actions == [] then None
    else
      var last := actions[|actions| - 1];
      if last.Add? && last.peer.host == host then Some(last.peer) else LastAnnounced(actions[..|actions| - 1], host)
  }

  /** Every tracked host was announced, and is tracked at the endpoint of its last announcement. */
  ghost predicate TracksAnnounced(actions: seq<Action>, active: map<Bytes, Tracked>) {
    forall h | h in active ::
      var announced := LastAnnounced(actions, h);
      announced.Some? && SameEndpoint(active[h].peer, announced.value)
  }

  /** Admitting tracks nobody new and moves nobody. */
  lemma {:induction false} AdmitMovesNobody(order: seq<Bytes>, st: State)
    requires OwnHosts(st.active)
    ensures Admit(order, st).active.Keys == st.active.Keys
    ensures forall h | h in st.active :: Admit(order, st).active[h].peer == st.active[h].peer
    decreases |order|
  {
    if order != [] {
      if !Idle(st, order[0]) {
        AdmitMovesNobody(order[1..], st);
      } else {
        var p := st.active[order[0]].peer;
        assert p.host == order[0];
        AdmitMovesNobody(order[1..], Connect(st, p, p));
      }
    }
  }

  lemma AddedTracks(actions: seq<Action>, st: State, p: DiscoveredPeer)
    requires TracksAnnounced(actions, st.active)
    ensures TracksAnnounced(actions + [Add(p)], OnAdded(st, p).active)
  {
    assert (actions + [Add(p)])[..|actions|] == actions;
  }

  lemma StepTracks(actions: seq<Action>, st: State, a: Action, st': State)
    requires Inv(st) && Step(st, a, st') && TracksAnnounced(actions, st.active)
    ensures TracksAnnounced(actions + [a], st'.active)
  {
    match a
    case Add(p) => AddedTracks(actions, st, p);
    case Sweep(at) =>
      assert (actions + [a])[..|actions|] == actions;
      var dropped := DropExpired(st, at);
      AdmitMovesNobody(ByteOrder.Sorted(dropped.active.Keys), dropped);
    case _ =>
      assert (actions + [a])[..|actions|] == actions;
  }

  lemma {:induction false} RunTracks(actions: seq<Action>, trace: seq<State>, k: nat)
    requires IsRun(actions, trace) && k <= |actions|
    ensures TracksAnnounced(actions[..k], trace[k].active)
  {
    if k > 0 {
      RunTracks(actions, trace, k - 1);
      RunKeeps(actions, trace, k - 1);
      assert StepAt(actions, trace, k - 1);
      StepTracks(actions[..k - 1], trace[k - 1], actions[k - 1], trace[k]);
      assert actions[..k] == actions[..k - 1] + [actions[k - 1]];
    }
  }

  /**
   In every state of every run, every outgoing connection goes to the endpoint that discovery last
   announced for its host, no host has two, and there are at most 127.
   */
  lemma ConnectedWhereAnnounced(actions: seq<Action>, trace: seq<State>, k: nat, c: Connection)
    requires IsRun(actions, trace) && k <= |actions| && c in trace[k].peers && c.outgoing
    ensures var announced := LastAnnounced(actions[..k], c.host);
      announced.Some? && announced.value.ip == c.ip && announced.value.port == c.port
    ensures OnePerHost(Outgoing(trace[k].peers)) && |Outgoing(trace[k].peers)| <= 127
  {
    RunKeeps(actions, trace, k);
    RunTracks(actions, trace, k);
    assert Accounts(trace[k].active, c);
  }

  // ---- Every host announced is served ----

  /** Announced, and not reported gone since. */
  ghost predicate Present(actions: seq<Action>, host: Bytes) {
    exists j | 0 <= j < |actions| ::
      actions[j].Add? && actions[j].peer.host == host && forall i | j < i < |actions| :: !Concerns(actions[i], host)
  }

  lemma PresentBefore(actions: seq<Action>, a: Action, host: Bytes)
    requires Present(actions + [a], host) && !(a.Add? && a.peer.host == host)
    ensures Present(actions, host) && !Concerns(a, host)
  {
    var all := actions + [a];
    var j :| 0 <= j < |all| && all[j].Add? && all[j].peer.host == host && forall i | j < i < |all| :: !Concerns(all[i], host);
    assert all[|actions|] == a && j < |actions|;
    assert forall i | j < i < |actions| :: all[i] == actions[i];
    assert actions[j] == all[j];
  }

  /** A step that says nothing of a tracked host with no deadline leaves it so. */
  lemma TrackedStays(st: State, a: Action, st': State, host: Bytes)
    requires Inv(st) && Step(st, a, st') && !Concerns(a, host) && host in st.active && host !in st.pending
    ensures host in st'.active && host !in st'.pending
  {
    if a.Sweep? {
      SweepPending(st, a.at);
      var dropped := DropExpired(st, a.at);
      AdmitMovesNobody(ByteOrder.Sorted(dropped.active.Keys), dropped);
    }
  }

  lemma AddedIsTracked(st: State, p: DiscoveredPeer)
    ensures p.host in OnAdded(st, p).active && p.host !in OnAdded(st, p).pending
  {}

  lemma TrackedIsServed(st: State, host: Bytes)
    requires Inv(st) && host in st.active && host !in st.pending
    ensures (exists c :: c in st.peers && c.outgoing && c.host == host) || |Outgoing(st.peers)| == 127
  {
    assert st.active[host].admitted || Idle(st, host);
  }

  lemma {:induction false} PresentStaysTracked(actions: seq<Action>, trace: seq<State>, k: nat, host: Bytes)
    requires IsRun(actions, trace) && k <= |actions| && Present(actions[..k], host)
    ensures host in trace[k].active && host !in trace[k].pending
  {
    var i := k - 1;
    assert StepAt(actions, trace, i);
    assert actions[..k] == actions[..i] + [actions[i]];
    RunKeeps(actions, trace, i);
    if actions[i].Add? && actions[i].peer.host == host {
      AddedIsTracked(trace[i], actions[i].peer);
    } else {
      PresentBefore(actions[..i], actions[i], host);
      PresentStaysTracked(actions, trace, i, host);
      TrackedStays(trace[i], actions[i], trace[i + 1], host);
    }
  }

  /** A host announced and not reported gone is tracked and not about to go, so it is connected or all 127 slots are taken. */
  lemma PresentIsTracked(actions: seq<Action>, trace: seq<State>, k: nat, host: Bytes)
    requires IsRun(actions, trace) && k <= |actions| && Present(actions[..k], host)
    ensures host in trace[k].active && host !in trace[k].pending
    ensures (exists c :: c in trace[k].peers && c.outgoing && c.host == host) || |Outgoing(trace[k].peers)| == 127
  {
    RunKeeps(actions, trace, k);
    PresentStaysTracked(actions, trace, k, host);
    TrackedIsServed(trace[k], host);
  }

  // ---- Every host that is gone goes ----

  /** A step that does not concern a host it leaves tracked leaves its deadline alone. */
  lemma SweptStays(st: State, a: Action, st': State, host: Bytes)
    requires Inv(st) && Step(st, a, st') && !Concerns(a, host) && host in st'.active
    ensures host in st.active
    ensures host in st.pending ==> host in st'.pending && st'.pending[host] == st.pending[host]
  {
    if a.Sweep? {
      var dropped := DropExpired(st, a.at);
      AdmitMovesNobody(ByteOrder.Sorted(dropped.active.Keys), dropped);
      SweepPending(st, a.at);
    }
  }

  /** While a host reported gone is still tracked, its deadline is four seconds after the report. */
  lemma {:induction false} GoneIsPending(actions: seq<Action>, trace: seq<State>, k: nat, host: Bytes, at: int)
    requires IsRun(actions, trace) && k <= |actions|
    requires LastSaidGone(actions, k, host, at) && host in trace[k].active
    ensures host in trace[k].pending && trace[k].pending[host] == at + 4000
  {
    assert k > 0;
    var i := k - 1;
    assert StepAt(actions, trace, i);
    RunKeeps(actions, trace, i);
    if actions[i] == Remove(host, at) {
      RemovedIsPending(trace[i], host, at, trace[i + 1]);
    } else {
      SaidGoneBefore(actions, i, host, at);
      SweptStays(trace[i], actions[i], trace[i + 1], host);
      GoneIsPending(actions, trace, i, host, at);
    }
  }

  lemma RemovedIsPending(st: State, host: Bytes, at: int, st': State)
    requires Step(st, Remove(host, at), st') && host in st'.active
    ensures host in st'.pending && st'.pending[host] == at + 4000
  {}

  lemma SaidGoneBefore(actions: seq<Action>, k: nat, host: Bytes, at: int)
    requires k < |actions| && LastSaidGone(actions, k + 1, host, at) && actions[k] != Remove(host, at)
    ensures LastSaidGone(actions, k, host, at) && !Concerns(actions[k], host)
  {}

  /** A sweep four seconds after a host was last reported gone, with no announcement since, tears it down. */
  lemma GoneIsTornDown(actions: seq<Action>, trace: seq<State>, k: nat, host: Bytes, at: int)
    requires IsRun(actions, trace) && k < |actions| && LastSaidGone(actions, k, host, at)
    requires actions[k].Sweep? && actions[k].at >= at + 4000
    ensures host !in trace[k + 1].active && forall c | c in trace[k + 1].peers && c.outgoing :: c.host != host
  {
    var st, t := trace[k], actions[k].at;
    assert StepAt(actions, trace, k);
    RunKeeps(actions, trace, k);
    RunKeeps(actions, trace, k + 1);
    if host in st.active {
      GoneIsPending(actions, trace, k, host, at);
    }
    var dropped := DropExpired(st, t);
    AdmitMovesNobody(ByteOrder.Sorted(dropped.active.Keys), dropped);
  }

  // ---- Incoming connections are left alone ----

  lemma {:induction false} AdmitAddsOutgoing(order: seq<Bytes>, st: State)
    ensures forall c | c in Admit(order, st).peers && c !in st.peers :: c.outgoing
    decreases |order|
  {
    if order != [] {
      if !Idle(st, order[0]) {
        AdmitAddsOutgoing(order[1..], st);
      } else {
        AdmitAddsOutgoing(order[1..], Connect(st, st.active[order[0]].peer, st.active[order[0]].peer));
      }
    }
  }

  /** The reconciler neither opens nor closes an incoming connection. */
  lemma IncomingUntouched(st: State, a: Action, st': State, c: Connection)
    requires Step(st, a, st') && !a.Incoming? && !c.outgoing
    ensures c in st'.peers <==> c in st.peers
  {
    match a
    case Add(p) => WithoutMembers(st.peers, {p.host});
    case Sweep(at) =>
      var dropped := DropExpired(st, at);
      WithoutMembers(st.peers, Leaving(st, at));
      AdmitAddsOnly(ByteOrder.Sorted(dropped.active.Keys), dropped);
      AdmitAddsOutgoing(ByteOrder.Sorted(dropped.active.Keys), dropped);
    case Remove(_, _) =>
  }

  // ---- Slots are given in host order ----

  lemma {:induction false} AdmitKeepsAdmitted(order: seq<Bytes>, st: State, h: Bytes)
    requires h in st.active && st.active[h].admitted && OwnHosts(st.active)
    ensures h in Admit(order, st).active && Admit(order, st).active[h].admitted
    decreases |order|
  {
    if order != [] {
      if !Idle(st, order[0]) {
        AdmitKeepsAdmitted(order[1..], st, h);
      } else {
        var p := st.active[order[0]].peer;
        assert p.host == order[0] != h;
        AdmitKeepsAdmitted(order[1..], Connect(st, p, p), h);
      }
    }
  }

  predicate Admitted(st: State, h: Bytes) {
    h in st.active && st.active[h].admitted
  }

  lemma FirstIsLeast(order: seq<Bytes>)
    requires order != [] && ByteOrder.StrictlyAscending(order)
    ensures ByteOrder.StrictlyAscending(order[1..])
    ensures forall g | g in order && g != order[0] :: g in order[1..] && ByteOrder.Less(order[0], g)
  {
    var rest := order[1..];
    forall i, j | 0 <= i < j < |rest| ensures ByteOrder.Less(rest[i], rest[j]) {
      assert order[i + 1] == rest[i] && order[j + 1] == rest[j];
    }
    assert order == [order[0]] + rest;
  }

  lemma OthersIdleAlike(st: State, p: DiscoveredPeer, record: DiscoveredPeer, h: Bytes)
    requires h != p.host
    ensures Idle(Connect(st, p, record), h) <==> Idle(st, h)
  {}

  /** The first idle host, met with a free slot, is admitted and stays so. */
  lemma FirstIsAdmitted(order: seq<Bytes>, st: State)
    requires Core(st) && order != [] && Idle(st, order[0]) && |Outgoing(st.peers)| < MAX_OUTGOING_PEERS
    ensures var p := st.active[order[0]].peer; var st' := Connect(st, p, p);
      p.host == order[0] && Core(st') && Admit(order, st) == Admit(order[1..], st') && Admitted(Admit(order[1..], st'), order[0])
  {
    var p := st.active[order[0]].peer;
    NotConnected(st, order[0]);
    ConnectOutgoing(st, p, p);
    ConnectKeeps(st, p, p);
    AdmitKeepsAdmitted(order[1..], Connect(st, p, p), order[0]);
  }

  /** Whoever is admitted comes before whoever is left waiting. */
  lemma {:induction false} AdmittedInOrder(order: seq<Bytes>, st: State, h: Bytes, g: Bytes)
    requires Core(st) && ByteOrder.StrictlyAscending(order) && h in order && g in order
    requires Idle(st, h) && Admitted(Admit(order, st), h) && Idle(Admit(order, st), g)
    ensures ByteOrder.Less(h, g)
    decreases |order|
  {
    var first := order[0];
    FirstIsLeast(order);
    if !Idle(st, first) {
      AdmitKeeps(order, st);
      AdmittedInOrder(order[1..], st, h, g);
    } else if |Outgoing(st.peers)| < MAX_OUTGOING_PEERS {
      FirstIsAdmitted(order, st);
      if h != first {
        var p := st.active[first].peer;
        OthersIdleAlike(st, p, p, h);
        AdmittedInOrder(order[1..], Connect(st, p, p), h, g);
      }
    } else {
      NotConnected(st, first);
    }
  }

  /** A sweep gives the slots it frees to waiting hosts in host order. */
  lemma SweepAdmitsInOrder(st: State, now: int, h: Bytes, g: Bytes)
    requires Inv(st) && Idle(st, h) && Admitted(OnSweep(st, now), h) && Idle(OnSweep(st, now), g)
    ensures ByteOrder.Less(h, g)
  {
    var dropped := DropExpired(st, now);
    var order := ByteOrder.Sorted(dropped.active.Keys);
    DropKeeps(st, now);
    ByteOrder.SortedIsSorted(dropped.active.Keys);
    AdmitMovesNobody(order, dropped);
    AdmittedInOrder(order, dropped, h, g);
  }
}
