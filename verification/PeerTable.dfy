/**
 The peer table of src/PeerManager.cpp as far as outgoing connections go: at most one per host
 and at most 127 in all, next to incoming ones it leaves alone. The vector keeps both kinds in
 the order they came; looking at the outgoing ones and taking some away commute, which is what
 the reconciler's invariant rests on.
 */
module PeerTable {
  import opened Machine

  const MAX_OUTGOING_PEERS := 127

  /** `serial` tells one connection from a later one to the same host. */
  datatype Connection = Connection(host: Bytes, outgoing: bool, ip: Bytes, port: u16, serial: nat)

  datatype Admission = Accepted | AlreadyPresent | RejectedPeerLimit

  /** A host as discovery announces it. */
  datatype DiscoveredPeer = DiscoveredPeer(host: Bytes, name: Bytes, ip: Bytes, port: u16)

  function Outgoing(peers: seq<Connection>): (r: seq<Connection>)
    ensures forall c | c in r :: c.outgoing && c in peers
  {
    if peers == [] then []
    else
      var last := peers[|peers| - 1];
      Outgoing(peers[..|peers| - 1]) + if last.outgoing then [last] else []
  }

  predicate Connected(peers: seq<Connection>, host: Bytes) {
    exists c :: c in peers && c.outgoing && c.host == host
  }

  /** The table without the outgoing connections of `hosts`. */
  function Without(peers: seq<Connection>, hosts: set<Bytes>): (r: seq<Connection>) {
    if peers == [] then []
    else
      var last := peers[|peers| - 1];
      Without(peers[..|peers| - 1], hosts) + if last.outgoing && last.host in hosts then [] else [last]
  }

  function Added(peers: seq<Connection>, serial: nat, p: DiscoveredPeer): (seq<Connection>, Admission) {
    if Connected(peers, p.host) then (peers, AlreadyPresent)
    else if |Outgoing(peers)| >= MAX_OUTGOING_PEERS then (peers, RejectedPeerLimit)
    else (peers + [Connection(p.host, true, p.ip, p.port, serial)], Accepted)
  }

  // ---- Facts ----

  lemma {:induction false} OutgoingMembers(peers: seq<Connection>)
    ensures forall c :: c in Outgoing(peers) <==> c in peers && c.outgoing
  {
    if peers != [] {
      OutgoingMembers(peers[..|peers| - 1]);
      assert peers == peers[..|peers| - 1] + [peers[|peers| - 1]];
    }
  }

  lemma {:induction false} WithoutMembers(peers: seq<Connection>, hosts: set<Bytes>)
    ensures forall c :: c in Without(peers, hosts) <==> c in peers && !(c.outgoing && c.host in hosts)
  {
    if peers != [] {
      WithoutMembers(peers[..|peers| - 1], hosts);
      assert peers == peers[..|peers| - 1] + [peers[|peers| - 1]];
    }
  }

  lemma OutgoingAppend(peers: seq<Connection>, c: Connection)
    ensures Outgoing(peers + [c]) == if c.outgoing then Outgoing(peers) + [c] else Outgoing(peers)
  {}

  lemma WithoutAppend(peers: seq<Connection>, c: Connection, hosts: set<Bytes>)
    ensures Without(peers + [c], hosts)
         == if c.outgoing && c.host in hosts then Without(peers, hosts) else Without(peers, hosts) + [c]
  {}

  /** Removing connections and then looking at the outgoing ones, or the other way round. */
  lemma {:induction false} OutgoingWithout(peers: seq<Connection>, hosts: set<Bytes>)
    ensures Outgoing(Without(peers, hosts)) == Without(Outgoing(peers), hosts)
  {
    if peers != [] {
      var init, last := peers[..|peers| - 1], peers[|peers| - 1];
      assert peers == init + [last];
      OutgoingWithout(init, hosts);
      WithoutAppend(init, last, hosts);
      OutgoingAppend(init, last);
      if !(last.outgoing && last.host in hosts) {
        OutgoingAppend(Without(init, hosts), last);
      }
      if last.outgoing {
        WithoutAppend(Outgoing(init), last, hosts);
      }
    }
  }

  lemma {:induction false} WithoutTwice(peers: seq<Connection>, a: set<Bytes>, b: set<Bytes>)
    ensures Without(Without(peers, a), b) == Without(peers, a + b)
  {
    if peers != [] {
      var init, last := peers[..|peers| - 1], peers[|peers| - 1];
      assert peers == init + [last];
      WithoutTwice(init, a, b);
      WithoutAppend(init, last, a);
      WithoutAppend(init, last, a + b);
      if !(last.outgoing && last.host in a) {
        WithoutAppend(Without(init, a), last, b);
      }
    }
  }

  lemma {:induction false} WithoutNothing(peers: seq<Connection>, hosts: set<Bytes>)
    requires forall c | c in peers :: !(c.outgoing && c.host in hosts)
    ensures Without(peers, hosts) == peers
  {
    if peers != [] {
      var init, last := peers[..|peers| - 1], peers[|peers| - 1];
      assert peers == init + [last];
      WithoutNothing(init, hosts);
    }
  }

  ghost predicate OnePerHost(out: seq<Connection>) {
    forall i, j | 0 <= i < j < |out| :: out[i].host != out[j].host
  }

  lemma LastApart(init: seq<Connection>, last: Connection)
    requires OnePerHost(init + [last])
    ensures OnePerHost(init) && forall d | d in init :: d.host != last.host
  {
    var out := init + [last];
    assert out[|init|] == last;
    forall i | 0 <= i < |init| ensures init[i].host != last.host {
      assert out[i] == init[i];
    }
    forall i, j | 0 <= i < j < |init| ensures init[i].host != init[j].host {
      assert out[i] == init[i] && out[j] == init[j];
    }
  }

  /** Tearing down a host's only connection frees exactly one slot. */
  lemma {:induction false} WithoutOne(out: seq<Connection>, c: Connection)
    requires OnePerHost(out) && c in out && forall d | d in out :: d.outgoing
    ensures |Without(out, {c.host})| == |out| - 1
  {
    var init, last := out[..|out| - 1], out[|out| - 1];
    assert out == init + [last];
    LastApart(init, last);
    if last == c {
      WithoutNothing(init, {c.host});
    } else {
      assert c in init;
      WithoutOne(init, c);
    }
  }

  lemma {:induction false} WithoutKeepsOne(out: seq<Connection>, hosts: set<Bytes>)
    requires OnePerHost(out)
    ensures OnePerHost(Without(out, hosts)) && |Without(out, hosts)| <= |out|
  {
    if out != [] {
      var init, last := out[..|out| - 1], out[|out| - 1];
      assert out == init + [last];
      LastApart(init, last);
      WithoutKeepsOne(init, hosts);
      WithoutMembers(init, hosts);
      AppendKeepsOne(Without(init, hosts), last);
    }
  }

  lemma AppendKeepsOne(out: seq<Connection>, c: Connection)
    requires OnePerHost(out) && forall d | d in out :: d.host != c.host
    ensures OnePerHost(out + [c])
  {}

  // ---- The manager ----

  class PeerManager {
    var peers: seq<Connection>
    var serial: nat

    constructor ()
      ensures peers == [] && serial == 0
    {
      peers, serial := [], 0;
    }

    method AddPeer(p: DiscoveredPeer) returns (admission: Admission)
      modifies this
      ensures (peers, admission) == Added(old(peers), old(serial), p)
      ensures serial == old(serial) + if admission == Accepted then 1 else 0
    {
      var found := FindOutgoing(peers, p.host);
      if found < |peers| {
        return AlreadyPresent;
      }
      var outgoing := CountOutgoing(peers);
      if outgoing >= MAX_OUTGOING_PEERS {
        return RejectedPeerLimit;
      }
      peers := peers + [Connection(p.host, true, p.ip, p.port, serial)];
      serial := serial + 1;
      return Accepted;
    }

    method RemoveOutgoingPeer(host: Bytes)
      modifies this`peers
      ensures peers == Without(old(peers), {host})
    {
      peers := EraseOutgoing(peers, host);
    }
  }

  method FindOutgoing(peers: seq<Connection>, host: Bytes) returns (k: nat)
    ensures k <= |peers| && (k < |peers| <==> Connected(peers, host))
  {
    k := 0;
    while k < |peers| && !(peers[k].outgoing && peers[k].host == host)
      invariant k <= |peers| && forall i | 0 <= i < k :: !(peers[i].outgoing && peers[i].host == host)
    {
      k := k + 1;
    }
    assert k < |peers| ==> peers[k] in peers;
  }

  method CountOutgoing(peers: seq<Connection>) returns (n: nat)
    ensures n == |Outgoing(peers)|
  {
    n := 0;
    for i := 0 to |peers|
      invariant n == |Outgoing(peers[..i])|
    {
      assert peers[..i + 1][..i] == peers[..i];
      if peers[i].outgoing {
        n := n + 1;
      }
    }
    assert peers[..|peers|] == peers;
  }

  method EraseOutgoing(peers: seq<Connection>, host: Bytes) returns (kept: seq<Connection>)
    ensures kept == Without(peers, {host})
  {
    kept := [];
    for i := 0 to |peers|
      invariant kept == Without(peers[..i], {host})
    {
      assert peers[..i + 1][..i] == peers[..i];
      if !(peers[i].outgoing && peers[i].host == host) {
        kept := kept + [peers[i]];
      }
    }
    assert peers[..|peers|] == peers;
  }
}
