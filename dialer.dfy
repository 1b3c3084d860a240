/**
 The circuit-relay transport dialer of a libp2p node: which of a node's
 addresses are circuit-relay addresses, the default relay address a node
 advertises when it has none, the relay hops dialled once the swarm is
 listening, the relay registry kept in step with closed connections, and the
 read-only transport priority.

 Addresses and peer ids are their textual forms; the circuit-address matcher
 of the multiaddr format library is a parameter (`isCircuit`); the relay
 dials themselves are recorded in a log instead of being performed.
 */
module CircuitDialer {
  import opened JsBuiltins

  /** A multiaddr in its textual form, e.g. "/ip4/127.0.0.1/tcp/4002/ipfs/Qm…". */
  type Multiaddr = string

  /** A peer id in its base58 textual form. */
  type PeerId = string

  /** The token that separates the hops of a circuit address. */
  const CircuitDelimiter: string := "/p2p-circuit"

  /** The transport's fixed priority (`constants.PRIOIRY`). */
  const PRIORITY: int := 100

  /** The circuit address under which a node with id `id` is reachable through
      any relay willing to forward to it. */
  function DefaultRelayAddr(id: PeerId): Multiaddr
  {
    "/p2p-circuit/ipfs/" + id
  }

  /** The argument of `filter`: one address, or an array of them. */
  datatype FilterArg = Single(addr: Multiaddr) | Many(addrs: seq<Multiaddr>)

  /** One call of the relay dialer's `dialRelay`: for a hop segment taken
      from a configured relay address, or for a peer the swarm has just
      opened a multiplexed connection to. */
  datatype DialRequest = SegmentDial(segment: Multiaddr) | PeerDial(id: PeerId)

  /** What writing the priority raises. */
  datatype MisuseError = PriorityReadOnly

  /** Outcome of an operation that either completes or raises. */
  datatype Outcome = Pass | Fail(error: MisuseError)

  /** `filter(multiaddrs)`: the circuit addresses among the argument, in their
      original order; a single address is treated as a one-element array. */
  function Filter(isCircuit: Multiaddr -> bool, arg: FilterArg): (r: seq<Multiaddr>)
    ensures forall i :: 0 <= i < |r| ==> isCircuit(r[i])
    ensures arg.Single? ==> r == if isCircuit(arg.addr) then [arg.addr] else []
    ensures arg.Many? ==> IsSubsequence(r, arg.addrs)
    ensures arg.Many? ==> forall a :: a in arg.addrs && isCircuit(a) ==> a in r
    ensures arg.Many? ==> forall a :: multiset(r)[a] == if isCircuit(a) then multiset(arg.addrs)[a] else 0
  {
    var addrs := if arg.Many? then arg.addrs else [arg.addr];
    ArrayFilterIsSubsequence(isCircuit, addrs);
    ArrayFilterMembers(isCircuit, addrs);
    ArrayFilter(isCircuit, addrs)
  }

  /** Filtering the result of `filter` again changes nothing. */
  lemma FilterIdempotent(isCircuit: Multiaddr -> bool, addrs: seq<Multiaddr>)
    ensures Filter(isCircuit, Many(Filter(isCircuit, Many(addrs)))) == Filter(isCircuit, Many(addrs))
  {
    ArrayFilterIdempotent(isCircuit, addrs);
  }

  /** The test `segment => segment.length`. */
  function NonEmpty(s: string): bool
  {
    |s| > 0
  }

  /** The hop segments of one configured relay address: its pieces between
      occurrences of "/p2p-circuit", with the empty pieces dropped. */
  function Segments(relay: Multiaddr): seq<Multiaddr>
  {
    ArrayFilter(NonEmpty, StringSplit(relay, CircuitDelimiter))
  }

  /** Every segment is non-empty and free of "/p2p-circuit", and the segments
      are the non-empty pieces of the split in their original order. */
  lemma SegmentsWellFormed(relay: Multiaddr)
    ensures forall i :: 0 <= i < |Segments(relay)| ==> Segments(relay)[i] != [] && !Occurs(Segments(relay)[i], CircuitDelimiter)
    ensures IsSubsequence(Segments(relay), StringSplit(relay, CircuitDelimiter))
  {
    var pieces := StringSplit(relay, CircuitDelimiter);
    SplitPiecesFree(relay, CircuitDelimiter);
    ArrayFilterIsSubsequence(NonEmpty, pieces);
    ArrayFilterMembers(NonEmpty, pieces);
  }

  /** A relay address written as non-empty hops joined by "/p2p-circuit",
      none of which starts an occurrence of the delimiter, yields exactly
      those hops, in order. */
  lemma SegmentsOfChain(hops: seq<Multiaddr>)
    requires |hops| >= 1
    requires forall i :: 0 <= i < |hops| ==> hops[i] != [] && ClearOf(hops[i], CircuitDelimiter)
    ensures Segments(ArrayJoin(hops, CircuitDelimiter)) == hops
  {
    FilterSplitJoin(NonEmpty, hops, CircuitDelimiter);
  }

  /** A string shorter than the delimiter cannot contain it. */
  lemma {:induction false} ShortNoOccurrence(s: string, d: string)
    requires |s| < |d|
    ensures !Occurs(s, d)
    decreases |s|
  {
    if s != [] {
      ShortNoOccurrence(s[1..], d);
    }
  }

  /** The default relay address, split into segments, is the single hop
      "/ipfs/<id>" naming the node itself. */
  lemma DefaultRelaySegments(id: PeerId)
    requires ClearOf("/ipfs/" + id, CircuitDelimiter)
    ensures Segments(DefaultRelayAddr(id)) == ["/ipfs/" + id]
  {
    var hop := "/ipfs/" + id;
    ShortNoOccurrence(CircuitDelimiter[..|CircuitDelimiter| - 1], CircuitDelimiter);
    assert ClearOf("", CircuitDelimiter) by {
      assert "" + CircuitDelimiter[..|CircuitDelimiter| - 1] == CircuitDelimiter[..|CircuitDelimiter| - 1];
    }
    assert ArrayJoin(["", hop], CircuitDelimiter) == "" + CircuitDelimiter + ArrayJoin([hop], CircuitDelimiter);
    assert DefaultRelayAddr(id) == ArrayJoin(["", hop], CircuitDelimiter);
    SplitJoin(["", hop], CircuitDelimiter);
    assert ["", hop][1..] == [hop];
    ArrayFilterKeepsAll(NonEmpty, [hop]);
    assert ArrayFilter(NonEmpty, ["", hop]) == ArrayFilter(NonEmpty, [hop]);
  }

  /** Every hop segment of the given relays, relay by relay and, within a
      relay, segment by segment. */
  function AllSegments(relays: seq<Multiaddr>): seq<Multiaddr>
  {
    FlatMap(Segments, relays)
  }

  /** Every segment dialled is a non-empty hop of one of the relays and
      contains no "/p2p-circuit". */
  lemma AllSegmentsWellFormed(relays: seq<Multiaddr>, k: nat)
    requires k < |AllSegments(relays)|
    ensures AllSegments(relays)[k] != [] && !Occurs(AllSegments(relays)[k], CircuitDelimiter)
    ensures exists i :: 0 <= i < |relays| && AllSegments(relays)[k] in Segments(relays[i])
  {
    FlatMapOrigin(Segments, relays, k);
    var i :| 0 <= i < |relays| && AllSegments(relays)[k] in Segments(relays[i]);
    SegmentsWellFormed(relays[i]);
  }

  /** The first relay's segments are dialled first, then those of the rest. */
  lemma RelayOrder(relay: Multiaddr, rest: seq<Multiaddr>)
    ensures AllSegments([relay] + rest) == Segments(relay) + AllSegments(rest)
  {
    FlatMapAppend(Segments, [relay], rest);
    assert [relay][..0] == [];
  }

  /** The log entry for dialling one segment. */
  function DialOf(segment: Multiaddr): seq<DialRequest>
  {
    [SegmentDial(segment)]
  }

  /** The log entries for dialling the given segments, one per segment, in order. */
  function SegmentDials(segs: seq<Multiaddr>): seq<DialRequest>
  {
    FlatMap(DialOf, segs)
  }

  /** The log entries for a list of segments are one `SegmentDial` per
      segment, in the segments' order. */
  lemma {:induction false} SegmentDialsAt(segs: seq<Multiaddr>)
    ensures |SegmentDials(segs)| == |segs|
    ensures forall k :: 0 <= k < |segs| ==> SegmentDials(segs)[k] == SegmentDial(segs[k])
    decreases |segs|
  {
    if segs != [] {
      var n := |segs| - 1;
      SegmentDialsAt(segs[..n]);
      assert SegmentDials(segs) == SegmentDials(segs[..n]) + [SegmentDial(segs[n])];
    }
  }

  /** Dialling one more segment adds its entry at the end of the log. */
  lemma DialOneMore(segs: seq<Multiaddr>, j: nat)
    requires j < |segs|
    ensures SegmentDials(segs[..j + 1]) == SegmentDials(segs[..j]) + [SegmentDial(segs[j])]
  {
    assert segs[..j + 1][..j] == segs[..j];
  }

  /** The segments of the first `i + 1` relays extend those of the first `i`
      by the segments of relay `i`. */
  lemma NextRelay(relays: seq<Multiaddr>, i: nat)
    requires i < |relays|
    ensures AllSegments(relays[..i + 1]) == AllSegments(relays[..i]) + Segments(relays[i])
  {
    assert relays[..i + 1][..|relays[..i + 1]| - 1] == relays[..i];
  }

  /** `multiaddrs.add(ma)` on a peer's address set: inserts `ma` at the end
      unless it is already present. */
  function AddAddr(addrs: seq<Multiaddr>, ma: Multiaddr): (r: seq<Multiaddr>)
    ensures forall a :: a in r <==> a in addrs || a == ma
    ensures addrs <= r && |r| <= |addrs| + 1
    ensures ma !in addrs ==> r == addrs + [ma]
    ensures ma in addrs ==> r == addrs
  {
    if ma in addrs then addrs else addrs + [ma]
  }

  /** The local peer's addresses after construction: unchanged when one of
      them is a circuit address, otherwise extended by the default relay
      address for `id`. */
  function EnsureDefaultRelay(isCircuit: Multiaddr -> bool, id: PeerId, addrs: seq<Multiaddr>): (r: seq<Multiaddr>)
    ensures (exists a :: a in addrs && isCircuit(a)) ==> r == addrs
    ensures (forall a :: a in addrs ==> !isCircuit(a)) ==>
      && DefaultRelayAddr(id) in r
      && addrs <= r
      && |r| <= |addrs| + 1
      && (forall a :: a in r ==> a in addrs || a == DefaultRelayAddr(id))
    ensures (forall a :: a in addrs ==> !isCircuit(a)) && DefaultRelayAddr(id) !in addrs ==>
      r == addrs + [DefaultRelayAddr(id)]
    ensures DefaultRelayAddr(id) in addrs ==> r == addrs
  {
    if Filter(isCircuit, Many(addrs)) == [] then AddAddr(addrs, DefaultRelayAddr(id)) else addrs
  }

  /** When the matcher recognises the default relay address, constructing a
      second dialer over the same peer adds nothing more. */
  lemma EnsureDefaultRelayIdempotent(isCircuit: Multiaddr -> bool, id: PeerId, addrs: seq<Multiaddr>)
    requires isCircuit(DefaultRelayAddr(id))
    ensures EnsureDefaultRelay(isCircuit, id, EnsureDefaultRelay(isCircuit, id, addrs))
         == EnsureDefaultRelay(isCircuit, id, addrs)
  {
    var r := EnsureDefaultRelay(isCircuit, id, addrs);
    if forall a :: a in addrs ==> !isCircuit(a) {
      assert DefaultRelayAddr(id) in r;
    } else {
      assert r == addrs;
    }
  }

  /** `relayPeers.delete(id)`: the registry without `id`, every other entry as it was. */
  function Evict(relayPeers: map<PeerId, PeerInfo>, id: PeerId): (r: map<PeerId, PeerInfo>)
    ensures id !in r
    ensures r.Keys == relayPeers.Keys - {id}
    ensures forall k :: k in r ==> r[k] == relayPeers[k]
    ensures |r| == if id in relayPeers then |relayPeers| - 1 else |relayPeers|
    ensures id !in relayPeers ==> r == relayPeers
  {
    relayPeers - {id}
  }

  /** Recording a relay peer: the registry with `info` under its id, every
      other entry as it was. */
  function Register(relayPeers: map<PeerId, PeerInfo>, info: PeerInfo): (r: map<PeerId, PeerInfo>)
    ensures info.id in r && r[info.id] == info
    ensures r.Keys == relayPeers.Keys + {info.id}
    ensures forall k :: k in relayPeers && k != info.id ==> r[k] == relayPeers[k]
  {
    relayPeers[info.id := info]
  }

  /** A peer registered and then closed leaves the registry as closing it
      alone would have; a peer that was not registered before leaves no trace. */
  lemma RegisterThenEvict(relayPeers: map<PeerId, PeerInfo>, info: PeerInfo)
    ensures Evict(Register(relayPeers, info), info.id) == Evict(relayPeers, info.id)
    ensures info.id !in relayPeers ==> Evict(Register(relayPeers, info), info.id) == relayPeers
  {
    assert Evict(Register(relayPeers, info), info.id).Keys == Evict(relayPeers, info.id).Keys;
  }

  /** A peer as the swarm knows it: a fixed id and a mutable address set. */
  class PeerInfo {
    const id: PeerId
    var multiaddrs: seq<Multiaddr>

    constructor (id: PeerId, multiaddrs: seq<Multiaddr>)
      ensures this.id == id && this.multiaddrs == multiaddrs
    {
      this.id := id;
      this.multiaddrs := multiaddrs;
    }

    /** `multiaddrs.add(ma)`. */
    method AddMultiaddr(ma: Multiaddr)
      modifies this
      ensures multiaddrs == AddAddr(old(multiaddrs), ma)
    {
      if ma !in multiaddrs {
        multiaddrs := multiaddrs + [ma];
      }
    }
  }

  /** The circuit-relay transport dialer bound to one swarm. */
  class Dialer {
    /** The swarm's own peer (`swarm._peerInfo`). */
    const peerInfo: PeerInfo
    /** The circuit-address matcher (`mafmt.Circuit.matches`). */
    const isCircuit: Multiaddr -> bool
    /** The relay addresses captured by the `listening` handler. */
    const relays: seq<Multiaddr>
    /** The relay dialer's registry of relay peers, keyed by base58 id. */
    var relayPeers: map<PeerId, PeerInfo>
    /** Every `dialRelay` call made so far, oldest first. */
    var dialLog: seq<DialRequest>

    /** Construction: collect the local circuit addresses, advertise the
        default relay address if there are none, and arm the handlers with
        the addresses collected before that insertion. */
    constructor (peerInfo: PeerInfo, isCircuit: Multiaddr -> bool)
      modifies peerInfo
      ensures this.peerInfo == peerInfo && this.isCircuit == isCircuit
      ensures relays == Filter(isCircuit, Many(old(peerInfo.multiaddrs)))
      ensures peerInfo.multiaddrs == EnsureDefaultRelay(isCircuit, peerInfo.id, old(peerInfo.multiaddrs))
      ensures peerInfo.multiaddrs != old(peerInfo.multiaddrs) ==> relays == []
      ensures relayPeers == map[] && dialLog == []
    {
      var found := Filter(isCircuit, Many(peerInfo.multiaddrs));
      this.peerInfo := peerInfo;
      this.isCircuit := isCircuit;
      relays := found;
      relayPeers := map[];
      dialLog := [];
      new;
      if |found| == 0 {
        peerInfo.AddMultiaddr(DefaultRelayAddr(peerInfo.id));
      }
    }

    /** The `listening` handler armed by `_dialSwarmRelays`: dials every hop
        segment of every captured relay, once each, relay by relay. */
    method OnListening()
      modifies this`dialLog
      ensures dialLog == old(dialLog) + SegmentDials(AllSegments(relays))
    {
      var i := 0;
      while i < |relays|
        invariant 0 <= i <= |relays|
        invariant dialLog == old(dialLog) + SegmentDials(AllSegments(relays[..i]))
      {
        var segs := Segments(relays[i]);
        DialSegments(segs);
        NextRelay(relays, i);
        FlatMapAppend(DialOf, AllSegments(relays[..i]), segs);
        i := i + 1;
      }
      assert relays[..i] == relays;
    }

    /** The inner loop of the `listening` handler: one `dialRelay` per
        segment, in order. */
    method DialSegments(segs: seq<Multiaddr>)
      modifies this`dialLog
      ensures dialLog == old(dialLog) + SegmentDials(segs)
    {
      var j := 0;
      while j < |segs|
        invariant 0 <= j <= |segs|
        invariant dialLog == old(dialLog) + SegmentDials(segs[..j])
      {
        DialOneMore(segs, j);
        dialLog := dialLog + [SegmentDial(segs[j])];
        j := j + 1;
      }
      assert segs[..j] == segs;
    }

    /** The `peer-mux-established` handler: hands the peer to `dialRelay`. */
    method OnPeerMuxEstablished(info: PeerInfo)
      modifies this`dialLog
      ensures dialLog == old(dialLog) + [PeerDial(info.id)]
    {
      dialLog := dialLog + [PeerDial(info.id)];
    }

    /** The `peer-mux-closed` handler: drops the peer from the registry. */
    method OnPeerMuxClosed(info: PeerInfo)
      modifies this`relayPeers
      ensures relayPeers == Evict(old(relayPeers), info.id)
    {
      relayPeers := relayPeers - {info.id};
    }

    /** The relay dialer records a peer that accepted to act as a relay. */
    method RegisterRelay(info: PeerInfo)
      modifies this`relayPeers
      ensures relayPeers == Register(old(relayPeers), info)
    {
      relayPeers := relayPeers[info.id := info];
    }

    /** The `priority` getter. */
    method Priority() returns (p: int)
      ensures p == PRIORITY
    {
      p := PRIORITY;
    }

    /** The `priority` setter: always raises, whatever the value. */
    method SetPriority(val: int) returns (r: Outcome)
      ensures r == Fail(PriorityReadOnly)
    {
      r := Fail(PriorityReadOnly);
    }
  }
}
