/** tunnel/tools/wireguard-tools/src/ipc-linux.h, reading a device: parse_peers and parse_allowedips hang
    one node after the other into the lists, and coalesce_peers splices them together. */
module ReadDevice {
  import opened Netlink
  import opened WgWire
  import opened SetDevice
  import opened Coalesce
  import opened DumpRoundTrip

  function Last<T>(s: seq<T>): T
    requires s != []
  {
    s[|s| - 1]
  }

  // ---- Cuts ----

  /** The last entry has one IP more. */
  function Longer(cuts: seq<nat>): (r: seq<nat>)
    requires cuts != []
    ensures |r| == |cuts|
  {
    cuts[|cuts| - 1 := Last(cuts) + 1]
  }

  lemma LongerBounds(cuts: seq<nat>, n: nat, total: nat)
    requires Bounds(cuts, n, total) && n > 0
    ensures Bounds(Longer(cuts), n, total + 1)
    ensures forall x :: x <= total ==> (x in Longer(cuts) <==> x in cuts[..n])
    ensures forall x :: x in cuts[..n] ==> x <= cuts[n - 1]
  {
    var c := Longer(cuts);
    assert c == cuts[..n] + [total + 1];
  }

  // ---- One IP ----

  method HangIp(peer: PeerNode, node: IpNode, ghost nodes: seq<IpNode>, ghost lo: nat)
    requires lo <= |nodes| && Distinct(nodes) && node !in nodes
    requires Ends(peer.firstIp, peer.lastIp, nodes, lo, |nodes|, false)
    modifies peer`firstIp, peer`lastIp, nodes
    ensures Ends(peer.firstIp, peer.lastIp, nodes + [node], lo, |nodes| + 1, false)
    ensures forall k :: 0 <= k < |nodes| ==>
      nodes[k].next == if lo < |nodes| && k == |nodes| - 1 then node else old(nodes[k].next)
    ensures node.next == old(node.next)
  {
    if peer.firstIp == null {
      peer.firstIp, peer.lastIp := node, node;
    } else {
      peer.lastIp.next := node;
      peer.lastIp := node;
    }
  }

  lemma DistinctSnoc<T>(s: seq<T>, x: T)
    requires Distinct(s) && x !in s
    ensures Distinct(s + [x])
  {
  }

  /** parse_allowedips on the entry that was added last. */
  method AddIp(peer: PeerNode, ip: AllowedIp, ghost peers: seq<PeerNode>, ghost nodes: seq<IpNode>,
               ghost cuts: seq<nat>)
    returns (node: IpNode)
    requires Linked(peers, nodes, cuts, {}) && peers != [] && peer == Last(peers)
    modifies peer`firstIp, peer`lastIp, nodes
    ensures fresh(node) && node.ip == ip
    ensures Linked(peers, nodes + [node], Longer(cuts), {})
  {
    hide PeerChain, Distinct, Bounds, Longer, Ends;
    ghost var n := |peers| - 1;
    CutCount(cuts, |peers|, |nodes|);
    ghost var cuts' := Longer(cuts);
    LastCut(cuts, |peers|, |nodes|);
    LongerBounds(cuts, |peers|, |nodes|);
    CutAt(cuts, |peers|, |nodes|, n);
    DistinctFrom(peers, n);
    node := new IpNode(ip);
    assert IpEnds(peers, nodes, cuts, {}, n);
    HangIp(peer, node, nodes, cuts[n]);
    DistinctSnoc(nodes, node);
    LongerCuts(cuts);
    forall k | 0 <= k < |nodes| + 1 ensures NextIp(nodes + [node], cuts', k) {
      if k < |nodes| {
        assert old(NextIp(nodes, cuts, k));
        assert k + 1 <= |nodes|;
        assert k + 1 in cuts' <==> k + 1 in cuts[..|peers|];
      }
    }
    forall j | 0 <= j < |peers| ensures IpEnds(peers, nodes + [node], cuts', {}, j) {
      CutAt(cuts, |peers|, |nodes|, j);
      assert old(IpEnds(peers, nodes, cuts, {}, j));
      if j < n {
        EndsWider(peers[j].firstIp, peers[j].lastIp, nodes, node, cuts[j], cuts[j + 1]);
      }
    }
  }

  lemma LastCut(cuts: seq<nat>, n: nat, total: nat)
    requires Bounds(cuts, n, total)
    ensures |cuts| == n + 1 && cuts[n] == total && cuts == cuts[..n] + [total]
  {
  }

  lemma LongerCuts(cuts: seq<nat>)
    requires cuts != []
    ensures Longer(cuts)[|cuts| - 1] == cuts[|cuts| - 1] + 1
    ensures forall k :: 0 <= k < |cuts| - 1 ==> Longer(cuts)[k] == cuts[k]
  {
  }

  lemma EndsWider(first: IpNode?, last: IpNode?, nodes: seq<IpNode>, node: IpNode, lo: nat, hi: nat)
    requires lo <= hi <= |nodes| && Ends(first, last, nodes, lo, hi, false)
    ensures Ends(first, last, nodes + [node], lo, hi, false)
  {
  }

  lemma EntriesLonger(peers: seq<PeerNode>, nodes: seq<IpNode>, cuts: seq<nat>, node: IpNode)
    requires Bounds(cuts, |peers|, |nodes|) && peers != [] && Bounds(Longer(cuts), |peers|, |nodes| + 1)
    ensures var es := Entries(peers, nodes, cuts);
      var e := Last(es);
      Entries(peers, nodes + [node], Longer(cuts)) == es[..|es| - 1] + [e.(ips := e.ips + [node.ip])]
  {
    hide Bounds;
    var es, n := Entries(peers, nodes, cuts), |peers| - 1;
    CutCount(cuts, |peers|, |nodes|);
    var es' := Entries(peers, nodes + [node], Longer(cuts));
    LongerCuts(cuts);
    LastCut(cuts, |peers|, |nodes|);
    CutAt(cuts, |peers|, |nodes|, n);
    assert (nodes + [node])[cuts[n]..|nodes| + 1] == nodes[cuts[n]..] + [node];
    assert Values(nodes[cuts[n]..] + [node]) == Values(nodes[cuts[n]..]) + [node.ip];
    assert nodes[cuts[n]..|nodes|] == nodes[cuts[n]..];
    forall k | 0 <= k < n ensures es'[k] == es[k] {
      CutAt(cuts, |peers|, |nodes|, k);
      assert (nodes + [node])[cuts[k]..cuts[k + 1]] == nodes[cuts[k]..cuts[k + 1]];
    }
  }

  // ---- One peer ----

  lemma PeerSnoc(peers: seq<PeerNode>, nodes: seq<IpNode>, cuts: seq<nat>, p: PeerNode)
    requires Bounds(cuts, |peers|, |nodes|)
    ensures Bounds(cuts + [|nodes|], |peers| + 1, |nodes|)
    ensures Entries(peers + [p], nodes, cuts + [|nodes|]) == Entries(peers, nodes, cuts) + [Entry(p.key, p.scalars, [])]
  {
    var es, es' := Entries(peers, nodes, cuts), Entries(peers + [p], nodes, cuts + [|nodes|]);
    forall k | 0 <= k < |peers| ensures es'[k] == es[k] {
      CutAt(cuts, |peers|, |nodes|, k);
    }
    assert nodes[|nodes|..|nodes|] == [];
  }

  /** parse_peers: a new node behind the last. */
  method AddPeer(last: PeerNode?, key: Key, scalars: Scalars, ghost peers: seq<PeerNode>, ghost nodes: seq<IpNode>,
                 ghost cuts: seq<nat>) returns (p: PeerNode)
    requires Linked(peers, nodes, cuts, {}) && last == if peers == [] then null else Last(peers)
    modifies peers`next
    ensures fresh(p) && p.key == key && p.scalars == scalars
    ensures Linked(peers + [p], nodes, cuts + [|nodes|], {})
  {
    hide Distinct, Bounds, Ends, Entries;
    p := new PeerNode(key, scalars);
    CutCount(cuts, |peers|, |nodes|);
    LastCut(cuts, |peers|, |nodes|);
    PeerSnoc(peers, nodes, cuts, p);
    DistinctSnoc(peers, p);
    if last != null {
      DistinctFrom(peers, |peers| - 1);
      last.next := p;
    }
    ghost var peers', cuts' := peers + [p], cuts + [|nodes|];
    forall j | 0 <= j < |peers'| ensures NextPeer(peers', j) {
      if j < |peers| {
        assert old(NextPeer(peers, j));
      }
    }
    forall j | 0 <= j < |peers'| ensures IpEnds(peers', nodes, cuts', {}, j) {
      if j < |peers| {
        CutAt(cuts, |peers|, |nodes|, j);
        assert old(IpEnds(peers, nodes, cuts, {}, j));
      } else {
        NoIps(nodes);
      }
    }
    forall k | 0 <= k < |nodes| ensures NextIp(nodes, cuts', k) {
      assert old(NextIp(nodes, cuts, k));
    }
  }

  lemma NoIps(nodes: seq<IpNode>)
    ensures Ends(null, null, nodes, |nodes|, |nodes|, false)
  {
  }

  /** A peer and its IPs. */
  method AddEntry(last: PeerNode?, e: Entry, ghost peers: seq<PeerNode>, ghost nodes0: seq<IpNode>,
                  ghost cuts0: seq<nat>)
    returns (p: PeerNode, ghost nodes: seq<IpNode>, ghost cuts: seq<nat>)
    requires Linked(peers, nodes0, cuts0, {}) && last == if peers == [] then null else Last(peers)
    modifies peers, nodes0
    ensures fresh(p) && forall j :: 0 <= j < |nodes| ==> nodes[j] in nodes0 || fresh(nodes[j])
    ensures Linked(peers + [p], nodes, cuts, {})
    ensures Entries(peers + [p], nodes, cuts) == Entries(peers, nodes0, cuts0) + [e]
  {
    hide PeerChain, AllEnds, IpChain, Distinct, Bounds, Entries, Longer;
    ghost var es := Entries(peers, nodes0, cuts0);
    p := AddPeer(last, e.key, e.scalars, peers, nodes0, cuts0);
    nodes, cuts := nodes0, cuts0 + [|nodes0|];
    PeerSnoc(peers, nodes0, cuts0, p);
    ghost var all := peers + [p];
    assert Last(all) == p;
    var i := 0;
    while i < |e.ips|
      invariant 0 <= i <= |e.ips| && Linked(all, nodes, cuts, {})
      invariant forall j :: 0 <= j < |nodes| ==> nodes[j] in nodes0 || fresh(nodes[j])
      invariant Entries(all, nodes, cuts) == es + [Entry(e.key, e.scalars, e.ips[..i])]
    {
      CutCount(cuts, |all|, |nodes|);
      LongerBounds(cuts, |all|, |nodes|);
      var node := AddIp(p, e.ips[i], all, nodes, cuts);
      EntriesLonger(all, nodes, cuts, node);
      assert e.ips[..i + 1] == e.ips[..i] + [e.ips[i]];
      nodes, cuts := nodes + [node], Longer(cuts);
      i := i + 1;
    }
    assert e.ips[..i] == e.ips;
  }

  // ---- All messages ----

  lemma EntriesNext(rs: seq<Record>, i: nat)
    requires i < |rs|
    ensures EntriesOf(rs[..i + 1]) == EntriesOf(rs[..i]) + [EntryOf(rs[i])]
  {
    hide EntryOf;
  }

  lemma ParsedNext(bodies: seq<Bytes>, i: nat)
    requires i < |bodies|
    ensures Parsed(bodies[..i + 1]) == Parsed(bodies[..i]) + EntriesOf(DecodeMessage(false, bodies[i]).peers)
  {
    hide DecodeMessage;
    assert bodies[..i + 1][..i] == bodies[..i];
  }

  /** parse_device over the messages in order. */
  method ReadDump(bodies: seq<Bytes>)
    returns (first: PeerNode?, ghost peers: seq<PeerNode>, ghost nodes: seq<IpNode>, ghost cuts: seq<nat>)
    ensures forall j :: 0 <= j < |peers| ==> fresh(peers[j])
    ensures forall j :: 0 <= j < |nodes| ==> fresh(nodes[j])
    ensures Linked(peers, nodes, cuts, {}) && first == if peers == [] then null else peers[0]
    ensures Entries(peers, nodes, cuts) == Parsed(bodies)
  {
    hide PeerChain, AllEnds, IpChain, Distinct, Bounds, Entries, Parsed, DecodeMessage, EntriesOf;
    var last: PeerNode? := null;
    first, peers, nodes, cuts := null, [], [], [0];
    EmptyList();
    var i := 0;
    while i < |bodies|
      invariant 0 <= i <= |bodies|
      invariant forall j :: 0 <= j < |peers| ==> fresh(peers[j])
      invariant forall j :: 0 <= j < |nodes| ==> fresh(nodes[j])
      invariant Linked(peers, nodes, cuts, {}) && first == if peers == [] then null else peers[0]
      invariant last == if peers == [] then null else Last(peers)
      invariant Entries(peers, nodes, cuts) == Parsed(bodies[..i])
    {
      var rs, k := DecodeMessage(false, bodies[i]).peers, 0;
      NoEntries(rs);
      while k < |rs|
        invariant 0 <= k <= |rs|
        invariant forall j :: 0 <= j < |peers| ==> fresh(peers[j])
        invariant forall j :: 0 <= j < |nodes| ==> fresh(nodes[j])
        invariant Linked(peers, nodes, cuts, {}) && first == if peers == [] then null else peers[0]
        invariant last == if peers == [] then null else Last(peers)
        invariant Entries(peers, nodes, cuts) == Parsed(bodies[..i]) + EntriesOf(rs[..k])
      {
        var p;
        p, nodes, cuts := AddEntry(last, EntryOf(rs[k]), peers, nodes, cuts);
        EntriesNext(rs, k);
        peers := peers + [p];
        last := p;
        if first == null {
          first := p;
        }
        k := k + 1;
      }
      assert rs[..k] == rs;
      ParsedNext(bodies, i);
      i := i + 1;
    }
    assert bodies[..i] == bodies;
  }

  lemma EmptyList()
    ensures Linked([], [], [0], {}) && Entries([], [], [0]) == [] == Parsed([])
  {
  }

  lemma NoEntries(rs: seq<Record>)
    ensures EntriesOf(rs[..0]) == []
  {
  }

  // ---- Walking the lists ----

  /** Inside an entry's IPs there is no cut. */
  lemma NoCutInside(cuts: seq<nat>, n: nat, total: nat, i: nat, x: nat)
    requires Bounds(cuts, n, total) && i < n && cuts[i] < x < cuts[i + 1]
    ensures x !in cuts
  {
    forall j | 0 <= j <= n ensures cuts[j] != x {
      assert j <= i ==> cuts[j] <= cuts[i];
    }
  }

  /** for_each_wgallowedip. */
  method WalkIps(first: IpNode?, ghost nodes: seq<IpNode>, ghost cuts: seq<nat>, ghost n: nat, ghost i: nat)
    returns (ips: seq<AllowedIp>)
    requires Bounds(cuts, n, |nodes|) && i < n && IpChain(nodes, cuts)
    requires first == if cuts[i] < cuts[i + 1] then nodes[cuts[i]] else null
    ensures ips == Values(nodes[cuts[i]..cuts[i + 1]])
  {
    hide IpChain, Bounds;
    CutAt(cuts, n, |nodes|, i);
    ghost var lo, hi := cuts[i], cuts[i + 1];
    ghost var k := lo;
    ips := [];
    var ip := first;
    while ip != null
      invariant lo <= k <= hi && ip == if k < hi then nodes[k] else null
      invariant |ips| == k - lo && forall j :: 0 <= j < |ips| ==> ips[j] == nodes[lo + j].ip
      decreases hi - k
    {
      NextInside(nodes, cuts, n, i, k);
      ips := ips + [ip.ip];
      ip := ip.next;
      k := k + 1;
    }
  }

  lemma NextInside(nodes: seq<IpNode>, cuts: seq<nat>, n: nat, i: nat, k: nat)
    requires Bounds(cuts, n, |nodes|) && i < n && IpChain(nodes, cuts) && cuts[i] <= k < cuts[i + 1] <= |nodes|
    ensures nodes[k].next == if k + 1 < cuts[i + 1] then nodes[k + 1] else null
  {
    assert NextIp(nodes, cuts, k);
    if k + 1 < cuts[i + 1] {
      NoCutInside(cuts, n, |nodes|, i, k + 1);
    } else {
      assert cuts[i + 1] in cuts;
    }
  }

  lemma FirstAt(peers: seq<PeerNode>, nodes: seq<IpNode>, cuts: seq<nat>, i: nat)
    requires Bounds(cuts, |peers|, |nodes|) && i < |peers| && AllEnds(peers, nodes, cuts, {})
    ensures cuts[i] <= cuts[i + 1] <= |nodes|
    ensures peers[i].firstIp == if cuts[i] < cuts[i + 1] then nodes[cuts[i]] else null
  {
    assert IpEnds(peers, nodes, cuts, {}, i);
  }

  /** for_each_wgpeer. */
  method Walk(first: PeerNode?, ghost peers: seq<PeerNode>, ghost nodes: seq<IpNode>, ghost cuts: seq<nat>)
    returns (es: seq<Entry>)
    requires Linked(peers, nodes, cuts, {}) && first == if peers == [] then null else peers[0]
    ensures es == Entries(peers, nodes, cuts)
  {
    hide PeerChain, AllEnds, IpChain, Distinct, Bounds;
    CutCount(cuts, |peers|, |nodes|);
    ghost var i := 0;
    es := [];
    var peer := first;
    while peer != null
      invariant 0 <= i <= |peers| && peer == if i < |peers| then peers[i] else null
      invariant |es| == i && forall j :: 0 <= j < i ==> es[j] == Entries(peers, nodes, cuts)[j]
      decreases |peers| - i
    {
      CutAt(cuts, |peers|, |nodes|, i);
      FirstAt(peers, nodes, cuts, i);
      ChainAt(peers, i);
      var ips := WalkIps(peer.firstIp, nodes, cuts, |peers|, i);
      es := es + [Entry(peer.key, peer.scalars, ips)];
      peer := peer.next;
      i := i + 1;
    }
  }

  /** kernel_get_device behind the socket: read every message, then coalesce. Whatever device was written
      into messages by kernel_set_device comes back whole, as a list of its peers in order, each with
      its IPs in order and its pointers right; walking the list finds exactly that. */
  method WriteAndRead(dev: Device, size: nat)
    returns (first: PeerNode?, es: seq<Entry>, ghost peers: seq<PeerNode>, ghost nodes: seq<IpNode>,
             ghost cuts: seq<nat>)
    requires dev.Valid() && MIN_BUFFER <= size <= 8192 && NeighboursDiffer(dev.peers)
    ensures Linked(peers, nodes, cuts, {}) && first == if peers == [] then null else peers[0]
    ensures Entries(peers, nodes, cuts) == PeerEntries(dev.peers)
    ensures es == PeerEntries(dev.peers)
  {
    hide Linked, Entries, Parsed, Follows, Coalesced, Continued, PeerEntries, Sent, Run;
    var bodies;
    ghost var frags;
    bodies, frags := KernelSetDevice(dev, size);
    CoalesceUndoesFragments(dev, size, bodies, frags);
    first, peers, nodes, cuts := ReadDump(bodies);
    var ok;
    ghost var lost;
    ok, peers, cuts, lost := CoalescePeers(first, peers, nodes, cuts);
    es := Walk(first, peers, nodes, cuts);
  }
}
