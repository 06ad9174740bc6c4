/** tunnel/tools/wireguard-tools/src/ipc-linux.h, coalesce_peers: adjacent list entries with the
    same public key are pieces of one peer and are spliced together in place. */
module Coalesce {
  import opened WgWire

  /** One entry of the list as a value. */
  datatype Entry = Entry(key: Key, scalars: Scalars, ips: seq<AllowedIp>)

  function Join(x: Entry, y: Entry): Entry { x.(ips := x.ips + y.ips) }

  /** What the loop computes: the first of each run of equal keys, with everybody's IPs. */
  function Coalesced(es: seq<Entry>): (r: seq<Entry>)
    decreases |es|
  {
    if |es| < 2 then es
    else if es[0].key == es[1].key then Coalesced([Join(es[0], es[1])] + es[2..])
    else [es[0]] + Coalesced(es[1..])
  }

  /** The loop follows last_allowedip of an entry that has IPs. That pointer is gone once an
      entry without IPs was spliced on, so a further entry of the same run is one too many.
      `lost` says whether that has happened to es[0]. */
  predicate Follows(lost: bool, es: seq<Entry>)
    decreases |es|
  {
    if |es| < 2 then true
    else if es[0].key != es[1].key then Follows(false, es[1..])
    else !lost && Follows(es[0].ips != [] && es[1].ips == [], [Join(es[0], es[1])] + es[2..])
  }

  class IpNode {
    const ip: AllowedIp
    var next: IpNode?

    constructor (ip: AllowedIp)
      ensures this.ip == ip && next == null
    {
      this.ip := ip;
      next := null;
    }
  }

  class PeerNode {
    const key: Key
    const scalars: Scalars
    var firstIp: IpNode?
    var lastIp: IpNode?
    var next: PeerNode?

    constructor (key: Key, scalars: Scalars)
      ensures this.key == key && this.scalars == scalars && firstIp == null && lastIp == null && next == null
    {
      this.key := key;
      this.scalars := scalars;
      firstIp := null;
      lastIp := null;
      next := null;
    }
  }

  function Values(nodes: seq<IpNode>): (r: seq<AllowedIp>)
    ensures |r| == |nodes|
  {
    seq(|nodes|, i requires 0 <= i < |nodes| => nodes[i].ip)
  }

  /** Where each peer's IPs begin and end in the sequence of all of them. */
  ghost predicate Bounds(cuts: seq<nat>, n: nat, total: nat) {
    && |cuts| == n + 1 && cuts[0] == 0 && cuts[n] == total
    && forall i, j :: 0 <= i <= j <= n ==> cuts[i] <= cuts[j]
  }

  predicate Distinct<T(==)>(s: seq<T>) { forall i, j :: 0 <= i < j < |s| ==> s[i] != s[j] }

  ghost predicate NextPeer(peers: seq<PeerNode>, i: nat)
    requires i < |peers|
    reads peers`next
  {
    peers[i].next == if i + 1 < |peers| then peers[i + 1] else null
  }

  /** first_allowedip and last_allowedip of an entry whose IPs are nodes[lo..hi]; once last_allowedip
      is `gone` it is null all the same. */
  ghost predicate Ends(first: IpNode?, last: IpNode?, nodes: seq<IpNode>, lo: nat, hi: nat, gone: bool)
    requires lo <= hi <= |nodes|
  {
    && first == (if lo < hi then nodes[lo] else null)
    && last == if lo < hi && !gone then nodes[hi - 1] else null
  }

  ghost predicate IpEnds(peers: seq<PeerNode>, nodes: seq<IpNode>, cuts: seq<nat>, lost: set<PeerNode>, i: nat)
    requires i < |peers| && i + 1 < |cuts|
    reads peers`firstIp, peers`lastIp
  {
    cuts[i] <= cuts[i + 1] <= |nodes| &&
    Ends(peers[i].firstIp, peers[i].lastIp, nodes, cuts[i], cuts[i + 1], peers[i] in lost)
  }

  ghost predicate NextIp(nodes: seq<IpNode>, cuts: seq<nat>, k: nat)
    requires k < |nodes|
    reads nodes[k]
  {
    nodes[k].next == if k + 1 in cuts || k + 1 == |nodes| then null else nodes[k + 1]
  }

  ghost predicate PeerChain(peers: seq<PeerNode>)
    reads peers`next
  {
    forall i :: 0 <= i < |peers| ==> NextPeer(peers, i)
  }

  ghost predicate AllEnds(peers: seq<PeerNode>, nodes: seq<IpNode>, cuts: seq<nat>, lost: set<PeerNode>)
    requires Bounds(cuts, |peers|, |nodes|)
    reads peers`firstIp, peers`lastIp
  {
    forall i :: 0 <= i < |peers| ==> IpEnds(peers, nodes, cuts, lost, i)
  }

  ghost predicate IpChain(nodes: seq<IpNode>, cuts: seq<nat>)
    reads nodes
  {
    forall k :: 0 <= k < |nodes| ==> NextIp(nodes, cuts, k)
  }

  /** The peers in list order, all their IPs in list order, and the pointers between them. */
  ghost predicate Linked(peers: seq<PeerNode>, nodes: seq<IpNode>, cuts: seq<nat>, lost: set<PeerNode>)
    reads peers, nodes
  {
    && Distinct(peers) && Distinct(nodes) && Bounds(cuts, |peers|, |nodes|)
    && PeerChain(peers) && AllEnds(peers, nodes, cuts, lost) && IpChain(nodes, cuts)
  }

  function EntryAt(peers: seq<PeerNode>, nodes: seq<IpNode>, cuts: seq<nat>, i: nat): Entry
    requires i < |peers| && i + 1 < |cuts| && cuts[i] <= cuts[i + 1] <= |nodes|
  {
    Entry(peers[i].key, peers[i].scalars, Values(nodes[cuts[i]..cuts[i + 1]]))
  }

  ghost function Entries(peers: seq<PeerNode>, nodes: seq<IpNode>, cuts: seq<nat>): (r: seq<Entry>)
    requires Bounds(cuts, |peers|, |nodes|)
    ensures |r| == |peers|
  {
    seq(|peers|, i requires 0 <= i < |peers| => EntryAt(peers, nodes, cuts, i))
  }

  function Without<T>(s: seq<T>, i: nat): (r: seq<T>)
    requires i < |s|
    ensures |r| == |s| - 1
    ensures forall k :: 0 <= k < |r| ==> r[k] == if k < i then s[k] else s[k + 1]
  {
    s[..i] + s[i + 1..]
  }

  /** Joining entries i and i + 1 drops the peer after i and the cut between them. */
  lemma JoinEntries(peers: seq<PeerNode>, nodes: seq<IpNode>, cuts: seq<nat>, i: nat)
    requires Bounds(cuts, |peers|, |nodes|) && i + 1 < |peers|
    ensures Bounds(Without(cuts, i + 1), |peers| - 1, |nodes|)
    ensures var es := Entries(peers, nodes, cuts);
      Entries(Without(peers, i + 1), nodes, Without(cuts, i + 1))
      == es[..i] + [Join(es[i], es[i + 1])] + es[i + 2..]
  {
    var es := Entries(peers, nodes, cuts);
    var cuts' := Without(cuts, i + 1);
    var es' := Entries(Without(peers, i + 1), nodes, cuts');
    assert Values(nodes[cuts[i]..cuts[i + 1]]) + Values(nodes[cuts[i + 1]..cuts[i + 2]])
        == Values(nodes[cuts[i]..cuts[i + 2]]);
    forall k | 0 <= k < |es'|
      ensures es'[k] == (es[..i] + [Join(es[i], es[i + 1])] + es[i + 2..])[k]
    {
    }
  }

  lemma WithoutDistinct<T>(s: seq<T>, i: nat)
    requires i < |s| && Distinct(s)
    ensures Distinct(Without(s, i))
  {
  }

  lemma WithoutBounds(cuts: seq<nat>, n: nat, total: nat, i: nat)
    requires Bounds(cuts, n, total) && i + 1 < n
    ensures Bounds(Without(cuts, i + 1), n - 1, total)
  {
  }

  /** Hang the IPs of `next` behind those of `peer`. */
  method SpliceIps(peer: PeerNode, next: PeerNode, ghost nodes: seq<IpNode>, ghost cuts: seq<nat>, ghost i: nat)
    requires i + 2 < |cuts| && cuts[i] <= cuts[i + 1] <= cuts[i + 2] <= |nodes|
    requires forall x :: x in cuts ==> x <= |nodes|
    requires peer != next && Distinct(nodes) && IpChain(nodes, cuts)
    requires Ends(peer.firstIp, peer.lastIp, nodes, cuts[i], cuts[i + 1], false)
    requires Ends(next.firstIp, next.lastIp, nodes, cuts[i + 1], cuts[i + 2], false)
    requires forall x :: x in Without(cuts, i + 1) <==>
      x in cuts && (x == cuts[i + 1] ==> cuts[i] == x || cuts[i + 2] == x)
    modifies peer`firstIp, peer`lastIp, nodes
    ensures IpChain(nodes, Without(cuts, i + 1))
    ensures Ends(peer.firstIp, peer.lastIp, nodes, cuts[i], cuts[i + 2], cuts[i] < cuts[i + 1] == cuts[i + 2])
  {
    if peer.firstIp == null {
      peer.firstIp := next.firstIp;
      peer.lastIp := next.lastIp;
    } else {
      peer.lastIp.next := next.firstIp;
      peer.lastIp := next.lastIp;
    }
    ghost var cuts' := Without(cuts, i + 1);
    forall k | 0 <= k < |nodes|
      ensures NextIp(nodes, cuts', k)
    {
      assert old(NextIp(nodes, cuts, k));
      assert k + 1 in cuts' <==> k + 1 in cuts && (k + 1 == cuts[i + 1] ==> cuts[i] == k + 1 || cuts[i + 2] == k + 1);
    }
  }

  /** Take the entry after peers[i] out of the list. */
  method Unlink(peer: PeerNode, ghost peers: seq<PeerNode>, ghost i: nat)
    requires i + 1 < |peers| && peer == peers[i] && Distinct(peers) && PeerChain(peers)
    modifies peer`next
    ensures PeerChain(Without(peers, i + 1))
  {
    assert NextPeer(peers, i) && NextPeer(peers, i + 1);
    peer.next := peer.next.next;
    ghost var peers' := Without(peers, i + 1);
    forall j | 0 <= j < |peers'|
      ensures NextPeer(peers', j)
    {
      ghost var k := if j <= i then j else j + 1;
      assert old(NextPeer(peers, k));
      assert peers'[j] == peers[k];
    }
  }

  /** The same within the whole list: the other entries keep their IPs. */
  method SpliceEnds(peer: PeerNode, next: PeerNode, ghost peers: seq<PeerNode>, ghost nodes: seq<IpNode>,
                    ghost cuts: seq<nat>, ghost lost: set<PeerNode>, ghost i: nat)
    returns (ghost lost': set<PeerNode>)
    requires i + 1 < |peers| && peer == peers[i] && next == peers[i + 1] && peer !in lost && next !in lost
    requires Distinct(peers) && Distinct(nodes) && Bounds(cuts, |peers|, |nodes|)
    requires AllEnds(peers, nodes, cuts, lost) && IpChain(nodes, cuts)
    modifies peer`firstIp, peer`lastIp, nodes
    ensures Bounds(Without(cuts, i + 1), |Without(peers, i + 1)|, |nodes|)
    ensures IpChain(nodes, Without(cuts, i + 1))
    ensures AllEnds(Without(peers, i + 1), nodes, Without(cuts, i + 1), lost')
    ensures lost' == if cuts[i] < cuts[i + 1] == cuts[i + 2] then lost + {peer} else lost
  {
    hide IpChain, Distinct, Ends, Bounds;
    CutCount(cuts, |peers|, |nodes|);
    CutAt(cuts, |peers|, |nodes|, i);
    CutAt(cuts, |peers|, |nodes|, i + 1);
    lost' := if cuts[i] < cuts[i + 1] == cuts[i + 2] then lost + {peer} else lost;
    assert forall k :: 0 <= k < |peers| && k != i ==> peers[k] != peer by {
      DistinctFrom(peers, i);
    }
    CutKept(cuts, i, |nodes|, |peers|);
    WithoutBounds(cuts, |peers|, |nodes|, i);
    ghost var peers', cuts' := Without(peers, i + 1), Without(cuts, i + 1);
    CutCount(cuts', |peers'|, |nodes|);
    assert IpEnds(peers, nodes, cuts, lost, i) && IpEnds(peers, nodes, cuts, lost, i + 1);
    SpliceIps(peer, next, nodes, cuts, i);
    forall j | 0 <= j < |peers'|
      ensures IpEnds(peers', nodes, cuts', lost', j)
    {
      CutAt(cuts', |peers'|, |nodes|, j);
      ghost var k := if j <= i then j else j + 1;
      assert peers'[j] == peers[k] && cuts'[j] == cuts[k];
      if j != i {
        CutAt(cuts, |peers|, |nodes|, k);
        assert cuts'[j + 1] == cuts[k + 1];
        assert peers[k] != peer;
        assert old(IpEnds(peers, nodes, cuts, lost, k));
      }
    }
  }

  lemma DistinctFrom<T>(s: seq<T>, i: nat)
    requires i < |s| && Distinct(s)
    ensures forall k :: 0 <= k < |s| && k != i ==> s[k] != s[i]
  {
  }

  /** Splice the entry after peers[i] onto it. */
  method Splice(peer: PeerNode, ghost peers: seq<PeerNode>, ghost nodes: seq<IpNode>, ghost cuts: seq<nat>,
                ghost lost: set<PeerNode>, ghost i: nat) returns (ghost lost': set<PeerNode>)
    requires Linked(peers, nodes, cuts, lost) && i + 1 < |peers| && peer == peers[i]
    requires peer !in lost && peers[i + 1] !in lost
    modifies peer, nodes
    ensures Linked(Without(peers, i + 1), nodes, Without(cuts, i + 1), lost')
    ensures lost' == if cuts[i] < cuts[i + 1] == cuts[i + 2] then lost + {peer} else lost
  {
    ghost var peers', cuts' := Without(peers, i + 1), Without(cuts, i + 1);
    hide IpChain, PeerChain, Distinct, AllEnds, Without;
    WithoutDistinct(peers, i + 1);
    ChainAt(peers, i);
    lost' := SpliceEnds(peer, peer.next, peers, nodes, cuts, lost, i);
    assert PeerChain(peers);
    Unlink(peer, peers, i);
    assert AllEnds(peers', nodes, cuts', lost');
  }

  lemma ChainAt(peers: seq<PeerNode>, i: nat)
    requires PeerChain(peers) && i < |peers|
    ensures NextPeer(peers, i)
  {
  }

  /** Which positions are still cuts once the one after entry i is dropped. */
  lemma CutKept(cuts: seq<nat>, i: nat, total: nat, n: nat)
    requires Bounds(cuts, n, total) && i + 1 < n
    ensures forall x :: x in Without(cuts, i + 1) <==>
      x in cuts && (x == cuts[i + 1] ==> cuts[i] == x || cuts[i + 2] == x)
  {
    var c := Without(cuts, i + 1);
    forall x | x in cuts && (x == cuts[i + 1] ==> cuts[i] == x || cuts[i + 2] == x)
      ensures x in c
    {
      var k :| 0 <= k < |cuts| && cuts[k] == x;
      var l := if k != i + 1 then k else if cuts[i] == x then i else i + 2;
      assert cuts[l] == x && l != i + 1;
      assert c[if l <= i then l else l - 1] == x;
    }
    forall x | x in c
      ensures x in cuts && (x == cuts[i + 1] ==> cuts[i] == x || cuts[i + 2] == x)
    {
      var k :| 0 <= k < |c| && c[k] == x;
      assert x == cuts[if k <= i then k else k + 1];
    }
  }

  /** Every entry that continues a run brings IPs. */
  predicate Continued(es: seq<Entry>) {
    forall i :: 0 < i < |es| && es[i - 1].key == es[i].key ==> es[i].ips != []
  }

  lemma JoinStep(es: seq<Entry>, i: nat)
    requires i + 1 < |es| && es[i].key == es[i + 1].key
    ensures var es' := es[..i] + [Join(es[i], es[i + 1])] + es[i + 2..];
      && es'[..i] == es[..i] && Coalesced(es'[i..]) == Coalesced(es[i..])
      && (forall lost ::
          Follows(lost, es[i..]) == (!lost && Follows(es[i].ips != [] && es[i + 1].ips == [], es'[i..])))
      && (Continued(es) ==> Continued(es') && es[i + 1].ips != [])
  {
    var es' := es[..i] + [Join(es[i], es[i + 1])] + es[i + 2..];
    assert es'[i..] == [Join(es[i..][0], es[i..][1])] + es[i..][2..];
  }

  lemma AdvanceStep(es: seq<Entry>, i: nat)
    requires i + 1 < |es| && es[i].key != es[i + 1].key
    ensures es[..i + 1] + Coalesced(es[i + 1..]) == es[..i] + Coalesced(es[i..])
    ensures forall lost :: Follows(lost, es[i..]) == Follows(false, es[i + 1..])
  {
    assert es[i..][1..] == es[i + 1..];
  }

  /** coalesce_peers. `ok` is false where the C code follows a null last_allowedip. */
  method CoalescePeers(first: PeerNode?, ghost peers0: seq<PeerNode>, ghost nodes: seq<IpNode>, ghost cuts0: seq<nat>)
    returns (ok: bool, ghost peers: seq<PeerNode>, ghost cuts: seq<nat>, ghost lost: set<PeerNode>)
    requires Linked(peers0, nodes, cuts0, {})
    requires first == if peers0 == [] then null else peers0[0]
    modifies peers0, nodes
    ensures ok == Follows(false, Entries(peers0, nodes, cuts0))
    ensures ok ==> Linked(peers, nodes, cuts, lost)
    ensures ok ==> first == if peers == [] then null else peers[0]
    ensures ok ==> Entries(peers, nodes, cuts) == Coalesced(Entries(peers0, nodes, cuts0))
    ensures Continued(Entries(peers0, nodes, cuts0)) ==> lost == {}
  {
    hide IpChain, PeerChain, AllEnds, Distinct, Bounds, Follows, Coalesced, Continued;
    CutCount(cuts0, |peers0|, |nodes|);
    peers, cuts, lost := peers0, cuts0, {};
    ghost var i := 0;
    ghost var es0 := Entries(peers0, nodes, cuts0);
    ghost var es := es0;
    var peer := first;
    while peer != null && peer.next != null
      invariant Linked(peers, nodes, cuts, lost) && es == Entries(peers, nodes, cuts)
      invariant forall p :: p in peers ==> p in peers0
      invariant if peers == [] then peer == null && i == 0 else i < |peers| && peer == peers[i]
      invariant first == if peers == [] then null else peers[0]
      invariant |cuts| == |peers| + 1
      invariant forall j :: i < j < |peers| ==> peers[j] !in lost
      invariant peers != [] && peers[i] in lost ==> cuts[i] < cuts[i + 1]
      invariant Coalesced(es0) == es[..i] + Coalesced(es[i..])
      invariant Follows(false, es0) == Follows(peers != [] && peers[i] in lost, es[i..])
      invariant Continued(es0) ==> Continued(es) && lost == {}
      decreases |peers| - i
    {
      ChainAt(peers, i);
      if peer.key != peer.next.key {
        AdvanceStep(es, i);
        i := i + 1;
        peer := peer.next;
      } else {
        EndsAt(peers, nodes, cuts, lost, i);
        DistinctFrom(peers, i);
        JoinStep(es, i);
        assert peer in peers;
        if peer.firstIp != null && peer.lastIp == null {
          return false, peers, cuts, lost;
        }
        JoinEntries(peers, nodes, cuts, i);
        lost := Splice(peer, peers, nodes, cuts, lost, i);
        peers, cuts := Without(peers, i + 1), Without(cuts, i + 1);
        es := Entries(peers, nodes, cuts);
      }
    }
    if peers != [] {
      ChainAt(peers, i);
    }
    LastEntry(es, i);
    ok := true;
  }

  lemma CutCount(cuts: seq<nat>, n: nat, total: nat)
    requires Bounds(cuts, n, total)
    ensures |cuts| == n + 1
    ensures forall x :: x in cuts ==> x <= total
  {
  }

  lemma CutAt(cuts: seq<nat>, n: nat, total: nat, k: nat)
    requires Bounds(cuts, n, total) && k < n
    ensures |cuts| == n + 1 && cuts[k] <= cuts[k + 1] <= total
  {
  }

  lemma LastEntry(es: seq<Entry>, i: nat)
    requires i + 1 == |es| || (es == [] && i == 0)
    ensures es[..i] + Coalesced(es[i..]) == es && forall lost :: Follows(lost, es[i..])
  {
  }

  lemma EndsAt(peers: seq<PeerNode>, nodes: seq<IpNode>, cuts: seq<nat>, lost: set<PeerNode>, i: nat)
    requires Bounds(cuts, |peers|, |nodes|) && i + 1 < |peers| && AllEnds(peers, nodes, cuts, lost)
    ensures cuts[i] <= cuts[i + 1] <= cuts[i + 2] <= |nodes|
    ensures Ends(peers[i].firstIp, peers[i].lastIp, nodes, cuts[i], cuts[i + 1], peers[i] in lost)
  {
    assert IpEnds(peers, nodes, cuts, lost, i);
  }

  // ---- When the loop stays clear of the null pointer ----

  ghost predicate OneRun(es: seq<Entry>, from: nat, to: nat) {
    to < |es| && forall k :: from <= k <= to ==> es[k].key == es[to].key
  }

  /** In one run: an entry with IPs, later one without, and then yet another entry. */
  ghost predicate Gap(es: seq<Entry>, a: nat, b: nat) {
    a < b && OneRun(es, a, b + 1) && es[a].ips != [] && es[b].ips == []
  }

  ghost predicate HasGap(es: seq<Entry>) { exists a: nat, b: nat :: Gap(es, a, b) }

  /** The loop succeeds exactly on the lists without a gap. */
  lemma {:induction false} SucceedsIffNoGap(lost: bool, es: seq<Entry>)
    ensures Follows(lost, es) <==> !HasGap(es) && !(lost && |es| >= 2 && es[0].key == es[1].key)
    decreases |es|
  {
    if |es| < 2 {
    } else if es[0].key != es[1].key {
      SucceedsIffNoGap(false, es[1..]);
      GapInTail(es);
    } else {
      var f := es[0].ips != [] && es[1].ips == [];
      SucceedsIffNoGap(f, [Join(es[0], es[1])] + es[2..]);
      GapOfJoined(es);
    }
  }

  lemma GapInTail(es: seq<Entry>)
    requires |es| >= 2 && es[0].key != es[1].key
    ensures HasGap(es) <==> HasGap(es[1..])
  {
    var t := es[1..];
    if HasGap(es) {
      var a: nat, b: nat :| Gap(es, a, b);
      assert es[a].key == es[a + 1].key;
      assert Gap(t, a - 1, b - 1);
    }
    if HasGap(t) {
      var a: nat, b: nat :| Gap(t, a, b);
      forall k | a + 1 <= k <= b + 2 ensures es[k].key == es[b + 2].key {
        assert es[k] == t[k - 1];
      }
      assert Gap(es, a + 1, b + 1);
    }
  }

  lemma GapOfJoined(es: seq<Entry>)
    requires |es| >= 2 && es[0].key == es[1].key
    ensures var t := [Join(es[0], es[1])] + es[2..];
      HasGap(es) <==>
      HasGap(t) || (es[0].ips != [] && es[1].ips == [] && |t| >= 2 && t[0].key == t[1].key)
  {
    var t := [Join(es[0], es[1])] + es[2..];
    assert forall k :: 1 <= k < |t| ==> t[k] == es[k + 1];
    assert t[0].key == es[0].key;
    if HasGap(es) {
      var a: nat, b: nat :| Gap(es, a, b);
      if b == 1 {
        assert t[1].key == es[2].key;
      } else {
        var a' := if a < 2 then 0 else a - 1;
        assert es[a].key == es[b + 1].key;
        forall k | a' <= k <= b ensures t[k].key == t[b].key {
          if k > 0 {
            assert t[k] == es[k + 1];
          }
        }
        assert Gap(t, a', b - 1);
      }
    }
    if HasGap(t) {
      var a: nat, b: nat :| Gap(t, a, b);
      var a' := if a > 0 then a + 1 else if es[0].ips != [] then 0 else 1;
      forall k | a' <= k <= b + 2 ensures es[k].key == es[b + 2].key {
        if k >= 2 {
          assert es[k] == t[k - 1];
        } else {
          assert es[k].key == t[0].key == t[b + 1].key;
        }
      }
      assert Gap(es, a', b + 1);
    } else if es[0].ips != [] && es[1].ips == [] && |t| >= 2 && t[0].key == t[1].key {
      assert es[2] == t[1];
      assert Gap(es, 0, 1);
    }
  }

  /** Continuations that all bring IPs leave no gap. */
  lemma ContinuedHasNoGap(es: seq<Entry>)
    requires Continued(es)
    ensures !HasGap(es)
  {
    forall a: nat, b: nat ensures !Gap(es, a, b) {
      if a < b && OneRun(es, a, b + 1) {
        assert es[b - 1].key == es[b].key;
      }
    }
  }

  // ---- Coalescing entry by entry ----

  function Extend(es: seq<Entry>, e: Entry): (r: seq<Entry>) {
    if es != [] && es[|es| - 1].key == e.key then es[..|es| - 1] + [Join(es[|es| - 1], e)] else es + [e]
  }

  lemma {:induction false} CoalescedSnoc(es: seq<Entry>, e: Entry)
    ensures Coalesced(es + [e]) == Extend(Coalesced(es), e)
    ensures es != [] ==> Coalesced(es) != []
    decreases |es|
  {
    var t := es + [e];
    if |es| == 1 {
      assert t[1..] == [e] && t[2..] == [];
      assert [Join(t[0], t[1])] + t[2..] == [Join(t[0], t[1])];
    } else if |es| > 1 && es[0].key == es[1].key {
      var es' := [Join(es[0], es[1])] + es[2..];
      CoalescedSnoc(es', e);
      assert [Join(t[0], t[1])] + t[2..] == es' + [e];
    } else if |es| > 1 {
      CoalescedSnoc(es[1..], e);
      assert t[1..] == es[1..] + [e];
      var c := Coalesced(es[1..]);
      assert ([es[0]] + c)[..|c|] == [es[0]] + c[..|c| - 1];
    }
  }

  /** No two neighbours with the same key are left. */
  lemma {:induction false} CoalescedNeighbours(es: seq<Entry>)
    ensures forall i :: 0 < i < |Coalesced(es)| ==> Coalesced(es)[i - 1].key != Coalesced(es)[i].key
    ensures es != [] ==> Coalesced(es) != [] && Coalesced(es)[0].key == es[0].key
    decreases |es|
  {
    if |es| >= 2 {
      if es[0].key == es[1].key {
        CoalescedNeighbours([Join(es[0], es[1])] + es[2..]);
      } else {
        CoalescedNeighbours(es[1..]);
      }
    }
  }
}
