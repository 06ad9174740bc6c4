/** A device that arrives in pieces, cut anywhere between allowed IPs, is whole again after
    parsing every message and coalescing. */
module DumpRoundTrip {
  import opened Wrappers
  import opened Netlink
  import opened WgWire
  import opened SetDevice
  import opened Coalesce

  function EntryOf(r: Record): Entry { Entry(if r.key.Some? then r.key.value else Zeros(32), r.scalars, r.ips) }

  function EntriesOf(rs: seq<Record>): (r: seq<Entry>)
    ensures |r| == |rs|
  {
    seq(|rs|, i requires 0 <= i < |rs| => EntryOf(rs[i]))
  }

  /** parse_device over the messages: one list entry per peer attribute. */
  function Parsed(bodies: seq<Bytes>): seq<Entry> {
    if bodies == [] then []
    else Parsed(bodies[..|bodies| - 1]) + EntriesOf(DecodeMessage(false, bodies[|bodies| - 1]).peers)
  }

  function PeerEntry(p: Peer, n: nat): Entry
    requires n <= |p.ips|
  {
    Entry(p.publicKey, SeenScalars(false, p.scalars), SeenIps(false, p.ips[..n]))
  }

  function PeerEntries(peers: seq<Peer>): (r: seq<Entry>)
    ensures |r| == |peers|
  {
    seq(|peers|, i requires 0 <= i < |peers| => PeerEntry(peers[i], |peers[i].ips|))
  }

  function PartEntries(parts: seq<Part>): (r: seq<Entry>)
    ensures |r| == |parts|
  {
    EntriesOf(PartRecords(false, parts))
  }

  /** Neighbouring peers are different peers. */
  predicate NeighboursDiffer(peers: seq<Peer>) {
    forall i :: 0 < i < |peers| ==> peers[i - 1].publicKey != peers[i].publicKey
  }

  /** The peers before the cursor whole, and the cursor's own as far as it has come. */
  function Arrived(dev: Device, c: Cursor): seq<Entry>
    requires c.Valid(dev)
  {
    PeerEntries(dev.peers[..c.peer]) +
    if c.ip.Some? then [PeerEntry(dev.peers[c.peer], c.ip.value)] else []
  }

  lemma NextArrives(dev: Device, c: Cursor, p: Part)
    requires c.Valid(dev) && Next(dev, c, p).Some? && NeighboursDiffer(dev.peers)
    ensures Next(dev, c, p).value.Valid(dev)
    ensures Extend(Arrived(dev, c), EntryOf(PartRecord(false, p))) == Arrived(dev, Next(dev, c, p).value)
    ensures Arrived(dev, c) != [] && p.first ==>
      Arrived(dev, c)[|Arrived(dev, c)| - 1].key != p.peer.publicKey
  {
    var peer, from := dev.peers[c.peer], c.From();
    var to := from + |p.ips|;
    var e := EntryOf(PartRecord(false, p));
    var c' := Next(dev, c, p).value;
    assert peer.ips[..from] + p.ips == peer.ips[..to];
    assert SeenIps(false, peer.ips[..from]) + SeenIps(false, p.ips) == SeenIps(false, peer.ips[..to]);
    var before := PeerEntries(dev.peers[..c.peer]);
    assert PeerEntries(dev.peers[..c.peer + 1]) == before + [PeerEntry(peer, |peer.ips|)];
    var now := PeerEntry(peer, to);
    assert Arrived(dev, c') == before + [now];
    if c.ip.Some? {
      var last := PeerEntry(peer, from);
      assert Join(last, e) == now;
      assert (before + [last])[..|before|] == before;
    } else {
      assert peer.ips[..0] == [];
      assert e == now;
    }
  }

  lemma {:induction false} PartsArrive(dev: Device, parts: seq<Part>)
    requires Run(dev, Cursor(0, None), parts).Some? && Sendable(parts) && NeighboursDiffer(dev.peers)
    ensures Run(dev, Cursor(0, None), parts).value.Valid(dev)
    ensures Coalesced(PartEntries(parts)) == Arrived(dev, Run(dev, Cursor(0, None), parts).value)
    ensures Continued(PartEntries(parts))
    decreases |parts|
  {
    hide Next, Arrived, Coalesced, PartRecord;
    var es := PartEntries(parts);
    if parts == [] {
      NothingArrived(dev, es);
    } else {
      var n := |parts| - 1;
      var c := Run(dev, Cursor(0, None), parts[..n]).value;
      PartsArrive(dev, parts[..n]);
      NextArrives(dev, c, parts[n]);
      var t, e := PartEntries(parts[..n]), EntryOf(PartRecord(false, parts[n]));
      assert es == t + [e];
      CoalescedSnoc(t, e);
      if n > 0 {
        CoalescedLast(t);
      }
      PartKey(parts[n]);
    }
  }

  lemma PartKey(p: Part)
    ensures EntryOf(PartRecord(false, p)).key == p.peer.publicKey
    ensures p.ips != [] ==> EntryOf(PartRecord(false, p)).ips != []
  {
  }

  lemma NothingArrived(dev: Device, es: seq<Entry>)
    requires es == []
    ensures Coalesced(es) == Arrived(dev, Cursor(0, None))
  {
  }

  lemma CoalescedLast(es: seq<Entry>)
    requires es != []
    ensures Coalesced(es) != [] && Coalesced(es)[|Coalesced(es)| - 1].key == es[|es| - 1].key
  {
    var n := |es| - 1;
    CoalescedSnoc(es[..n], es[n]);
    assert es[..n] + [es[n]] == es;
  }

  lemma {:induction false} ParsedParts(dev: Device, size: nat, bodies: seq<Bytes>, frags: seq<Fragment>)
    requires Sent(dev, size, bodies, frags) && size <= 8192
    requires dev.peers == [] ==> AllParts(frags) == []
    ensures Parsed(bodies) == PartEntries(AllParts(frags))
    decreases |bodies|
  {
    hide Encode, MessageItems, PartRecord, DecodeMessage;
    if bodies != [] {
      var n := |bodies| - 1;
      MessageRoundTrip(false, dev, frags[n]);
      SentPrefix(dev, size, bodies, frags);
      ParsedParts(dev, size, bodies[..n], frags[..n]);
      var rest, last := AllParts(frags[..n]), frags[n].parts;
      assert PartEntries(rest + last) == PartEntries(rest) + PartEntries(last);
    }
  }

  /** Parse and coalesce undo fragmentation, without ever following the null pointer. */
  lemma CoalesceUndoesFragments(dev: Device, size: nat, bodies: seq<Bytes>, frags: seq<Fragment>)
    requires Sent(dev, size, bodies, frags) && size <= 8192 && NeighboursDiffer(dev.peers)
    requires Run(dev, Cursor(0, None), AllParts(frags)) == Some(Cursor(|dev.peers|, None))
    ensures Follows(false, Parsed(bodies)) && Continued(Parsed(bodies))
    ensures Coalesced(Parsed(bodies)) == PeerEntries(dev.peers)
  {
    hide Run, Sent, Coalesced, Follows, PeerEntries, Continued;
    var parts := AllParts(frags);
    NoPeersNoParts(dev, parts);
    AllSendable(dev, size, bodies, frags);
    ParsedParts(dev, size, bodies, frags);
    PartsArrive(dev, parts);
    ContinuedHasNoGap(PartEntries(parts));
    SucceedsIffNoGap(false, PartEntries(parts));
    assert dev.peers[..|dev.peers|] == dev.peers;
  }

  lemma AllSendable(dev: Device, size: nat, bodies: seq<Bytes>, frags: seq<Fragment>)
    requires Sent(dev, size, bodies, frags)
    ensures Sendable(AllParts(frags))
  {
  }

  // ---- The parser's error returns ----

  /** The prefix length suits the family: parse_allowedips goes on. */
  predicate Proper(ip: AllowedIp) {
    (ip.family == AF_INET && ip.cidr <= 32) || (ip.family == AF_INET6 && ip.cidr <= 128)
  }

  predicate AllProper(ips: seq<AllowedIp>) { forall k :: 0 <= k < |ips| ==> Proper(ips[k]) }

  /** parse_peers and parse_allowedips both go on. */
  predicate Accepted(r: Record) { r.key.Some? && AllProper(r.ips) }

  lemma {:induction false} PartProper(dev: Device, parts: seq<Part>, p: Part)
    requires Run(dev, Cursor(0, None), parts).Some? && p in parts
    requires forall i :: 0 <= i < |dev.peers| ==> AllProper(dev.peers[i].ips)
    ensures AllProper(p.ips)
    decreases |parts|
  {
    var n := |parts| - 1;
    if parts[n] != p {
      assert parts == parts[..n] + [parts[n]];
      PartProper(dev, parts[..n], p);
    } else {
      var c := Run(dev, Cursor(0, None), parts[..n]).value;
      assert p.ips == dev.peers[c.peer].ips[c.From()..c.From() + |p.ips|];
    }
  }

  lemma {:induction false} PartThere(frags: seq<Fragment>, i: nat, p: Part)
    requires i < |frags| && p in frags[i].parts
    ensures p in AllParts(frags)
    decreases |frags|
  {
    if i < |frags| - 1 {
      PartThere(frags[..|frags| - 1], i, p);
    }
  }

  /** Whatever kernel_set_device writes for a device with proper prefix lengths, the parser accepts: it
      never takes the error returns for a missing key or a prefix length out of range. */
  lemma NothingRefused(dev: Device, size: nat, bodies: seq<Bytes>, frags: seq<Fragment>, i: nat)
    requires Sent(dev, size, bodies, frags) && size <= 8192 && i < |bodies|
    requires Run(dev, Cursor(0, None), AllParts(frags)) == Some(Cursor(|dev.peers|, None))
    requires forall j :: 0 <= j < |dev.peers| ==> AllProper(dev.peers[j].ips)
    ensures var rs := DecodeMessage(false, bodies[i]).peers;
      forall k :: 0 <= k < |rs| ==> Accepted(rs[k])
  {
    hide Encode, MessageItems, DecodeMessage, Run, AllParts, AllProper;
    MessageRoundTrip(false, dev, frags[i]);
    var rs := DecodeMessage(false, bodies[i]).peers;
    forall k | 0 <= k < |rs| ensures Accepted(rs[k]) {
      var p := frags[i].parts[k];
      PartThere(frags, i, p);
      PartProper(dev, AllParts(frags), p);
      SeenProper(p.ips);
    }
  }

  lemma SeenProper(ips: seq<AllowedIp>)
    requires AllProper(ips)
    ensures AllProper(SeenIps(false, ips))
  {
  }
}
