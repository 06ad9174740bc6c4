/** What WG_CMD_SET_DEVICE messages do to a device, as
    tunnel/tools/wireguard-tools/src/uapi/linux/linux/wireguard.h documents it, and why splitting
    a configuration over several messages does not change it. */
module KernelFold {
  import opened Numbers
  import opened Wrappers
  import opened Netlink
  import opened WgWire
  import opened SetDevice

  datatype Prefix = Prefix(family: uint16, addr: Bytes, cidr: uint8)

  /** Peers by public key, and the peer each allowed prefix routes to. */
  datatype Kernel = Kernel(privateKey: Option<Key>, listenPort: Option<uint16>, fwmark: Option<uint32>,
                           peers: map<Key, Scalars>, routes: map<Prefix, Key>)

  function Or<T>(x: Option<T>, y: Option<T>): Option<T> { if x.Some? then x else y }

  function Merge(s: Scalars, t: Scalars): Scalars {
    Scalars(Or(t.psk, s.psk), if t.endpoint.NoEndpoint? then s.endpoint else t.endpoint, Or(t.keepalive, s.keepalive))
  }

  /** The routes that do not lead to the peer. */
  function DropRoutes(routes: map<Prefix, Key>, key: Key): map<Prefix, Key> {
    map p | p in routes && routes[p] != key :: routes[p]
  }

  /** An allowed IP moves its prefix to this peer, or takes it away from it. */
  function ApplyIp(routes: map<Prefix, Key>, key: Key, ip: AllowedIp): map<Prefix, Key> {
    var p := Prefix(ip.family, ip.addr, ip.cidr);
    if ip.flags % 2 == 0 then routes[p := key]
    else if p in routes && routes[p] == key then routes - {p}
    else routes
  }

  function ApplyIps(routes: map<Prefix, Key>, key: Key, ips: seq<AllowedIp>): map<Prefix, Key> {
    if ips == [] then routes else ApplyIp(ApplyIps(routes, key, ips[..|ips| - 1]), key, ips[|ips| - 1])
  }

  function ApplyPeer(k: Kernel, key: Key, flags: uint32, scalars: Scalars, ips: seq<AllowedIp>): Kernel {
    if flags % 2 == 1 then k.(peers := k.peers - {key}, routes := DropRoutes(k.routes, key))
    else
      var before := if key in k.peers then k.peers[key] else NoScalars;
      var routes := if flags / 2 % 2 == 1 then DropRoutes(k.routes, key) else k.routes;
      k.(peers := k.peers[key := Merge(before, scalars)], routes := ApplyIps(routes, key, ips))
  }

  function ApplyRecord(k: Kernel, r: Record): Kernel {
    if r.key.Some? then ApplyPeer(k, r.key.value, r.flags, r.scalars, r.ips) else k
  }

  function ApplyRecords(k: Kernel, rs: seq<Record>): Kernel {
    if rs == [] then k else ApplyRecord(ApplyRecords(k, rs[..|rs| - 1]), rs[|rs| - 1])
  }

  function ApplyHead(k: Kernel, r: Request): Kernel {
    var k' := k.(privateKey := Or(r.privateKey, k.privateKey), listenPort := Or(r.listenPort, k.listenPort),
                 fwmark := Or(r.fwmark, k.fwmark));
    if r.flags % 2 == 1 then k'.(peers := map[], routes := map[]) else k'
  }

  function ApplyRequest(k: Kernel, r: Request): Kernel {
    ApplyRecords(ApplyHead(k, r), r.peers)
  }

  /** The messages, decoded and applied in the order they arrive. */
  function ApplyMessages(k: Kernel, bodies: seq<Bytes>): Kernel {
    if bodies == [] then k
    else ApplyRequest(ApplyMessages(k, bodies[..|bodies| - 1]), DecodeMessage(true, bodies[|bodies| - 1]))
  }

  function WholePart(p: Peer): Part { Part(p, true, p.ips, p.ips != []) }

  function WholeParts(peers: seq<Peer>): (r: seq<Part>)
    ensures |r| == |peers|
  {
    seq(|peers|, i requires 0 <= i < |peers| => WholePart(peers[i]))
  }

  /** The configuration as a single request, whatever its size. */
  function WholeRequest(dev: Device): Request {
    FragmentRequest(true, dev, Fragment(true, WholeParts(dev.peers)))
  }

  // ---- One peer in two pieces ----

  lemma {:induction false} ApplyIpsAppend(routes: map<Prefix, Key>, key: Key, s: seq<AllowedIp>, t: seq<AllowedIp>)
    ensures ApplyIps(routes, key, s + t) == ApplyIps(ApplyIps(routes, key, s), key, t)
    decreases |t|
  {
    if t == [] {
      assert s + t == s;
    } else {
      var n := |t| - 1;
      assert (s + t)[..|s| + n] == s + t[..n];
      ApplyIpsAppend(routes, key, s, t[..n]);
    }
  }

  function PartOf(p: Peer, first: bool, ips: seq<AllowedIp>): Record {
    PartRecord(true, Part(p, first, ips, false))
  }

  /** A peer's first appearance with some allowed IPs, then a continuation with more, does what
      one appearance with all of them does. */
  lemma ContinuePeer(k: Kernel, p: Peer, s: seq<AllowedIp>, t: seq<AllowedIp>)
    ensures ApplyRecord(ApplyRecord(k, PartOf(p, true, s)), PartOf(p, false, t))
         == ApplyRecord(k, PartOf(p, true, s + t))
  {
    var key := p.publicKey;
    assert SeenIps(true, s) == s && SeenIps(true, t) == t && SeenIps(true, s + t) == s + t;
    var k1 := ApplyRecord(k, PartOf(p, true, s));
    if p.removeMe {
      assert k1.peers - {key} == k1.peers;
      assert DropRoutes(k1.routes, key) == k1.routes;
    } else {
      assert Merge(k1.peers[key], NoScalars) == k1.peers[key];
      assert k1.peers[key := k1.peers[key]] == k1.peers;
      var routes := if p.replaceIps then DropRoutes(k.routes, key) else k.routes;
      ApplyIpsAppend(routes, key, s, t);
    }
  }

  // ---- Any sequence of parts ----

  /** The state when everything up to the cursor has been applied once. */
  function UpTo(k: Kernel, dev: Device, c: Cursor): Kernel
    requires c.Valid(dev)
  {
    var k' := ApplyRecords(k, PartRecords(true, WholeParts(dev.peers[..c.peer])));
    if c.ip.None? then k' else
    var p := dev.peers[c.peer];
    ApplyRecord(k', PartOf(p, true, p.ips[..c.ip.value]))
  }

  lemma WholeSnoc(k: Kernel, dev: Device, i: nat)
    requires i < |dev.peers|
    ensures ApplyRecords(k, PartRecords(true, WholeParts(dev.peers[..i + 1])))
         == ApplyRecord(ApplyRecords(k, PartRecords(true, WholeParts(dev.peers[..i]))),
                        PartRecord(true, WholePart(dev.peers[i])))
  {
    hide ApplyRecord, PartRecord, WholePart;
    RecordsSnoc(k, PartRecords(true, WholeParts(dev.peers[..i])), PartRecord(true, WholePart(dev.peers[i])));
    assert PartRecords(true, WholeParts(dev.peers[..i + 1]))
        == PartRecords(true, WholeParts(dev.peers[..i])) + [PartRecord(true, WholePart(dev.peers[i]))];
  }

  lemma RecordsSnoc(k: Kernel, rs: seq<Record>, r: Record)
    ensures ApplyRecords(k, rs + [r]) == ApplyRecord(ApplyRecords(k, rs), r)
  {
    assert (rs + [r])[..|rs|] == rs;
  }

  lemma NextApplies(k: Kernel, dev: Device, c: Cursor, p: Part)
    requires c.Valid(dev) && Next(dev, c, p).Some?
    ensures Next(dev, c, p).value.Valid(dev)
    ensures ApplyRecord(UpTo(k, dev, c), PartRecord(true, p)) == UpTo(k, dev, Next(dev, c, p).value)
  {
    hide ApplyRecord, ApplyRecords, PartRecords;
    var peer, from := dev.peers[c.peer], c.From();
    var to := from + |p.ips|;
    var k' := ApplyRecords(k, PartRecords(true, WholeParts(dev.peers[..c.peer])));
    assert PartRecord(true, p) == PartOf(peer, p.first, p.ips);
    assert PartRecord(true, WholePart(peer)) == PartOf(peer, true, peer.ips);
    if c.ip.Some? {
      ContinuePeer(k', peer, peer.ips[..from], p.ips);
      assert peer.ips[..from] + p.ips == peer.ips[..to];
    }
    if to == |peer.ips| {
      assert peer.ips[..to] == peer.ips;
      assert c.ip.None? ==> p.ips == peer.ips;
      WholeSnoc(k, dev, c.peer);
    } else {
      assert c.ip.None? ==> p.ips == peer.ips[..to];
    }
  }

  lemma {:induction false} PartsApply(k: Kernel, dev: Device, parts: seq<Part>)
    requires Run(dev, Cursor(0, None), parts).Some?
    ensures Run(dev, Cursor(0, None), parts).value.Valid(dev)
    ensures ApplyRecords(k, PartRecords(true, parts)) == UpTo(k, dev, Run(dev, Cursor(0, None), parts).value)
    decreases |parts|
  {
    hide UpTo, ApplyRecord, PartRecord, Next;
    if parts == [] {
      NothingApplied(k, dev);
    } else {
      var n := |parts| - 1;
      PartsApply(k, dev, parts[..n]);
      NextApplies(k, dev, Run(dev, Cursor(0, None), parts[..n]).value, parts[n]);
      RecordsSnoc(k, PartRecords(true, parts[..n]), PartRecord(true, parts[n]));
      assert PartRecords(true, parts) == PartRecords(true, parts[..n]) + [PartRecord(true, parts[n])];
    }
  }

  lemma NothingApplied(k: Kernel, dev: Device)
    ensures UpTo(k, dev, Cursor(0, None)) == k && ApplyRecords(k, []) == k
    ensures PartRecords(true, []) == []
  {
  }

  // ---- All messages ----

  lemma {:induction false} RecordsAppend(k: Kernel, s: seq<Record>, t: seq<Record>)
    ensures ApplyRecords(k, s + t) == ApplyRecords(ApplyRecords(k, s), t)
    decreases |t|
  {
    if t == [] {
      assert s + t == s;
    } else {
      var n := |t| - 1;
      assert (s + t)[..|s| + n] == s + t[..n];
      RecordsAppend(k, s, t[..n]);
    }
  }

  /** Applying the first messages is applying the device attributes once and then the parts. */
  lemma {:induction false} MessagesApply(k: Kernel, dev: Device, size: nat, bodies: seq<Bytes>, frags: seq<Fragment>)
    requires Sent(dev, size, bodies, frags) && bodies != [] && size <= 8192
    requires dev.peers == [] ==> AllParts(frags) == []
    ensures ApplyMessages(k, bodies)
         == ApplyRecords(ApplyHead(k, WholeRequest(dev)), PartRecords(true, AllParts(frags)))
    decreases |bodies|
  {
    hide Encode, MessageItems, ApplyRecords, PartRecord, ApplyHead, DecodeMessage;
    var n := |bodies| - 1;
    var f := frags[n];
    var rest := AllParts(frags[..n]);
    MessageRoundTrip(true, dev, f);
    assert AllParts(frags) == rest + f.parts;
    assert PartRecords(true, AllParts(frags)) == PartRecords(true, rest) + PartRecords(true, f.parts);
    assert dev.peers == [] ==> f.parts == [];
    var k0 := ApplyHead(k, WholeRequest(dev));
    HeadApplied(k, dev, f);
    if n == 0 {
      assert rest == [];
      assert PartRecords(true, AllParts(frags)) == PartRecords(true, f.parts);
    } else {
      SentPrefix(dev, size, bodies, frags);
      MessagesApply(k, dev, size, bodies[..n], frags[..n]);
      HeadApplied(ApplyMessages(k, bodies[..n]), dev, f);
      RecordsAppend(k0, PartRecords(true, rest), PartRecords(true, f.parts));
    }
  }

  lemma HeadApplied(k: Kernel, dev: Device, f: Fragment)
    requires dev.peers == [] ==> f.parts == []
    ensures ApplyRequest(k, FragmentRequest(true, dev, f))
         == ApplyRecords(if f.first then ApplyHead(k, WholeRequest(dev)) else k, PartRecords(true, f.parts))
  {
    hide ApplyRecords, PartRecord;
    assert dev.peers == [] ==> PartRecords(true, f.parts) == [];
  }

  /** Fragmentation preserves meaning: for every prior state, the messages in order leave the
      device as the whole configuration in one request would. */
  lemma FragmentsMeanWhole(k: Kernel, dev: Device, size: nat, bodies: seq<Bytes>, frags: seq<Fragment>)
    requires Sent(dev, size, bodies, frags) && bodies != [] && size <= 8192
    requires Run(dev, Cursor(0, None), AllParts(frags)) == Some(Cursor(|dev.peers|, None))
    ensures ApplyMessages(k, bodies) == ApplyRequest(k, WholeRequest(dev))
  {
    hide ApplyMessages, ApplyRecords, PartRecord, Run;
    var parts := AllParts(frags);
    NoPeersNoParts(dev, parts);
    MessagesApply(k, dev, size, bodies, frags);
    PartsApply(ApplyHead(k, WholeRequest(dev)), dev, parts);
    assert dev.peers[..|dev.peers|] == dev.peers;
    assert dev.peers == [] ==> PartRecords(true, WholeParts(dev.peers)) == [];
  }

  /** kernel_set_device, with the kernel's view of what it sent. */
  method Configure(dev: Device, size: nat) returns (bodies: seq<Bytes>)
    requires dev.Valid() && MIN_BUFFER <= size <= 8192
    ensures forall i :: 0 <= i < |bodies| ==> HEADER + |bodies[i]| <= size
    ensures forall k :: ApplyMessages(k, bodies) == ApplyRequest(k, WholeRequest(dev))
  {
    hide Encode, MessageItems, ApplyMessages, ApplyRequest, WholeRequest, Run;
    ghost var frags;
    bodies, frags := KernelSetDevice(dev, size);
    forall k ensures ApplyMessages(k, bodies) == ApplyRequest(k, WholeRequest(dev)) {
      FragmentsMeanWhole(k, dev, size, bodies, frags);
    }
  }
}
