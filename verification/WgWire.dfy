/** The configuration objects of tunnel/tools/wireguard-tools/src/containers.h and their form on
    the wire, as tunnel/tools/wireguard-tools/src/uapi/linux/linux/wireguard.h documents it. */
module WgWire {
  import opened Numbers
  import opened Wrappers
  import opened Netlink

  const AF_INET: uint16 := 2
  const AF_INET6: uint16 := 10

  const WGDEVICE_A_IFNAME: uint16 := 2
  const WGDEVICE_A_PRIVATE_KEY: uint16 := 3
  const WGDEVICE_A_FLAGS: uint16 := 5
  const WGDEVICE_A_LISTEN_PORT: uint16 := 6
  const WGDEVICE_A_FWMARK: uint16 := 7
  const WGDEVICE_A_PEERS: uint16 := 8

  const WGPEER_A_PUBLIC_KEY: uint16 := 1
  const WGPEER_A_PRESHARED_KEY: uint16 := 2
  const WGPEER_A_FLAGS: uint16 := 3
  const WGPEER_A_ENDPOINT: uint16 := 4
  const WGPEER_A_PERSISTENT_KEEPALIVE_INTERVAL: uint16 := 5
  const WGPEER_A_ALLOWEDIPS: uint16 := 9

  const WGALLOWEDIP_A_FAMILY: uint16 := 1
  const WGALLOWEDIP_A_IPADDR: uint16 := 2
  const WGALLOWEDIP_A_CIDR_MASK: uint16 := 3
  const WGALLOWEDIP_A_FLAGS: uint16 := 4

  type Key = k: Bytes | |k| == 32 witness seq(32, _ => 0)

  /** A socket address: struct sockaddr_in or struct sockaddr_in6, family first. */
  datatype Endpoint = NoEndpoint | V4(addr: Bytes) | V6(addr: Bytes) {
    predicate Valid() {
      && (V4? ==> |addr| == 16 && GetU16(addr) == AF_INET)
      && (V6? ==> |addr| == 28 && GetU16(addr) == AF_INET6)
    }
  }

  datatype AllowedIp = AllowedIp(family: uint16, addr: Bytes, cidr: uint8, flags: uint32) {
    /** The address is as long as its family says; other families carry none. */
    predicate Valid() {
      |addr| == if family == AF_INET then 4 else if family == AF_INET6 then 16 else 0
    }
  }

  /** Everything about a peer but its allowed IPs. */
  datatype Scalars = Scalars(psk: Option<Key>, endpoint: Endpoint, keepalive: Option<uint16>)

  const NoScalars: Scalars := Scalars(None, NoEndpoint, None)

  datatype Peer = Peer(publicKey: Key, removeMe: bool, replaceIps: bool, scalars: Scalars, ips: seq<AllowedIp>) {
    predicate Valid() {
      scalars.endpoint.Valid() && forall i :: 0 <= i < |ips| ==> ips[i].Valid()
    }
  }

  datatype Device = Device(name: Bytes, privateKey: Option<Key>, listenPort: Option<uint16>, fwmark: Option<uint32>,
                           replacePeers: bool, peers: seq<Peer>) {
    /** IFNAMSIZ is 16 including the terminator. */
    predicate Valid() {
      |name| <= 15 && forall i :: 0 <= i < |peers| ==> peers[i].Valid()
    }
  }

  /** One appearance of a peer in a message: all of its scalar attributes and flags on the
      first, only its key and the removal flag on the others. `nest` tells whether the
      allowed-IP attribute is there. */
  datatype Part = Part(peer: Peer, first: bool, ips: seq<AllowedIp>, nest: bool) {
    predicate Valid() {
      peer.Valid() && (forall i :: 0 <= i < |ips| ==> ips[i].Valid()) && (!nest ==> ips == [])
    }
  }

  // ---- Encoding ----

  function OptItem(present: bool, kind: uint16, data: Bytes): seq<Item> {
    if present then [Item(kind, false, data)] else []
  }

  function IpItems(ip: AllowedIp): (r: seq<Item>)
    ensures AllValid(r)
  {
    [Item(WGALLOWEDIP_A_FAMILY, false, U16(ip.family))]
    + OptItem(ip.family == AF_INET || ip.family == AF_INET6, WGALLOWEDIP_A_IPADDR, ip.addr)
    + [Item(WGALLOWEDIP_A_CIDR_MASK, false, [ip.cidr])]
    + OptItem(ip.flags != 0, WGALLOWEDIP_A_FLAGS, U32(ip.flags))
  }

  function IpItem(ip: AllowedIp): (r: Item)
    ensures r.Valid()
  {
    Item(0, true, Encode(IpItems(ip)))
  }

  function IpsItems(ips: seq<AllowedIp>): (r: seq<Item>)
    ensures |r| == |ips| && AllValid(r)
  {
    seq(|ips|, i requires 0 <= i < |ips| => IpItem(ips[i]))
  }

  function PeerFlags(peer: Peer, first: bool): uint32 {
    (if peer.removeMe then 1 else 0) + (if first && peer.replaceIps then 2 else 0)
  }

  function ScalarItems(s: Scalars): (r: seq<Item>)
    ensures AllValid(r)
  {
    (if s.psk.Some? then [Item(WGPEER_A_PRESHARED_KEY, false, s.psk.value)] else [])
    + (if s.endpoint.NoEndpoint? then [] else [Item(WGPEER_A_ENDPOINT, false, s.endpoint.addr)])
    + (if s.keepalive.Some? then [Item(WGPEER_A_PERSISTENT_KEEPALIVE_INTERVAL, false, U16(s.keepalive.value))] else [])
  }

  /** The attributes of a peer in front of its allowed IPs. */
  function FixedItems(peer: Peer, first: bool): (r: seq<Item>)
    ensures AllValid(r)
  {
    [Item(WGPEER_A_PUBLIC_KEY, false, peer.publicKey)]
    + (if first then ScalarItems(peer.scalars) else [])
    + OptItem(PeerFlags(peer, first) != 0, WGPEER_A_FLAGS, U32(PeerFlags(peer, first)))
  }

  function PartItems(p: Part): (r: seq<Item>)
    ensures AllValid(r)
  {
    FixedItems(p.peer, p.first)
    + if p.nest then [Item(WGPEER_A_ALLOWEDIPS, true, Encode(IpsItems(p.ips)))] else []
  }

  function PartItem(p: Part): (r: Item)
    ensures r.Valid()
  {
    Item(0, true, Encode(PartItems(p)))
  }

  function PartsItems(parts: seq<Part>): (r: seq<Item>)
    ensures |r| == |parts| && AllValid(r)
  {
    seq(|parts|, i requires 0 <= i < |parts| => PartItem(parts[i]))
  }

  function HeadItems(dev: Device, first: bool): (r: seq<Item>)
    ensures AllValid(r)
  {
    [Item(WGDEVICE_A_IFNAME, false, dev.name + [0])]
    + if !first then [] else
      (if dev.privateKey.Some? then [Item(WGDEVICE_A_PRIVATE_KEY, false, dev.privateKey.value)] else [])
      + (if dev.listenPort.Some? then [Item(WGDEVICE_A_LISTEN_PORT, false, U16(dev.listenPort.value))] else [])
      + (if dev.fwmark.Some? then [Item(WGDEVICE_A_FWMARK, false, U32(dev.fwmark.value))] else [])
      + OptItem(dev.replacePeers, WGDEVICE_A_FLAGS, U32(1))
  }

  /** One WG_CMD_SET_DEVICE message: device attributes on the first, then some parts. */
  datatype Fragment = Fragment(first: bool, parts: seq<Part>) {
    predicate Valid() { forall i :: 0 <= i < |parts| ==> parts[i].Valid() }
  }

  function MessageItems(dev: Device, f: Fragment): (r: seq<Item>)
    ensures AllValid(r)
  {
    HeadItems(dev, f.first)
    + if dev.peers == [] then [] else [Item(WGDEVICE_A_PEERS, true, Encode(PartsItems(f.parts)))]
  }

  // ---- Decoding: parse_allowedip, parse_peer and the flags only the kernel reads ----

  /** mnl_attr_parse with a callback that updates a record. */
  function Fold<S>(step: (S, Raw) -> S, s: S, attrs: seq<Raw>): S
    decreases |attrs|
  {
    if attrs == [] then s else Fold(step, step(s, attrs[0]), attrs[1..])
  }

  lemma {:induction false} FoldAppend<S>(step: (S, Raw) -> S, s: S, x: seq<Raw>, y: seq<Raw>)
    ensures Fold(step, s, x + y) == Fold(step, Fold(step, s, x), y)
    decreases |x|
  {
    if x == [] {
      assert x + y == y;
    } else {
      assert (x + y)[1..] == x[1..] + y;
      FoldAppend(step, step(s, x[0]), x[1..], y);
    }
  }

  lemma RawsAppend(s: seq<Item>, t: seq<Item>)
    ensures Raws(s + t) == Raws(s) + Raws(t)
  {
  }

  function Take<S>(step: (S, Raw) -> S, s: S, items: seq<Item>): S {
    if items == [] then s else step(s, Raw(items[0].kind, items[0].data))
  }

  /** Reading a list of at most one attribute. */
  lemma FoldOne<S>(step: (S, Raw) -> S, s: S, items: seq<Item>)
    requires |items| <= 1
    ensures Fold(step, s, Raws(items)) == Take(step, s, items)
  {
    if items != [] {
      assert Raws(items)[1..] == [];
    }
  }

  /** Reading four optional attributes in a row. */
  lemma FoldFour<S>(step: (S, Raw) -> S, s: S, a: seq<Item>, b: seq<Item>, c: seq<Item>, d: seq<Item>)
    requires |a| <= 1 && |b| <= 1 && |c| <= 1 && |d| <= 1
    ensures Fold(step, s, Raws(a + b + c + d)) == Take(step, Take(step, Take(step, Take(step, s, a), b), c), d)
  {
    hide Fold, Take;
    RawsAppend(a + b + c, d);
    RawsAppend(a + b, c);
    RawsAppend(a, b);
    FoldAppend(step, s, Raws(a) + Raws(b) + Raws(c), Raws(d));
    FoldAppend(step, s, Raws(a) + Raws(b), Raws(c));
    FoldAppend(step, s, Raws(a), Raws(b));
    FoldOne(step, s, a);
    FoldOne(step, Take(step, s, a), b);
    FoldOne(step, Take(step, Take(step, s, a), b), c);
    FoldOne(step, Take(step, Take(step, Take(step, s, a), b), c), d);
  }

  const NoIp: AllowedIp := AllowedIp(0, [], 0, 0)

  function IpStep(kernel: bool, ip: AllowedIp, a: Raw): AllowedIp {
    if a.kind == WGALLOWEDIP_A_FAMILY && |a.data| == 2 then ip.(family := GetU16(a.data))
    else if a.kind == WGALLOWEDIP_A_IPADDR && (|a.data| == 4 || |a.data| == 16) then ip.(addr := a.data)
    else if a.kind == WGALLOWEDIP_A_CIDR_MASK && |a.data| == 1 then ip.(cidr := a.data[0])
    else if kernel && a.kind == WGALLOWEDIP_A_FLAGS && |a.data| == 4 then ip.(flags := GetU32(a.data))
    else ip
  }

  function IpReader(kernel: bool): (AllowedIp, Raw) -> AllowedIp { (ip, a) => IpStep(kernel, ip, a) }

  function DecodeIp(kernel: bool, data: Bytes): AllowedIp {
    Fold(IpReader(kernel), NoIp, Walk(data))
  }

  function DecodeIps(kernel: bool, attrs: seq<Raw>): (r: seq<AllowedIp>)
    ensures |r| == |attrs|
  {
    seq(|attrs|, i requires 0 <= i < |attrs| => DecodeIp(kernel, attrs[i].data))
  }

  datatype Record = Record(key: Option<Key>, flags: uint32, scalars: Scalars, ips: seq<AllowedIp>)

  const NoRecord: Record := Record(None, 0, NoScalars, [])

  function PeerStep(kernel: bool, r: Record, a: Raw): Record {
    if a.kind == WGPEER_A_PUBLIC_KEY && |a.data| == 32 then r.(key := Some(a.data))
    else if a.kind == WGPEER_A_PRESHARED_KEY && |a.data| == 32 && !kernel && a.data == Zeros(32) then r
    else if a.kind == WGPEER_A_PRESHARED_KEY && |a.data| == 32 then r.(scalars := r.scalars.(psk := Some(a.data)))
    else if kernel && a.kind == WGPEER_A_FLAGS && |a.data| == 4 then r.(flags := GetU32(a.data))
    else if a.kind == WGPEER_A_ENDPOINT && |a.data| == 16 && GetU16(a.data) == AF_INET then
      r.(scalars := r.scalars.(endpoint := V4(a.data)))
    else if a.kind == WGPEER_A_ENDPOINT && |a.data| == 28 && GetU16(a.data) == AF_INET6 then
      r.(scalars := r.scalars.(endpoint := V6(a.data)))
    else if a.kind == WGPEER_A_PERSISTENT_KEEPALIVE_INTERVAL && |a.data| == 2 then
      r.(scalars := r.scalars.(keepalive := Some(GetU16(a.data))))
    else if a.kind == WGPEER_A_ALLOWEDIPS then r.(ips := r.ips + DecodeIps(kernel, Walk(a.data)))
    else r
  }

  function PeerReader(kernel: bool): (Record, Raw) -> Record { (r, a) => PeerStep(kernel, r, a) }

  function DecodePeer(kernel: bool, data: Bytes): Record {
    Fold(PeerReader(kernel), NoRecord, Walk(data))
  }

  function DecodePeers(kernel: bool, attrs: seq<Raw>): (r: seq<Record>)
    ensures |r| == |attrs|
  {
    seq(|attrs|, i requires 0 <= i < |attrs| => DecodePeer(kernel, attrs[i].data))
  }

  /** What one message asks for. */
  datatype Request = Request(privateKey: Option<Key>, listenPort: Option<uint16>, fwmark: Option<uint32>, flags: uint32,
                             peers: seq<Record>)

  const NoRequest: Request := Request(None, None, None, 0, [])

  function DeviceStep(kernel: bool, r: Request, a: Raw): Request {
    if a.kind == WGDEVICE_A_PRIVATE_KEY && |a.data| == 32 then r.(privateKey := Some(a.data))
    else if kernel && a.kind == WGDEVICE_A_FLAGS && |a.data| == 4 then r.(flags := GetU32(a.data))
    else if a.kind == WGDEVICE_A_LISTEN_PORT && |a.data| == 2 then r.(listenPort := Some(GetU16(a.data)))
    else if a.kind == WGDEVICE_A_FWMARK && |a.data| == 4 then r.(fwmark := Some(GetU32(a.data)))
    else if a.kind == WGDEVICE_A_PEERS then r.(peers := r.peers + DecodePeers(kernel, Walk(a.data)))
    else r
  }

  function DeviceReader(kernel: bool): (Request, Raw) -> Request { (r, a) => DeviceStep(kernel, r, a) }

  function DecodeMessage(kernel: bool, body: Bytes): Request {
    Fold(DeviceReader(kernel), NoRequest, Walk(body))
  }

  // ---- Decoding undoes encoding ----

  /** What a reader sees of an allowed IP and of a part: userspace skips the flags, and takes
      an all-zero preshared key for none. */
  function SeenIp(kernel: bool, ip: AllowedIp): AllowedIp {
    if kernel then ip else ip.(flags := 0)
  }

  function SeenIps(kernel: bool, ips: seq<AllowedIp>): (r: seq<AllowedIp>)
    ensures |r| == |ips|
  {
    seq(|ips|, i requires 0 <= i < |ips| => SeenIp(kernel, ips[i]))
  }

  function SeenScalars(kernel: bool, s: Scalars): Scalars {
    if !kernel && s.psk == Some(Zeros(32)) then s.(psk := None) else s
  }

  function PartRecord(kernel: bool, p: Part): Record {
    Record(Some(p.peer.publicKey), if kernel then PeerFlags(p.peer, p.first) else 0,
           if p.first then SeenScalars(kernel, p.peer.scalars) else NoScalars, SeenIps(kernel, p.ips))
  }

  /** A list of at most one item is at most that item long. */
  lemma ListSize(items: seq<Item>, n: nat)
    requires AllValid(items) && |items| <= 1 && (items != [] ==> 4 + Align(|items[0].data|) <= n)
    ensures |Encode(items)| <= n
  {
    if items != [] {
      EncodeOne(items[0]);
      assert items == [items[0]];
    } else {
      assert items == [];
    }
  }

  lemma FourSize(a: seq<Item>, b: seq<Item>, c: seq<Item>, d: seq<Item>, na: nat, nb: nat, nc: nat, nd: nat)
    requires AllValid(a) && AllValid(b) && AllValid(c) && AllValid(d)
    requires |Encode(a)| <= na && |Encode(b)| <= nb && |Encode(c)| <= nc && |Encode(d)| <= nd
    ensures |Encode(a + b + c + d)| <= na + nb + nc + nd
  {
    hide Encode;
    EncodeAppend(a + b + c, d);
    EncodeAppend(a + b, c);
    EncodeAppend(a, b);
  }

  lemma IpSize(ip: AllowedIp)
    requires ip.Valid()
    ensures |Encode(IpItems(ip))| <= 44
  {
    hide Encode, U16, U32;
    var a := [Item(WGALLOWEDIP_A_FAMILY, false, U16(ip.family))];
    var b := OptItem(ip.family == AF_INET || ip.family == AF_INET6, WGALLOWEDIP_A_IPADDR, ip.addr);
    var c := [Item(WGALLOWEDIP_A_CIDR_MASK, false, [ip.cidr])];
    var d := OptItem(ip.flags != 0, WGALLOWEDIP_A_FLAGS, U32(ip.flags));
    ListSize(a, 8);
    ListSize(b, 20);
    ListSize(c, 8);
    ListSize(d, 8);
    FourSize(a, b, c, d, 8, 20, 8, 8);
  }

  lemma ScalarSize(s: Scalars)
    requires s.endpoint.Valid()
    ensures |Encode(ScalarItems(s))| <= 76
  {
    hide Encode, U16;
    var a := if s.psk.Some? then [Item(WGPEER_A_PRESHARED_KEY, false, s.psk.value)] else [];
    var b := if s.endpoint.NoEndpoint? then [] else [Item(WGPEER_A_ENDPOINT, false, s.endpoint.addr)];
    var c := if s.keepalive.Some? then [Item(WGPEER_A_PERSISTENT_KEEPALIVE_INTERVAL, false, U16(s.keepalive.value))]
             else [];
    ListSize(a, 36);
    ListSize(b, 32);
    ListSize(c, 8);
    ListSize([], 0);
    FourSize(a, b, c, [], 36, 32, 8, 0);
    assert a + b + c + [] == ScalarItems(s);
  }

  lemma FixedSize(peer: Peer, first: bool)
    requires peer.Valid()
    ensures |Encode(FixedItems(peer, first))| <= 120
  {
    hide Encode, ScalarItems, U32;
    var flags := PeerFlags(peer, first);
    var k := [Item(WGPEER_A_PUBLIC_KEY, false, peer.publicKey)];
    var middle := if first then ScalarItems(peer.scalars) else [];
    var f := OptItem(flags != 0, WGPEER_A_FLAGS, U32(flags));
    ListSize(k, 36);
    ScalarSize(peer.scalars);
    EncodeNone();
    ListSize(f, 8);
    FourSize([], k, middle, f, 0, 36, 76, 8);
    assert [] + k + middle + f == FixedItems(peer, first);
  }

  lemma HeadSize(dev: Device, first: bool)
    requires dev.Valid()
    ensures |Encode(HeadItems(dev, first))| <= 80
  {
    hide Encode, U16, U32;
    var n := [Item(WGDEVICE_A_IFNAME, false, dev.name + [0])];
    ListSize(n, 20);
    if first {
      var a := if dev.privateKey.Some? then [Item(WGDEVICE_A_PRIVATE_KEY, false, dev.privateKey.value)] else [];
      var b := if dev.listenPort.Some? then [Item(WGDEVICE_A_LISTEN_PORT, false, U16(dev.listenPort.value))] else [];
      var c := if dev.fwmark.Some? then [Item(WGDEVICE_A_FWMARK, false, U32(dev.fwmark.value))] else [];
      var d := OptItem(dev.replacePeers, WGDEVICE_A_FLAGS, U32(1));
      ListSize(a, 36);
      ListSize(b, 8);
      ListSize(c, 8);
      ListSize(d, 8);
      FourSize(a, b, c, d, 36, 8, 8, 8);
      EncodeAppend(n, a + b + c + d);
    } else {
      assert HeadItems(dev, first) == n;
    }
  }

  lemma IpRoundTrip(kernel: bool, ip: AllowedIp)
    requires ip.Valid()
    ensures DecodeIp(kernel, Encode(IpItems(ip))) == SeenIp(kernel, ip)
  {
    hide Encode, Walk, Fold, U16, U32;
    IpSize(ip);
    WalkEncode(IpItems(ip));
    FoldFour(IpReader(kernel), NoIp, [Item(WGALLOWEDIP_A_FAMILY, false, U16(ip.family))],
             OptItem(ip.family == AF_INET || ip.family == AF_INET6, WGALLOWEDIP_A_IPADDR, ip.addr),
             [Item(WGALLOWEDIP_A_CIDR_MASK, false, [ip.cidr])],
             OptItem(ip.flags != 0, WGALLOWEDIP_A_FLAGS, U32(ip.flags)));
    ReadU16(ip.family);
    ReadU32(ip.flags);
  }

  lemma ScalarsRoundTrip(kernel: bool, r: Record, s: Scalars)
    requires s.endpoint.Valid() && r.scalars == NoScalars
    ensures Fold(PeerReader(kernel), r, Raws(ScalarItems(s))) == r.(scalars := SeenScalars(kernel, s))
  {
    hide Fold, U16;
    var a := if s.psk.Some? then [Item(WGPEER_A_PRESHARED_KEY, false, s.psk.value)] else [];
    var b := if s.endpoint.NoEndpoint? then [] else [Item(WGPEER_A_ENDPOINT, false, s.endpoint.addr)];
    var c := if s.keepalive.Some? then [Item(WGPEER_A_PERSISTENT_KEEPALIVE_INTERVAL, false, U16(s.keepalive.value))]
             else [];
    FoldFour(PeerReader(kernel), r, a, b, c, []);
    assert a + b + c + [] == ScalarItems(s);
    if s.keepalive.Some? {
      ReadU16(s.keepalive.value);
    }
  }

  lemma FixedRoundTrip(kernel: bool, peer: Peer, first: bool)
    requires peer.Valid()
    ensures Fold(PeerReader(kernel), NoRecord, Raws(FixedItems(peer, first)))
         == PartRecord(kernel, Part(peer, first, [], false))
  {
    hide Fold, U32;
    var read := PeerReader(kernel);
    var flags := PeerFlags(peer, first);
    var a := [Item(WGPEER_A_PUBLIC_KEY, false, peer.publicKey)];
    var b := if first then ScalarItems(peer.scalars) else [];
    var c := OptItem(flags != 0, WGPEER_A_FLAGS, U32(flags));
    RawsAppend(a + b, c);
    RawsAppend(a, b);
    FoldAppend(read, NoRecord, Raws(a) + Raws(b), Raws(c));
    FoldAppend(read, NoRecord, Raws(a), Raws(b));
    FoldOne(read, NoRecord, a);
    var r := Fold(read, NoRecord, Raws(a));
    if first {
      ScalarsRoundTrip(kernel, r, peer.scalars);
    } else {
      FoldOne(read, r, b);
    }
    FoldOne(read, Fold(read, NoRecord, Raws(a) + Raws(b)), c);
    ReadU32(flags);
  }

  lemma {:induction false} EncodeAtLeast(items: seq<Item>, i: nat)
    requires AllValid(items) && i < |items|
    ensures |items[i].data| + 4 <= |Encode(items)|
  {
    if i > 0 {
      EncodeAtLeast(items[1..], i - 1);
    }
  }

  lemma IpsRoundTrip(kernel: bool, ips: seq<AllowedIp>)
    requires forall i :: 0 <= i < |ips| ==> ips[i].Valid()
    requires |Encode(IpsItems(ips))| <= 0xfffc
    ensures DecodeIps(kernel, Walk(Encode(IpsItems(ips)))) == SeenIps(kernel, ips)
  {
    hide Encode, Walk, DecodeIp;
    WalkEncode(IpsItems(ips));
    forall i | 0 <= i < |ips|
      ensures DecodeIp(kernel, Raws(IpsItems(ips))[i].data) == SeenIp(kernel, ips[i])
    {
      IpRoundTrip(kernel, ips[i]);
    }
  }

  lemma PartRoundTrip(kernel: bool, p: Part)
    requires p.Valid() && |Encode(PartItems(p))| <= 0xfffc
    ensures DecodePeer(kernel, Encode(PartItems(p))) == PartRecord(kernel, p)
  {
    hide Encode, Walk, Fold, FixedItems, DecodeIps;
    var read := PeerReader(kernel);
    var fixed := FixedItems(p.peer, p.first);
    var ips := if p.nest then [Item(WGPEER_A_ALLOWEDIPS, true, Encode(IpsItems(p.ips)))] else [];
    WalkEncode(PartItems(p));
    RawsAppend(fixed, ips);
    FoldAppend(read, NoRecord, Raws(fixed), Raws(ips));
    FixedRoundTrip(kernel, p.peer, p.first);
    FoldOne(read, Fold(read, NoRecord, Raws(fixed)), ips);
    if p.nest {
      assert PartItems(p)[|fixed|] == ips[0];
      EncodeAtLeast(PartItems(p), |fixed|);
      IpsRoundTrip(kernel, p.ips);
    }
  }

  function PartRecords(kernel: bool, parts: seq<Part>): (r: seq<Record>)
    ensures |r| == |parts|
  {
    seq(|parts|, i requires 0 <= i < |parts| => PartRecord(kernel, parts[i]))
  }

  lemma PartsRoundTrip(kernel: bool, parts: seq<Part>)
    requires forall i :: 0 <= i < |parts| ==> parts[i].Valid()
    requires |Encode(PartsItems(parts))| <= 0xfffc
    ensures DecodePeers(kernel, Walk(Encode(PartsItems(parts)))) == PartRecords(kernel, parts)
  {
    hide Encode, Walk, DecodePeer, PartRecord, PartItems;
    var items := PartsItems(parts);
    WalkEncode(items);
    forall i | 0 <= i < |parts|
      ensures DecodePeer(kernel, Raws(items)[i].data) == PartRecord(kernel, parts[i])
    {
      assert items[i] == PartItem(parts[i]);
      EncodeAtLeast(items, i);
      PartRoundTrip(kernel, parts[i]);
    }
  }

  /** The request a fragment stands for. */
  function FragmentRequest(kernel: bool, dev: Device, f: Fragment): Request {
    var peers := if dev.peers == [] then [] else PartRecords(kernel, f.parts);
    if f.first then
      Request(dev.privateKey, dev.listenPort, dev.fwmark, if kernel && dev.replacePeers then 1 else 0, peers)
    else NoRequest.(peers := peers)
  }

  lemma HeadRoundTrip(kernel: bool, dev: Device, first: bool)
    ensures Fold(DeviceReader(kernel), NoRequest, Raws(HeadItems(dev, first)))
         == FragmentRequest(kernel, dev, Fragment(first, []))
  {
    hide Fold, U16, U32;
    var read := DeviceReader(kernel);
    var n := [Item(WGDEVICE_A_IFNAME, false, dev.name + [0])];
    FoldOne(read, NoRequest, n);
    if first {
      var a := if dev.privateKey.Some? then [Item(WGDEVICE_A_PRIVATE_KEY, false, dev.privateKey.value)] else [];
      var b := if dev.listenPort.Some? then [Item(WGDEVICE_A_LISTEN_PORT, false, U16(dev.listenPort.value))] else [];
      var c := if dev.fwmark.Some? then [Item(WGDEVICE_A_FWMARK, false, U32(dev.fwmark.value))] else [];
      var d := OptItem(dev.replacePeers, WGDEVICE_A_FLAGS, U32(1));
      RawsAppend(n, a + b + c + d);
      FoldAppend(read, NoRequest, Raws(n), Raws(a + b + c + d));
      FoldFour(read, NoRequest, a, b, c, d);
      if dev.listenPort.Some? {
        ReadU16(dev.listenPort.value);
      }
      if dev.fwmark.Some? {
        ReadU32(dev.fwmark.value);
      }
      ReadU32(1);
    } else {
      assert HeadItems(dev, first) == n;
    }
  }

  lemma MessageRoundTrip(kernel: bool, dev: Device, f: Fragment)
    requires f.Valid() && |Encode(MessageItems(dev, f))| <= 0xfffc
    ensures DecodeMessage(kernel, Encode(MessageItems(dev, f))) == FragmentRequest(kernel, dev, f)
  {
    hide Encode, Walk, Fold, HeadItems, DecodePeers, PartsItems, PartRecords;
    var read := DeviceReader(kernel);
    var head := HeadItems(dev, f.first);
    var peers := if dev.peers == [] then [] else [Item(WGDEVICE_A_PEERS, true, Encode(PartsItems(f.parts)))];
    WalkEncode(MessageItems(dev, f));
    RawsAppend(head, peers);
    FoldAppend(read, NoRequest, Raws(head), Raws(peers));
    HeadRoundTrip(kernel, dev, f.first);
    FoldOne(read, Fold(read, NoRequest, Raws(head)), peers);
    if dev.peers != [] {
      assert MessageItems(dev, f)[|head|] == peers[0];
      EncodeAtLeast(MessageItems(dev, f), |head|);
      PartsRoundTrip(kernel, f.parts);
    }
  }
}
