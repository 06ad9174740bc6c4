/** tunnel/tools/wireguard-tools/src/ipc-linux.h, kernel_set_device: a device configuration
    written into as many messages of one buffer's size as it takes. */
module SetDevice {
  import opened Numbers
  import opened Wrappers
  import opened Netlink
  import opened WgWire

  /** Bytes [0, 2) of an open nest are not written yet; its type is. */
  ghost predicate OpenNest(head: Bytes, kind: uint16) {
    |head| == 4 && kind < 0x4000 && head[2..] == U16(NLA_F_NESTED + kind)
  }

  lemma CloseNest(pre: Bytes, head: Bytes, kind: uint16, content: Bytes)
    requires OpenNest(head, kind) && |content| % 4 == 0 && |content| < 0xfffc
    ensures var body := pre + head + content;
      body[..|pre|] + U16(4 + |content|) + body[|pre| + 2..] == pre + Item(kind, true, content).Bytes()
  {
    hide U16;
    var body := pre + head + content;
    assert body[..|pre|] == pre;
    assert body[|pre| + 2..] == head[2..] + content;
    assert Align(|content|) == |content|;
    assert Zeros(0) == [];
  }

  method StartNest(m: Message, kind: uint16) returns (start: nat, ghost head: Bytes)
    requires m.Valid() && kind < 0x4000 && m.len + 4 <= m.buf.Length
    modifies m, m.buf
    ensures m.Valid() && start == old(m.len) && m.len == start + 4
    ensures OpenNest(head, kind) && m.Body() == old(m.Body()) + head
  {
    hide U16;
    ghost var pre := m.Body();
    start := m.NestStart(kind);
    head := m.Body()[|pre|..];
    assert m.Body() == pre + head;
  }

  method EndNest(m: Message, start: nat, ghost pre: Bytes, ghost head: Bytes, ghost kind: uint16, ghost content: Bytes)
    requires m.Valid() && start == HEADER + |pre| && OpenNest(head, kind)
    requires m.Body() == pre + head + content && |content| % 4 == 0
    modifies m.buf
    ensures m.Body() == pre + Item(kind, true, content).Bytes()
  {
    hide U16, Align;
    assert m.len == start + 4 + |content|;
    CloseNest(pre, head, kind, content);
    m.NestEnd(start);
  }

  /** Put attributes one after the other, stopping at the first that does not fit. */
  method PutList(m: Message, limit: nat, items: seq<Item>) returns (ok: bool)
    requires m.Valid() && limit == m.buf.Length
    requires AllValid(items) && forall i :: 0 <= i < |items| ==> !items[i].nested
    modifies m, m.buf
    ensures m.Valid() && old(m.len) <= m.len
    ensures ok == (old(m.len) + |Encode(items)| <= limit)
    ensures ok ==> m.Body() == old(m.Body()) + Encode(items)
    ensures m.Body()[..old(m.len) - HEADER] == old(m.Body())
  {
    hide Encode;
    ghost var pre := m.Body();
    EncodeNone();
    assert items[..0] == [];
    for i := 0 to |items|
      invariant m.Valid()
      invariant m.len == old(m.len) + |Encode(items[..i])|
      invariant m.Body() == pre + Encode(items[..i])
    {
      assert items[..i + 1] == items[..i] + [items[i]];
      EncodeAppend(items[..i], [items[i]]);
      EncodeOne(items[i]);
      EncodeAppend(items[..i + 1], items[i + 1..]);
      assert items == items[..i + 1] + items[i + 1..];
      var put := m.PutCheck(limit, items[i].kind, items[i].data);
      if !put {
        return false;
      }
      assert m.Body() == pre + (Encode(items[..i]) + items[i].Bytes());
    }
    assert items[..|items|] == items;
    ok := true;
  }

  /** One allowed IP, or nothing when it does not fit. */
  method PutAllowedIp(m: Message, limit: nat, ip: AllowedIp) returns (ok: bool)
    requires m.Valid() && limit == m.buf.Length && ip.Valid()
    modifies m, m.buf
    ensures m.Valid()
    ensures ok == (old(m.len) + |IpItem(ip).Bytes()| <= limit)
    ensures m.Body() == if ok then old(m.Body()) + IpItem(ip).Bytes() else old(m.Body())
  {
    hide Encode, U16, Align;
    ghost var pre := m.Body();
    ghost var content := Encode(IpItems(ip));
    IpSize(ip);
    AlignWhole(|content|);
    if m.len + ATTR_HDRLEN > limit {
      return false;
    }
    var start, head := StartNest(m, 0);
    ok := PutList(m, limit, IpItems(ip));
    if !ok {
      m.NestCancel(start);
      return;
    }
    EndNest(m, start, pre, head, 0, content);
  }

  lemma IpsSnoc(ips: seq<AllowedIp>, from: nat, to: nat)
    requires from <= to < |ips|
    ensures Encode(IpsItems(ips[from..to + 1])) == Encode(IpsItems(ips[from..to])) + IpItem(ips[to]).Bytes()
  {
    hide Encode, IpItem;
    assert IpsItems(ips[from..to + 1]) == IpsItems(ips[from..to]) + [IpItem(ips[to])];
    EncodeAppend(IpsItems(ips[from..to]), [IpItem(ips[to])]);
    EncodeOne(IpItem(ips[to]));
  }

  lemma NoIps(ips: seq<AllowedIp>, from: nat)
    requires from <= |ips|
    ensures IpsItems(ips[from..from]) == []
  {
  }

  /** The attribute with allowed IPs from index `from` on, as many as fit; `to` is the first
      that did not. Without room for the attribute itself, nest is false. */
  method PutAllowedIps(m: Message, limit: nat, ips: seq<AllowedIp>, from: nat) returns (to: nat, nest: bool)
    requires m.Valid() && limit == m.buf.Length && from < |ips|
    requires forall i :: 0 <= i < |ips| ==> ips[i].Valid()
    modifies m, m.buf
    ensures m.Valid() && from <= to <= |ips| && (!nest ==> to == from)
    ensures m.Body() == old(m.Body())
      + if nest then Item(WGPEER_A_ALLOWEDIPS, true, Encode(IpsItems(ips[from..to]))).Bytes() else []
    ensures old(m.len) + 4 + |IpItem(ips[from]).Bytes()| <= limit ==> from < to
  {
    hide Encode, U16, Align, Attr, IpItem, IpsItems;
    to, nest := from, false;
    ghost var pre := m.Body();
    if m.len + ATTR_HDRLEN > limit {
      return;
    }
    nest := true;
    var start, head := StartNest(m, WGPEER_A_ALLOWEDIPS);
    ghost var content: Bytes := [];
    EncodeNone();
    NoIps(ips, from);
    assert m.Body() == pre + head + content;
    var ok := true;
    while ok && to < |ips|
      invariant m.Valid() && start + 4 <= m.len && from <= to <= |ips|
      invariant content == Encode(IpsItems(ips[from..to]))
      invariant m.Body() == pre + head + content
      invariant from == to ==> m.len == start + 4
      invariant !ok && from == to ==> m.len + |IpItem(ips[from]).Bytes()| > limit
      decreases |ips| - to, ok
    {
      ok := PutAllowedIp(m, limit, ips[to]);
      if ok {
        IpsSnoc(ips, from, to);
        content := content + IpItem(ips[to]).Bytes();
        to := to + 1;
      }
    }
    EndNest(m, start, pre, head, WGPEER_A_ALLOWEDIPS, content);
  }

  datatype Placed = NoRoom | Whole | Interrupted

  /** One peer: its fixed attributes on the first appearance, then allowed IPs from `from` on. */
  method PutPeer(m: Message, limit: nat, peer: Peer, first: bool, from: nat)
    returns (placed: Placed, to: nat, nest: bool)
    requires m.Valid() && limit == m.buf.Length && peer.Valid()
    requires if first then from == 0 else from < |peer.ips|
    modifies m, m.buf
    ensures m.Valid() && from <= to <= |peer.ips|
    ensures placed == NoRoom ==> m.Body() == old(m.Body())
    ensures placed == NoRoom ==> old(m.len) + 4 + |Encode(FixedItems(peer, first))| > limit
    ensures placed != NoRoom ==> (placed == Whole <==> to == |peer.ips|) && (!nest ==> from == to)
    ensures placed != NoRoom ==>
      m.Body() == old(m.Body()) + PartItem(Part(peer, first, peer.ips[from..to], nest)).Bytes()
    ensures placed == Interrupted
      ==> old(m.len) + 8 + |Encode(FixedItems(peer, first))| + |IpItem(peer.ips[from]).Bytes()| <= limit ==> from < to
  {
    hide Encode, U16, Align, Attr, IpItem, FixedItems, PartItems, IpsItems;
    placed, to, nest := NoRoom, from, false;
    ghost var pre := m.Body();
    ghost var fixed := Encode(FixedItems(peer, first));
    if m.len + ATTR_HDRLEN > limit {
      return;
    }
    var start, head := StartNest(m, 0);
    FixedNotNested(peer, first);
    var ok := PutList(m, limit, FixedItems(peer, first));
    if !ok {
      m.NestCancel(start);
      return;
    }
    if peer.ips != [] {
      to, nest := PutAllowedIps(m, limit, peer.ips, from);
    }
    placed := if to == |peer.ips| then Whole else Interrupted;
    ghost var part := Part(peer, first, peer.ips[from..to], nest);
    ghost var content := Encode(PartItems(part));
    PartBytes(part);
    assert m.Body() == pre + head + content;
    EndNest(m, start, pre, head, 0, content);
  }

  lemma FixedNotNested(peer: Peer, first: bool)
    ensures forall i :: 0 <= i < |FixedItems(peer, first)| ==> !FixedItems(peer, first)[i].nested
  {
  }

  lemma PartBytes(p: Part)
    ensures Encode(PartItems(p)) == Encode(FixedItems(p.peer, p.first))
      + if p.nest then Item(WGPEER_A_ALLOWEDIPS, true, Encode(IpsItems(p.ips))).Bytes() else []
  {
    hide Encode, FixedItems;
    var ips := if p.nest then [Item(WGPEER_A_ALLOWEDIPS, true, Encode(IpsItems(p.ips)))] else [];
    EncodeAppend(FixedItems(p.peer, p.first), ips);
    if p.nest {
      EncodeOne(ips[0]);
    } else {
      EncodeNone();
    }
  }

  // ---- Resuming: the peer and allowed-IP pointers as indices ----

  /** `ip` is None while the peer's first appearance is still to come. */
  datatype Cursor = Cursor(peer: nat, ip: Option<nat>) {
    predicate Valid(dev: Device) {
      && peer <= |dev.peers|
      && (ip.Some? ==> peer < |dev.peers| && ip.value < |dev.peers[peer].ips|)
    }

    function From(): nat { if ip.Some? then ip.value else 0 }
  }

  /** The cursor after a part, if the part is the continuation the cursor asks for: the same
      peer, its first appearance exactly when due, and the next allowed IPs in order. */
  function Next(dev: Device, c: Cursor, p: Part): Option<Cursor> {
    if c.peer < |dev.peers| && p.peer == dev.peers[c.peer] && p.first == c.ip.None? then
      var ips := dev.peers[c.peer].ips;
      var to := c.From() + |p.ips|;
      if to <= |ips| && p.ips == ips[c.From()..to] then
        Some(if to == |ips| then Cursor(c.peer + 1, None) else Cursor(c.peer, Some(to)))
      else None
    else None
  }

  function Run(dev: Device, c: Cursor, parts: seq<Part>): Option<Cursor> {
    if parts == [] then Some(c)
    else
      var before := Run(dev, c, parts[..|parts| - 1]);
      if before.Some? then Next(dev, before.value, parts[|parts| - 1]) else None
  }

  lemma RunSnoc(dev: Device, c: Cursor, parts: seq<Part>, p: Part)
    ensures Run(dev, c, parts + [p]) ==
      var before := Run(dev, c, parts); if before.Some? then Next(dev, before.value, p) else None
  {
    assert (parts + [p])[..|parts|] == parts;
  }

  lemma RunNone(dev: Device, c: Cursor)
    ensures Run(dev, c, []) == Some(c)
  {
  }

  lemma NextPart(dev: Device, c: Cursor, to: nat, nest: bool)
    requires c.Valid(dev) && c.peer < |dev.peers| && c.From() <= to <= |dev.peers[c.peer].ips|
    ensures var peer := dev.peers[c.peer];
      Next(dev, c, Part(peer, c.ip.None?, peer.ips[c.From()..to], nest))
      == Some(if to == |peer.ips| then Cursor(c.peer + 1, None) else Cursor(c.peer, Some(to)))
  {
  }

  lemma {:induction false} RunAppend(dev: Device, c: Cursor, s: seq<Part>, t: seq<Part>)
    requires Run(dev, c, s).Some?
    ensures Run(dev, c, s + t) == Run(dev, Run(dev, c, s).value, t)
    decreases |t|
  {
    if t == [] {
      assert s + t == s;
    } else {
      var n := |t| - 1;
      assert s + t == (s + t[..n]) + [t[n]];
      RunAppend(dev, c, s, t[..n]);
      RunSnoc(dev, c, s + t[..n], t[n]);
    }
  }

  /** Parts that can be sent: valid, and never a continuation without an allowed IP. */
  ghost predicate Sendable(parts: seq<Part>) {
    forall i :: 0 <= i < |parts| ==> parts[i].Valid() && (!parts[i].first ==> parts[i].ips != [])
  }

  predicate Advances(c: Cursor, c': Cursor) {
    c.peer < c'.peer || (c.peer == c'.peer && c'.ip.Some? && c.From() < c'.ip.value)
  }

  /** Room for one peer's fixed attributes, the two nests around them and one allowed IP. */
  const PEER_ROOM: nat := 180

  method PutPeers(m: Message, limit: nat, dev: Device, c: Cursor) returns (c': Cursor, ghost parts: seq<Part>)
    requires m.Valid() && limit == m.buf.Length && dev.Valid()
    requires c.Valid(dev) && c.peer < |dev.peers| && m.len + PEER_ROOM <= limit
    modifies m, m.buf
    ensures m.Valid() && c'.Valid(dev) && Advances(c, c')
    ensures Sendable(parts) && Run(dev, c, parts) == Some(c')
    ensures m.Body() == old(m.Body()) + Item(WGDEVICE_A_PEERS, true, Encode(PartsItems(parts))).Bytes()
  {
    hide Encode, U16, Align, Attr, PartItem, PartsItems, FixedItems, IpItem, Run, Next;
    ghost var pre := m.Body();
    var start, head := StartNest(m, WGDEVICE_A_PEERS);
    RunNone(dev, c);
    ghost var content: Bytes := [];
    parts := [];
    c' := c;
    EncodeNone();
    NoParts();
    FirstFits(dev.peers[c.peer], c.ip.None?, c.From());
    assert m.Body() == pre + head + content;
    var open := true;
    while open && c'.peer < |dev.peers|
      invariant m.Valid() && c'.Valid(dev)
      invariant Sendable(parts) && Run(dev, c, parts) == Some(c')
      invariant content == Encode(PartsItems(parts)) && m.Body() == pre + head + content
      invariant (c' == c && open && m.len == start + 4) || Advances(c, c')
      invariant open && c' != c ==> c'.ip.None?
      decreases |dev.peers| - c'.peer, open
    {
      var peer, first, from := dev.peers[c'.peer], c'.ip.None?, c'.From();
      var placed, to, nest := PutPeer(m, limit, peer, first, from);
      if placed == NoRoom {
        open := false;
      } else {
        ghost var part := Part(peer, first, peer.ips[from..to], nest);
        RunSnoc(dev, c, parts, part);
        NextPart(dev, c', to, nest);
        PartsSnoc(parts, part);
        content := content + PartItem(part).Bytes();
        parts := parts + [part];
        if placed == Whole {
          c' := Cursor(c'.peer + 1, None);
        } else {
          c' := Cursor(c'.peer, Some(to));
          open := false;
        }
      }
    }
    EndNest(m, start, pre, head, WGDEVICE_A_PEERS, content);
  }

  lemma NoParts()
    ensures PartsItems([]) == []
  {
  }

  lemma PartsSnoc(parts: seq<Part>, p: Part)
    ensures Encode(PartsItems(parts + [p])) == Encode(PartsItems(parts)) + PartItem(p).Bytes()
  {
    hide Encode, PartItem;
    assert PartsItems(parts + [p]) == PartsItems(parts) + [PartItem(p)];
    EncodeAppend(PartsItems(parts), [PartItem(p)]);
    EncodeOne(PartItem(p));
  }

  lemma FirstFits(peer: Peer, first: bool, from: nat)
    requires peer.Valid()
    ensures 8 + |Encode(FixedItems(peer, first))| <= 128
    ensures from < |peer.ips| ==> |IpItem(peer.ips[from]).Bytes()| <= 48
  {
    FixedSize(peer, first);
    if from < |peer.ips| {
      IpSize(peer.ips[from]);
      AlignWhole(|IpItem(peer.ips[from]).data|);
    }
  }

  /** The device attributes, put without checking: the caller vouches for the space. */
  method PutHead(m: Message, items: seq<Item>)
    requires m.Valid() && AllValid(items) && m.len + |Encode(items)| <= m.buf.Length
    requires forall i :: 0 <= i < |items| ==> !items[i].nested
    modifies m, m.buf
    ensures m.Valid() && m.Body() == old(m.Body()) + Encode(items)
  {
    hide Encode, Attr, Align;
    ghost var pre := m.Body();
    EncodeNone();
    assert items[..0] == [];
    for i := 0 to |items|
      invariant m.Valid() && m.len == old(m.len) + |Encode(items[..i])|
      invariant m.Body() == pre + Encode(items[..i])
    {
      assert items[..i + 1] == items[..i] + [items[i]];
      EncodeAppend(items[..i], [items[i]]);
      EncodeOne(items[i]);
      EncodeAppend(items[..i + 1], items[i + 1..]);
      assert items == items[..i + 1] + items[i + 1..];
      m.Put(items[i].kind, items[i].data);
      assert m.Body() == pre + (Encode(items[..i]) + items[i].Bytes());
    }
    assert items[..|items|] == items;
  }

  lemma HeadNotNested(dev: Device, first: bool)
    ensures forall i :: 0 <= i < |HeadItems(dev, first)| ==> !HeadItems(dev, first)[i].nested
  {
  }

  function AllParts(frags: seq<Fragment>): seq<Part> {
    if frags == [] then [] else AllParts(frags[..|frags| - 1]) + frags[|frags| - 1].parts
  }

  /** Both headers, the device attributes, and room for the first peer and allowed IP. */
  const MIN_BUFFER: nat := HEADER + 80 + PEER_ROOM

  /** The messages kernel_set_device sends, and what is in them. */
  ghost predicate Sent(dev: Device, size: nat, bodies: seq<Bytes>, frags: seq<Fragment>) {
    && |bodies| == |frags|
    && (forall i :: 0 <= i < |frags| ==>
        && frags[i].Valid() && (frags[i].first <==> i == 0)
        && bodies[i] == Encode(MessageItems(dev, frags[i])) && HEADER + |bodies[i]| <= size)
    && Sendable(AllParts(frags))
  }

  /** One message: device attributes if it is the first, and peers from the cursor on. */
  method OneMessage(m: Message, size: nat, dev: Device, c: Cursor, first: bool) returns (c': Cursor, ghost f: Fragment)
    requires dev.Valid() && MIN_BUFFER <= size <= 8192 && m.buf.Length == size
    requires c.Valid(dev) && (dev.peers != [] ==> c.peer < |dev.peers|)
    modifies m, m.buf
    ensures m.Valid() && m.Body() == Encode(MessageItems(dev, f))
    ensures f.first == first && Sendable(f.parts) && Run(dev, c, f.parts) == Some(c')
    ensures c'.Valid(dev) && if dev.peers == [] then c' == c else Advances(c, c')
  {
    hide Encode, Run, Next, HeadItems, MessageItems, Attr, PartsItems;
    m.Prepare();
    HeadSize(dev, first);
    HeadNotNested(dev, first);
    PutHead(m, HeadItems(dev, first));
    ghost var parts: seq<Part> := [];
    c' := c;
    RunNone(dev, c);
    if dev.peers != [] {
      c', parts := PutPeers(m, size, dev, c);
    }
    f := Fragment(first, parts);
    MessageBytes(dev, f);
  }

  method KernelSetDevice(dev: Device, size: nat) returns (bodies: seq<Bytes>, ghost frags: seq<Fragment>)
    requires dev.Valid() && MIN_BUFFER <= size <= 8192
    ensures bodies != [] && Sent(dev, size, bodies, frags)
    ensures Run(dev, Cursor(0, None), AllParts(frags)) == Some(Cursor(|dev.peers|, None))
  {
    hide Encode, Run, Next, MessageItems;
    var m := new Message(size);
    var c := Cursor(0, None);
    bodies, frags := [], [];
    ghost var start := c;
    RunNone(dev, start);
    var again := true;
    while again
      invariant m.buf.Length == size && fresh(m) && fresh(m.buf)
      invariant c.Valid(dev) && Sent(dev, size, bodies, frags)
      invariant Run(dev, start, AllParts(frags)) == Some(c)
      invariant again ==> c.peer < |dev.peers| || bodies == []
      invariant !again ==> c == Cursor(|dev.peers|, None) && bodies != []
      decreases again, |dev.peers| - c.peer, if c.peer < |dev.peers| then |dev.peers[c.peer].ips| - c.From() else 0
    {
      var c', f := OneMessage(m, size, dev, c, bodies == []);
      RunAppend(dev, start, AllParts(frags), f.parts);
      SentSnoc(dev, size, bodies, frags, m.buf[HEADER..m.len], f);
      bodies := bodies + [m.buf[HEADER..m.len]];
      frags := frags + [f];
      c := c';
      again := c.peer < |dev.peers|;
    }
  }

  lemma MessageBytes(dev: Device, f: Fragment)
    ensures Encode(MessageItems(dev, f)) == Encode(HeadItems(dev, f.first))
      + if dev.peers == [] then [] else Item(WGDEVICE_A_PEERS, true, Encode(PartsItems(f.parts))).Bytes()
  {
    hide Encode, HeadItems, PartsItems;
    var peers := if dev.peers == [] then [] else [Item(WGDEVICE_A_PEERS, true, Encode(PartsItems(f.parts)))];
    EncodeAppend(HeadItems(dev, f.first), peers);
    EncodeNone();
    if peers != [] {
      EncodeOne(peers[0]);
    }
  }

  lemma SentSnoc(dev: Device, size: nat, bodies: seq<Bytes>, frags: seq<Fragment>, body: Bytes, f: Fragment)
    requires Sent(dev, size, bodies, frags) && Sendable(f.parts)
    requires f.first <==> bodies == []
    requires body == Encode(MessageItems(dev, f)) && HEADER + |body| <= size
    ensures Sent(dev, size, bodies + [body], frags + [f])
    ensures AllParts(frags + [f]) == AllParts(frags) + f.parts
  {
    hide Encode, MessageItems;
    assert (frags + [f])[..|frags|] == frags;
  }

  lemma SentPrefix(dev: Device, size: nat, bodies: seq<Bytes>, frags: seq<Fragment>)
    requires Sent(dev, size, bodies, frags) && bodies != []
    ensures Sent(dev, size, bodies[..|bodies| - 1], frags[..|frags| - 1])
    ensures AllParts(frags) == [] ==> AllParts(frags[..|frags| - 1]) == []
  {
    hide Encode, MessageItems, AllParts;
    var n := |frags| - 1;
    AllPartsSplit(frags);
    SendablePrefix(AllParts(frags[..n]), frags[n].parts);
  }

  lemma AllPartsSplit(frags: seq<Fragment>)
    requires frags != []
    ensures AllParts(frags) == AllParts(frags[..|frags| - 1]) + frags[|frags| - 1].parts
  {
  }

  lemma SendablePrefix(s: seq<Part>, t: seq<Part>)
    requires Sendable(s + t)
    ensures Sendable(s)
  {
    forall i | 0 <= i < |s|
      ensures s[i].Valid() && (!s[i].first ==> s[i].ips != [])
    {
      assert (s + t)[i] == s[i];
    }
  }

  lemma NoPeersNoParts(dev: Device, parts: seq<Part>)
    requires Run(dev, Cursor(0, None), parts).Some?
    ensures dev.peers == [] ==> parts == []
  {
  }
}
