/** Parsing what toWgQuickString printed gives the configuration back. */
module ConfigRoundTrip {
  import opened Wrappers
  import opened ConfigText
  import opened WgConfig

  // ---- What a built configuration is like ----

  /** Printed values that their parser reads as themselves. */
  ghost predicate Texts(f: string -> Option<string>, xs: seq<string>) {
    Items(xs) && Distinct(xs) && forall k :: 0 <= k < |xs| ==> f(xs[k]) == Some(xs[k])
  }

  ghost predicate Text(f: string -> Option<string>, x: string) { ValueText(x) && f(x) == Some(x) }

  ghost predicate Domains(leaves: Leaves, xs: seq<string>) {
    Items(xs) && Distinct(xs) && forall k :: 0 <= k < |xs| ==> leaves.address(xs[k]) == None && leaves.hostname(xs[k])
  }

  predicate InRange(n: Option<int>, max: int) { n.Some? ==> 0 < n.value <= max }

  ghost predicate BuiltInterface(leaves: Leaves, i: Interface) {
    && Texts(leaves.network, i.addresses) && Texts(leaves.address, i.dnsServers) && Domains(leaves, i.searchDomains)
    && Items(i.excluded) && Distinct(i.excluded) && Items(i.included) && Distinct(i.included)
    && (i.included == [] || i.excluded == []) && Text(leaves.key, i.privateKey)
    && InRange(i.listenPort, 65535) && InRange(i.mtu, MAX_INT)
  }

  ghost predicate BuiltPeer(leaves: Leaves, p: Peer) {
    && Texts(leaves.network, p.allowedIps) && (p.endpoint.Some? ==> Text(leaves.endpoint, p.endpoint.value))
    && InRange(p.keepalive, 65535) && (p.preSharedKey.Some? ==> Text(leaves.key, p.preSharedKey.value))
    && Text(leaves.key, p.publicKey)
  }

  ghost predicate Built(leaves: Leaves, c: Config) {
    && leaves.Faithful() && BuiltInterface(leaves, c.interface)
    && forall k :: 0 <= k < |c.peers| ==> BuiltPeer(leaves, c.peers[k])
  }

  // ---- One line ----

  lemma InterfaceLine(leaves: Leaves, b: InterfaceParts, a: Attr, v: string)
    requires ValueText(v)
    ensures Fold(InterfaceReader(leaves), b, [AttrLine(a, v)]) == SetInterface(leaves, b, a, v)
  {
    hide ParseAttribute, AttrOf, NameOf, SetInterface, Fold;
    NameRoundTrip(a);
    ParseAttributeLine(NameOf(a), v);
    FoldOne(InterfaceReader(leaves), b, AttrLine(a, v));
  }

  lemma PeerLine(leaves: Leaves, b: PeerParts, a: Attr, v: string)
    requires ValueText(v)
    ensures Fold(PeerReader(leaves), b, [AttrLine(a, v)]) == SetPeer(leaves, b, a, v)
  {
    hide ParseAttribute, AttrOf, NameOf, SetPeer, Fold;
    NameRoundTrip(a);
    ParseAttributeLine(NameOf(a), v);
    FoldOne(PeerReader(leaves), b, AttrLine(a, v));
  }

  // ---- Lists ----

  lemma {:induction false} ParseTexts(f: string -> Option<string>, xs: seq<string>)
    requires forall k :: 0 <= k < |xs| ==> f(xs[k]) == Some(xs[k])
    ensures ParseAll(f, xs) == Some(xs)
  {
    if xs != [] {
      ParseTexts(f, xs[1..]);
      assert [xs[0]] + xs[1..] == xs;
    }
  }

  lemma ListValue(xs: seq<string>)
    requires xs != [] && Items(xs)
    ensures ValueText(JoinWith(", ", xs)) && Split(JoinWith(", ", xs)) == xs
  {
    JoinIsValue(", ", xs);
    SplitJoin(", ", xs);
  }

  lemma AddToNone(xs: seq<string>)
    requires Distinct(xs)
    ensures AddAll([], xs) == xs
  {
    assert [] + xs == xs;
    AddDistinct([], xs);
  }

  lemma {:induction false} DnsDomains(leaves: Leaves, b: InterfaceParts, xs: seq<string>)
    requires forall k :: 0 <= k < |xs| ==> leaves.address(xs[k]) == None && leaves.hostname(xs[k])
    ensures AddDns(leaves, b, xs) == Some(b.(searchDomains := AddAll(b.searchDomains, xs)))
    decreases |xs|
  {
    if xs != [] {
      DnsDomains(leaves, b.(searchDomains := AddNew(b.searchDomains, xs[0])), xs[1..]);
    }
  }

  lemma {:induction false} DnsServers(leaves: Leaves, b: InterfaceParts, xs: seq<string>, ys: seq<string>)
    requires forall k :: 0 <= k < |xs| ==> leaves.address(xs[k]) == Some(xs[k])
    requires forall k :: 0 <= k < |ys| ==> leaves.address(ys[k]) == None && leaves.hostname(ys[k])
    ensures AddDns(leaves, b, xs + ys)
         == Some(b.(dnsServers := AddAll(b.dnsServers, xs), searchDomains := AddAll(b.searchDomains, ys)))
    decreases |xs|
  {
    if xs == [] {
      assert xs + ys == ys;
      DnsDomains(leaves, b, ys);
    } else {
      assert (xs + ys)[1..] == xs[1..] + ys;
      DnsServers(leaves, b.(dnsServers := AddNew(b.dnsServers, xs[0])), xs[1..], ys);
    }
  }

  lemma ItemsAppend(xs: seq<string>, ys: seq<string>)
    requires Items(xs) && Items(ys)
    ensures Items(xs + ys)
  {
  }

  // ---- The fields of an interface ----

  lemma ReadAddresses(leaves: Leaves, b: InterfaceParts, xs: seq<string>)
    requires Texts(leaves.network, xs) && b.addresses == []
    ensures Fold(InterfaceReader(leaves), b, OptLine(xs != [], Address, JoinWith(", ", xs)))
         == Some(b.(addresses := xs))
  {
    hide Fold, Split, JoinWith, Items, Item, ValueText, AddAll;
    if xs == [] {
      FoldOne(InterfaceReader(leaves), b, "");
    } else {
      ListValue(xs);
      InterfaceLine(leaves, b, Address, JoinWith(", ", xs));
      ParseTexts(leaves.network, xs);
      AddToNone(xs);
    }
  }

  lemma ReadDns(leaves: Leaves, b: InterfaceParts, xs: seq<string>, ys: seq<string>)
    requires Texts(leaves.address, xs) && Domains(leaves, ys) && b.dnsServers == b.searchDomains == []
    ensures Fold(InterfaceReader(leaves), b, OptLine(xs != [], Dns, JoinWith(", ", xs + ys)))
         == Some(b.(dnsServers := xs, searchDomains := if xs == [] then [] else ys))
  {
    hide Fold, Split, JoinWith, Items, Item, ValueText, AddAll;
    if xs == [] {
      FoldOne(InterfaceReader(leaves), b, "");
    } else {
      ItemsAppend(xs, ys);
      ListValue(xs + ys);
      InterfaceLine(leaves, b, Dns, JoinWith(", ", xs + ys));
      DnsServers(leaves, b, xs, ys);
      AddToNone(xs);
      AddToNone(ys);
    }
  }

  lemma ReadApps(leaves: Leaves, b: InterfaceParts, xs: seq<string>)
    requires Items(xs) && Distinct(xs)
    ensures b.excluded == [] ==>
      Fold(InterfaceReader(leaves), b, OptLine(xs != [], Excluded, JoinWith(", ", xs))) == Some(b.(excluded := xs))
    ensures b.included == [] ==>
      Fold(InterfaceReader(leaves), b, OptLine(xs != [], Included, JoinWith(", ", xs))) == Some(b.(included := xs))
  {
    hide Fold, Split, JoinWith, Items, Item, ValueText, AddAll;
    if xs == [] {
      FoldOne(InterfaceReader(leaves), b, "");
    } else {
      ListValue(xs);
      InterfaceLine(leaves, b, Excluded, JoinWith(", ", xs));
      InterfaceLine(leaves, b, Included, JoinWith(", ", xs));
      AddToNone(xs);
    }
  }

  lemma ReadNumbers(leaves: Leaves, b: InterfaceParts, n: Option<int>)
    requires leaves.Faithful()
    ensures InRange(n, 65535) && b.listenPort == None ==>
      Fold(InterfaceReader(leaves), b, NumberLine(leaves, ListenPort, n)) == Some(b.(listenPort := n))
    ensures InRange(n, MAX_INT) && b.mtu == None ==>
      Fold(InterfaceReader(leaves), b, NumberLine(leaves, Mtu, n)) == Some(b.(mtu := n))
  {
    hide Fold, ValueText;
    if n.None? {
      FoldOne(InterfaceReader(leaves), b, "");
    } else if 0 < n.value <= MAX_INT {
      InterfaceLine(leaves, b, ListenPort, leaves.numberText(n.value));
      InterfaceLine(leaves, b, Mtu, leaves.numberText(n.value));
    }
  }

  lemma FoldThen<B>(step: (B, string) -> Option<B>, b: B, s: seq<string>, t: seq<string>, m: B)
    requires Fold(step, b, s) == Some(m)
    ensures Fold(step, b, s + t) == Fold(step, m, t)
  {
    FoldAppend(step, b, s, t);
  }

  /** Search domains without a server are not printed. */
  function Kept(i: Interface): Interface { if i.dnsServers == [] then i.(searchDomains := []) else i }

  lemma InterfaceRoundTrip(leaves: Leaves, i: Interface)
    requires leaves.Faithful() && BuiltInterface(leaves, i)
    ensures InterfaceOf(leaves, InterfaceLines(leaves, i)) == Some(Kept(i))
  {
    hide Fold, OptLine, NumberLine, JoinWith, Texts, Domains, Items, Distinct, ValueText;
    var step := InterfaceReader(leaves);
    var l7 := [AttrLine(PrivateKey, i.privateKey)];
    var l6 := NumberLine(leaves, Mtu, i.mtu) + l7;
    var l5 := NumberLine(leaves, ListenPort, i.listenPort) + l6;
    var l4 := OptLine(i.included != [], Included, JoinWith(", ", i.included)) + l5;
    var l3 := OptLine(i.excluded != [], Excluded, JoinWith(", ", i.excluded)) + l4;
    var l2 := OptLine(i.dnsServers != [], Dns, JoinWith(", ", i.dnsServers + i.searchDomains)) + l3;
    var b1 := NoInterface.(addresses := i.addresses);
    ReadAddresses(leaves, NoInterface, i.addresses);
    FoldThen(step, NoInterface, OptLine(i.addresses != [], Address, JoinWith(", ", i.addresses)), l2, b1);
    var b2 := b1.(dnsServers := i.dnsServers, searchDomains := Kept(i).searchDomains);
    ReadDns(leaves, b1, i.dnsServers, i.searchDomains);
    FoldThen(step, b1, OptLine(i.dnsServers != [], Dns, JoinWith(", ", i.dnsServers + i.searchDomains)), l3, b2);
    var b3 := b2.(excluded := i.excluded);
    ReadApps(leaves, b2, i.excluded);
    FoldThen(step, b2, OptLine(i.excluded != [], Excluded, JoinWith(", ", i.excluded)), l4, b3);
    var b4 := b3.(included := i.included);
    ReadApps(leaves, b3, i.included);
    FoldThen(step, b3, OptLine(i.included != [], Included, JoinWith(", ", i.included)), l5, b4);
    var b5 := b4.(listenPort := i.listenPort);
    ReadNumbers(leaves, b4, i.listenPort);
    FoldThen(step, b4, NumberLine(leaves, ListenPort, i.listenPort), l6, b5);
    var b6 := b5.(mtu := i.mtu);
    ReadNumbers(leaves, b5, i.mtu);
    FoldThen(step, b5, NumberLine(leaves, Mtu, i.mtu), l7, b6);
    InterfaceLine(leaves, b6, PrivateKey, i.privateKey);
  }

  // ---- The fields of a peer ----

  lemma ReadAllowedIps(leaves: Leaves, b: PeerParts, xs: seq<string>)
    requires Texts(leaves.network, xs) && b.allowedIps == []
    ensures Fold(PeerReader(leaves), b, OptLine(xs != [], AllowedIps, JoinWith(", ", xs))) == Some(b.(allowedIps := xs))
  {
    hide Fold, Split, JoinWith, Items, Item, ValueText, AddAll;
    if xs == [] {
      FoldOne(PeerReader(leaves), b, "");
    } else {
      ListValue(xs);
      PeerLine(leaves, b, AllowedIps, JoinWith(", ", xs));
      ParseTexts(leaves.network, xs);
      AddToNone(xs);
    }
  }

  lemma ReadEndpoint(leaves: Leaves, b: PeerParts, e: Option<string>)
    requires b.endpoint == None && (e.Some? ==> Text(leaves.endpoint, e.value))
    ensures Fold(PeerReader(leaves), b, if e.Some? then [AttrLine(Endpoint, e.value)] else [])
         == Some(b.(endpoint := e))
  {
    hide Fold, ValueText;
    if e.Some? {
      PeerLine(leaves, b, Endpoint, e.value);
    } else {
      FoldOne(PeerReader(leaves), b, "");
    }
  }

  lemma ReadKeepalive(leaves: Leaves, b: PeerParts, n: Option<int>)
    requires leaves.Faithful() && InRange(n, 65535) && b.keepalive == None
    ensures Fold(PeerReader(leaves), b, NumberLine(leaves, Keepalive, n)) == Some(b.(keepalive := n))
  {
    hide Fold, ValueText;
    if n.Some? {
      PeerLine(leaves, b, Keepalive, leaves.numberText(n.value));
    } else {
      FoldOne(PeerReader(leaves), b, "");
    }
  }

  lemma ReadPreSharedKey(leaves: Leaves, b: PeerParts, k: Option<string>)
    requires b.preSharedKey == None && (k.Some? ==> Text(leaves.key, k.value))
    ensures Fold(PeerReader(leaves), b, if k.Some? then [AttrLine(PreSharedKey, k.value)] else [])
         == Some(b.(preSharedKey := k))
  {
    hide Fold, ValueText;
    if k.Some? {
      PeerLine(leaves, b, PreSharedKey, k.value);
    } else {
      FoldOne(PeerReader(leaves), b, "");
    }
  }

  lemma PeerRoundTrip(leaves: Leaves, p: Peer)
    requires leaves.Faithful() && BuiltPeer(leaves, p)
    ensures PeerOf(leaves, PeerLines(leaves, p)) == Some(p)
  {
    hide Fold, OptLine, NumberLine, JoinWith, Texts, ValueText;
    var step := PeerReader(leaves);
    var l5 := [AttrLine(PublicKey, p.publicKey)];
    var psk := if p.preSharedKey.Some? then [AttrLine(PreSharedKey, p.preSharedKey.value)] else [];
    var l4 := psk + l5;
    var l3 := NumberLine(leaves, Keepalive, p.keepalive) + l4;
    var endpoint := if p.endpoint.Some? then [AttrLine(Endpoint, p.endpoint.value)] else [];
    var l2 := endpoint + l3;
    var b1 := NoPeer.(allowedIps := p.allowedIps);
    ReadAllowedIps(leaves, NoPeer, p.allowedIps);
    FoldThen(step, NoPeer, OptLine(p.allowedIps != [], AllowedIps, JoinWith(", ", p.allowedIps)), l2, b1);
    var b2 := b1.(endpoint := p.endpoint);
    ReadEndpoint(leaves, b1, p.endpoint);
    FoldThen(step, b1, endpoint, l3, b2);
    var b3 := b2.(keepalive := p.keepalive);
    ReadKeepalive(leaves, b2, p.keepalive);
    FoldThen(step, b2, NumberLine(leaves, Keepalive, p.keepalive), l4, b3);
    var b4 := b3.(preSharedKey := p.preSharedKey);
    ReadPreSharedKey(leaves, b3, p.preSharedKey);
    FoldThen(step, b3, psk, l5, b4);
    PeerLine(leaves, b4, PublicKey, p.publicKey);
  }

  // ---- Sections ----

  /** A line that is taken as it stands. */
  predicate Plain(l: string) { CleanLine(l) == l && l != "" && !Header(l) && OneLine(l) }

  predicate AllPlain(ls: seq<string>) { forall k :: 0 <= k < |ls| ==> Plain(ls[k]) }

  lemma AttrLinePlain(a: Attr, v: string)
    requires ValueText(v)
    ensures Plain(AttrLine(a, v))
  {
    hide NameOf;
    NameIsWord(a);
    AttributeLineIsTidy(NameOf(a), v);
  }

  /** An attribute line as it is printed. */
  ghost predicate Written(l: string) { exists a, v :: ValueText(v) && l == AttrLine(a, v) }

  ghost predicate AllWritten(ls: seq<string>) { forall k :: 0 <= k < |ls| ==> Written(ls[k]) }

  lemma AttrLineWritten(a: Attr, v: string)
    requires ValueText(v)
    ensures Written(AttrLine(a, v))
  {
  }

  lemma WrittenPlain(ls: seq<string>)
    requires AllWritten(ls)
    ensures AllPlain(ls)
  {
    hide Plain, ValueText, AttrLine;
    forall k | 0 <= k < |ls| ensures Plain(ls[k]) {
      assert Written(ls[k]);
      var a, v :| ValueText(v) && ls[k] == AttrLine(a, v);
      AttrLinePlain(a, v);
    }
  }

  lemma ListWritten(a: Attr, xs: seq<string>)
    requires Items(xs)
    ensures xs != [] ==> Written(AttrLine(a, JoinWith(", ", xs)))
  {
    hide Written, Items;
    if xs != [] {
      JoinIsValue(", ", xs);
      AttrLineWritten(a, JoinWith(", ", xs));
    }
  }

  lemma NumberWritten(leaves: Leaves, a: Attr, n: Option<int>)
    requires leaves.Faithful() && InRange(n, MAX_INT)
    ensures AllWritten(NumberLine(leaves, a, n))
  {
    hide Written, ValueText;
    if n.Some? {
      AttrLineWritten(a, leaves.numberText(n.value));
    }
  }

  lemma InterfaceLinesWritten(leaves: Leaves, i: Interface)
    requires leaves.Faithful() && BuiltInterface(leaves, i)
    ensures AllWritten(InterfaceLines(leaves, i))
  {
    hide Written, ValueText, JoinWith, Items, Distinct, NumberLine, AttrLine;
    ListWritten(Address, i.addresses);
    ItemsAppend(i.dnsServers, i.searchDomains);
    ListWritten(Dns, i.dnsServers + i.searchDomains);
    ListWritten(Excluded, i.excluded);
    ListWritten(Included, i.included);
    NumberWritten(leaves, ListenPort, i.listenPort);
    NumberWritten(leaves, Mtu, i.mtu);
    AttrLineWritten(PrivateKey, i.privateKey);
  }

  lemma PeerLinesWritten(leaves: Leaves, p: Peer)
    requires leaves.Faithful() && BuiltPeer(leaves, p)
    ensures AllWritten(PeerLines(leaves, p))
  {
    hide Written, ValueText, JoinWith, Items, Distinct, NumberLine, AttrLine;
    ListWritten(AllowedIps, p.allowedIps);
    if p.endpoint.Some? {
      AttrLineWritten(Endpoint, p.endpoint.value);
    }
    NumberWritten(leaves, Keepalive, p.keepalive);
    if p.preSharedKey.Some? {
      AttrLineWritten(PreSharedKey, p.preSharedKey.value);
    }
    AttrLineWritten(PublicKey, p.publicKey);
  }

  lemma {:induction false} ReadPlain(leaves: Leaves, r: Reading, ls: seq<string>)
    requires AllPlain(ls) && (r.inInterface || r.inPeer)
    ensures Fold(LineReader(leaves), r, ls)
         == Some(if r.inInterface then r.(interfaceLines := r.interfaceLines + ls)
                 else r.(peerLines := r.peerLines + ls))
    decreases |ls|
  {
    hide CleanLine;
    if ls == [] {
      assert r.interfaceLines + ls == r.interfaceLines && r.peerLines + ls == r.peerLines;
    } else {
      var l := ls[0];
      assert Plain(l);
      var r' := if r.inInterface then r.(interfaceLines := r.interfaceLines + [l])
                else r.(peerLines := r.peerLines + [l]);
      ReadPlain(leaves, r', ls[1..]);
      assert r.interfaceLines + [l] + ls[1..] == r.interfaceLines + ls;
      assert r.peerLines + [l] + ls[1..] == r.peerLines + ls;
    }
  }

  lemma Headers()
    ensures CleanLine("") == "" && CleanLine(PEER_HEADER) == PEER_HEADER
    ensures CleanLine(INTERFACE_HEADER) == INTERFACE_HEADER
    ensures Header(PEER_HEADER) && Header(INTERFACE_HEADER) && !SameText(PEER_HEADER, INTERFACE_HEADER)
    ensures OneLine(PEER_HEADER) && OneLine(INTERFACE_HEADER) && OneLine("")
  {
    hide CleanLine, Tidy, OneLine, LowerText;
    EmptyLine();
    TidyHeaders();
    TidyIsClean(PEER_HEADER);
    TidyIsClean(INTERFACE_HEADER);
    assert |LowerText(PEER_HEADER)| == 6 && |LowerText(INTERFACE_HEADER)| == 11;
  }

  lemma EmptyLine()
    ensures CleanLine("") == "" && OneLine("")
  {
  }

  lemma TidyHeaders()
    ensures Tidy(PEER_HEADER) && Tidy(INTERFACE_HEADER) && OneLine(PEER_HEADER) && OneLine(INTERFACE_HEADER)
  {
  }

  lemma PeerHeader(leaves: Leaves, r: Reading)
    requires EndSection(leaves, r).Some?
    ensures Fold(LineReader(leaves), r, ["", PEER_HEADER])
         == Some(EndSection(leaves, r).value.(inInterface := false, inPeer := true))
  {
    hide CleanLine, EndSection, SameText;
    Headers();
    var ls := ["", PEER_HEADER];
    assert SameText(PEER_HEADER, PEER_HEADER) by {
      Reflexive(PEER_HEADER);
    }
    assert ls == ls[0..] && ls[2..] == [];
    FoldStep(LineReader(leaves), r, ls, 0);
    FoldStep(LineReader(leaves), r, ls, 1);
  }

  lemma Reflexive(s: string)
    ensures SameText(s, s)
  {
  }

  /** The loop's variables after the interface and these peers: the last peer is still unread. */
  function AfterPeers(leaves: Leaves, lines: seq<string>, peers: seq<Peer>): Reading {
    if peers == [] then Reading([], lines, [], true, false, true)
    else
      var n := |peers| - 1;
      Reading(peers[..n], lines, PeerLines(leaves, peers[n]), false, true, true)
  }

  lemma EndOfPeers(leaves: Leaves, lines: seq<string>, peers: seq<Peer>)
    requires leaves.Faithful() && forall k :: 0 <= k < |peers| ==> BuiltPeer(leaves, peers[k])
    ensures var r := EndSection(leaves, AfterPeers(leaves, lines, peers));
      && r.Some? && r.value.peers == peers && r.value.peerLines == []
      && r.value.interfaceLines == lines && r.value.seenInterface
  {
    hide PeerOf, PeerLines, BuiltPeer;
    if peers != [] {
      var n := |peers| - 1;
      PeerRoundTrip(leaves, peers[n]);
      assert peers[..n] + [peers[n]] == peers;
    }
  }

  lemma {:induction false} ReadPeers(leaves: Leaves, lines: seq<string>, peers: seq<Peer>)
    requires leaves.Faithful() && forall k :: 0 <= k < |peers| ==> BuiltPeer(leaves, peers[k])
    ensures Fold(LineReader(leaves), AfterPeers(leaves, lines, []), PeersLines(leaves, peers))
         == Some(AfterPeers(leaves, lines, peers))
    decreases |peers|
  {
    hide Fold, BuiltPeer, PeerLines, EndSection;
    var step, r0 := LineReader(leaves), AfterPeers(leaves, lines, []);
    if peers == [] {
      FoldOne(step, r0, "");
    } else {
      var n := |peers| - 1;
      var r, pl := AfterPeers(leaves, lines, peers[..n]), PeerLines(leaves, peers[n]);
      ReadPeers(leaves, lines, peers[..n]);
      FoldThen(step, r0, PeersLines(leaves, peers[..n]), ["", PEER_HEADER] + pl, r);
      EndOfPeers(leaves, lines, peers[..n]);
      PeerHeader(leaves, r);
      var r' := EndSection(leaves, r).value.(inInterface := false, inPeer := true);
      FoldThen(step, r, ["", PEER_HEADER], pl, r');
      PeerLinesWritten(leaves, peers[n]);
      WrittenPlain(pl);
      ReadPlain(leaves, r', pl);
      assert [] + pl == pl;
    }
  }

  lemma ReadInterface(leaves: Leaves, lines: seq<string>)
    requires AllPlain(lines)
    ensures Fold(LineReader(leaves), Unread, [INTERFACE_HEADER] + lines) == Some(AfterPeers(leaves, lines, []))
  {
    hide CleanLine, Fold;
    Headers();
    Reflexive(INTERFACE_HEADER);
    var r := Unread.(inInterface := true, seenInterface := true);
    FoldOne(LineReader(leaves), Unread, INTERFACE_HEADER);
    FoldThen(LineReader(leaves), Unread, [INTERFACE_HEADER], lines, r);
    ReadPlain(leaves, r, lines);
    assert [] + lines == lines;
  }

  /** What is printed is attribute lines, headers and empty lines. */
  ghost predicate Printed(l: string) { l == "" || l == PEER_HEADER || l == INTERFACE_HEADER || Written(l) }

  ghost predicate AllPrinted(ls: seq<string>) { forall k :: 0 <= k < |ls| ==> Printed(ls[k]) }

  lemma {:induction false} PeersLinesPrinted(leaves: Leaves, peers: seq<Peer>)
    requires leaves.Faithful() && forall k :: 0 <= k < |peers| ==> BuiltPeer(leaves, peers[k])
    ensures AllPrinted(PeersLines(leaves, peers))
    decreases |peers|
  {
    hide Written, BuiltPeer, PeerLines;
    if peers != [] {
      PeersLinesPrinted(leaves, peers[..|peers| - 1]);
      PeerLinesWritten(leaves, peers[|peers| - 1]);
    }
  }

  lemma ConfigLinesPrinted(leaves: Leaves, c: Config)
    requires Built(leaves, c)
    ensures AllPrinted(ConfigLines(leaves, c))
  {
    hide Written, BuiltInterface, BuiltPeer, InterfaceLines, PeersLines;
    InterfaceLinesWritten(leaves, c.interface);
    PeersLinesPrinted(leaves, c.peers);
  }

  lemma PrintedOneLine(ls: seq<string>)
    requires AllPrinted(ls)
    ensures forall k :: 0 <= k < |ls| ==> OneLine(ls[k])
  {
    hide Written, OneLine, CleanLine;
    Headers();
    forall k | 0 <= k < |ls| ensures OneLine(ls[k]) {
      assert Printed(ls[k]);
      if Written(ls[k]) {
        WrittenPlain([ls[k]]);
        assert Plain([ls[k]][0]);
      }
    }
  }

  /** Every built configuration comes back from its text, but for search domains that have no
      server to be printed with. */
  lemma PrintParse(leaves: Leaves, c: Config)
    requires Built(leaves, c)
    ensures ReadLines(ToWgQuickString(leaves, c)) == ConfigLines(leaves, c)
    ensures ConfigOf(leaves, ReadLines(ToWgQuickString(leaves, c))) == Some(Config(Kept(c.interface), c.peers))
  {
    hide Fold, OneLine, CleanLine, InterfaceLines, PeersLines, BuiltInterface, BuiltPeer, ReadLines, Unlines,
         InterfaceOf, EndSection;
    var lines := InterfaceLines(leaves, c.interface);
    InterfaceLinesWritten(leaves, c.interface);
    WrittenPlain(lines);
    ConfigLinesPrinted(leaves, c);
    PrintedOneLine(ConfigLines(leaves, c));
    ReadUnlines(ConfigLines(leaves, c));
    ReadInterface(leaves, lines);
    var r := AfterPeers(leaves, lines, []);
    FoldThen(LineReader(leaves), Unread, [INTERFACE_HEADER] + lines, PeersLines(leaves, c.peers), r);
    ReadPeers(leaves, lines, c.peers);
    EndOfPeers(leaves, lines, c.peers);
    InterfaceRoundTrip(leaves, c.interface);
  }

  /** So the round trip is exact if and only if there is a server or no search domain. */
  lemma RoundTripIffServers(leaves: Leaves, c: Config)
    requires Built(leaves, c)
    ensures ConfigOf(leaves, ReadLines(ToWgQuickString(leaves, c))) == Some(c)
       <==> c.interface.dnsServers != [] || c.interface.searchDomains == []
  {
    PrintParse(leaves, c);
  }

  // ---- What comes out of the parser, whatever the text ----

  lemma {:induction false} AddKeepsDistinct(s: seq<string>, xs: seq<string>)
    requires Distinct(s)
    ensures Distinct(AddAll(s, xs))
    decreases |xs|
  {
    if xs != [] {
      AddKeepsDistinct(AddNew(s, xs[0]), xs[1..]);
    }
  }

  predicate PartsOk(b: InterfaceParts) {
    && Distinct(b.addresses) && Distinct(b.dnsServers) && Distinct(b.searchDomains) && Distinct(b.excluded)
    && Distinct(b.included) && InRange(b.listenPort, 65535) && InRange(b.mtu, MAX_INT)
  }

  lemma {:induction false} DnsKeepsParts(leaves: Leaves, b: InterfaceParts, xs: seq<string>)
    requires PartsOk(b) && AddDns(leaves, b, xs).Some?
    ensures PartsOk(AddDns(leaves, b, xs).value)
    decreases |xs|
  {
    if xs != [] {
      var a := leaves.address(xs[0]);
      if a.Some? {
        DnsKeepsParts(leaves, b.(dnsServers := AddNew(b.dnsServers, a.value)), xs[1..]);
      } else {
        DnsKeepsParts(leaves, b.(searchDomains := AddNew(b.searchDomains, xs[0])), xs[1..]);
      }
    }
  }

  lemma StepKeepsParts(leaves: Leaves, b: InterfaceParts, line: string)
    requires PartsOk(b) && InterfaceStep(leaves, b, line).Some?
    ensures PartsOk(InterfaceStep(leaves, b, line).value)
  {
    hide ParseAttribute, AttrOf, Split, Distinct;
    var v := ParseAttribute(line).value.1;
    var a := AttrOf(ParseAttribute(line).value.0).value;
    if a == Address {
      AddKeepsDistinct(b.addresses, ParseAll(leaves.network, Split(v)).value);
    } else if a == Dns {
      DnsKeepsParts(leaves, b, Split(v));
    } else if a == Excluded {
      AddKeepsDistinct(b.excluded, Split(v));
    } else if a == Included {
      AddKeepsDistinct(b.included, Split(v));
    }
  }

  lemma {:induction false} FoldKeepsParts(leaves: Leaves, b: InterfaceParts, lines: seq<string>)
    requires PartsOk(b) && Fold(InterfaceReader(leaves), b, lines).Some?
    ensures PartsOk(Fold(InterfaceReader(leaves), b, lines).value)
    decreases |lines|
  {
    hide InterfaceStep, PartsOk;
    if lines != [] {
      StepKeepsParts(leaves, b, lines[0]);
      FoldKeepsParts(leaves, InterfaceStep(leaves, b, lines[0]).value, lines[1..]);
    }
  }

  /** Every interface that parses is one the builder allows: no element twice, numbers in range and
      never zero, and not both application lists. */
  lemma ParsedInterface(leaves: Leaves, lines: seq<string>)
    ensures var r := InterfaceOf(leaves, lines);
      r.Some? ==>
        && Distinct(r.value.addresses) && Distinct(r.value.dnsServers) && Distinct(r.value.searchDomains)
        && Distinct(r.value.excluded) && Distinct(r.value.included)
        && InRange(r.value.listenPort, 65535) && InRange(r.value.mtu, MAX_INT)
        && (r.value.included == [] || r.value.excluded == [])
  {
    hide Fold;
    if Fold(InterfaceReader(leaves), NoInterface, lines).Some? {
      FoldKeepsParts(leaves, NoInterface, lines);
    }
  }

  lemma {:induction false} FoldKeepsPeer(leaves: Leaves, b: PeerParts, lines: seq<string>)
    requires Distinct(b.allowedIps) && InRange(b.keepalive, 65535) && Fold(PeerReader(leaves), b, lines).Some?
    ensures var q := Fold(PeerReader(leaves), b, lines).value; Distinct(q.allowedIps) && InRange(q.keepalive, 65535)
    decreases |lines|
  {
    hide ParseAttribute, AttrOf, Split, Distinct;
    if lines != [] {
      var kv := ParseAttribute(lines[0]).value;
      if AttrOf(kv.0) == Some(AllowedIps) {
        AddKeepsDistinct(b.allowedIps, ParseAll(leaves.network, Split(kv.1)).value);
      }
      FoldKeepsPeer(leaves, PeerStep(leaves, b, lines[0]).value, lines[1..]);
    }
  }

  lemma ParsedPeer(leaves: Leaves, lines: seq<string>)
    ensures var r := PeerOf(leaves, lines);
      r.Some? ==> Distinct(r.value.allowedIps) && InRange(r.value.keepalive, 65535)
  {
    hide Fold;
    if Fold(PeerReader(leaves), NoPeer, lines).Some? {
      FoldKeepsPeer(leaves, NoPeer, lines);
    }
  }
}
