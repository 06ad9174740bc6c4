/** Config, Interface and Peer of tunnel/src/main/java/com/wireguard/config: building from lines and
    printing. A network, address, endpoint or key is known by its printed text; how such a text
    is parsed is a parameter. */
module WgConfig {
  import opened Wrappers
  import opened ConfigText

  /** The parsers of single values: the printed form of what they read. */
  datatype Leaves = Leaves(network: string -> Option<string>, address: string -> Option<string>,
                           hostname: string -> bool,
                           endpoint: string -> Option<string>, key: string -> Option<string>,
                           number: string -> Option<int>, numberText: int -> string) {
    /** Integer.parseInt reads what String.valueOf wrote. */
    ghost predicate Faithful() {
      forall n {:trigger numberText(n)} :: 0 < n <= MAX_INT ==>
        number(numberText(n)) == Some(n) && ValueText(numberText(n))
    }
  }

  datatype Interface = Interface(addresses: seq<string>, dnsServers: seq<string>, searchDomains: seq<string>,
                                 excluded: seq<string>, included: seq<string>, privateKey: string,
                                 listenPort: Option<int>, mtu: Option<int>)

  datatype Peer = Peer(allowedIps: seq<string>, endpoint: Option<string>, keepalive: Option<int>,
                       preSharedKey: Option<string>, publicKey: string)

  datatype Config = Config(interface: Interface, peers: seq<Peer>)

  // ---- Attribute names ----

  datatype Attr =
    | Address | Dns | Excluded | Included | ListenPort | Mtu | PrivateKey
    | AllowedIps | Endpoint | Keepalive | PreSharedKey | PublicKey

  function NameOf(a: Attr): string {
    match a
    case Address => "Address"
    case Dns => "DNS"
    case Excluded => "ExcludedApplications"
    case Included => "IncludedApplications"
    case ListenPort => "ListenPort"
    case Mtu => "MTU"
    case PrivateKey => "PrivateKey"
    case AllowedIps => "AllowedIPs"
    case Endpoint => "Endpoint"
    case Keepalive => "PersistentKeepalive"
    case PreSharedKey => "PreSharedKey"
    case PublicKey => "PublicKey"
  }

  function LowerChar(c: char): char { if 'A' <= c <= 'Z' then ((c as int) + 32) as char else c }

  function LowerText(s: string): (r: string)
    ensures |r| == |s| && forall k :: 0 <= k < |s| ==> r[k] == LowerChar(s[k])
  {
    seq(|s|, i requires 0 <= i < |s| => LowerChar(s[i]))
  }

  /** The attribute whose name this is, in any case. */
  predicate Named(key: string, a: Attr) { LowerText(key) == LowerText(NameOf(a)) }

  function AttrOf(key: string): Option<Attr> {
    if Named(key, Address) then Some(Address)
    else if Named(key, Dns) then Some(Dns)
    else if Named(key, Excluded) then Some(Excluded)
    else if Named(key, Included) then Some(Included)
    else if Named(key, ListenPort) then Some(ListenPort)
    else if Named(key, Mtu) then Some(Mtu)
    else if Named(key, PrivateKey) then Some(PrivateKey)
    else if Named(key, AllowedIps) then Some(AllowedIps)
    else if Named(key, Endpoint) then Some(Endpoint)
    else if Named(key, Keepalive) then Some(Keepalive)
    else if Named(key, PreSharedKey) then Some(PreSharedKey)
    else if Named(key, PublicKey) then Some(PublicKey)
    else None
  }

  /** Length and initial tell the names apart. */
  function Mark(a: Attr): (nat, char) {
    match a
    case Address => (7, 'a')
    case Dns => (3, 'd')
    case Excluded => (20, 'e')
    case Included => (20, 'i')
    case ListenPort => (10, 'l')
    case Mtu => (3, 'm')
    case PrivateKey => (10, 'p')
    case AllowedIps => (10, 'a')
    case Endpoint => (8, 'e')
    case Keepalive => (19, 'p')
    case PreSharedKey => (12, 'p')
    case PublicKey => (9, 'p')
  }

  lemma NameMark(a: Attr)
    ensures |NameOf(a)| == Mark(a).0 && LowerChar(NameOf(a)[0]) == Mark(a).1
  {
  }

  lemma NameIsWord(a: Attr)
    ensures WordText(NameOf(a))
  {
    hide NameOf, WordText;
    match a
    case Excluded => LongNames();
    case Included => LongNames();
    case Keepalive => LongNames();
    case Address => ShortNames();
    case Dns => ShortNames();
    case Mtu => ShortNames();
    case Endpoint => ShortNames();
    case PublicKey => ShortNames();
    case _ => OtherNames();
  }

  lemma LongNames()
    ensures WordText(NameOf(Excluded)) && WordText(NameOf(Included)) && WordText(NameOf(Keepalive))
  {
  }

  lemma ShortNames()
    ensures WordText(NameOf(Address)) && WordText(NameOf(Dns)) && WordText(NameOf(Mtu))
    ensures WordText(NameOf(Endpoint)) && WordText(NameOf(PublicKey))
  {
  }

  lemma OtherNames()
    ensures WordText(NameOf(ListenPort)) && WordText(NameOf(PrivateKey))
    ensures WordText(NameOf(AllowedIps)) && WordText(NameOf(PreSharedKey))
  {
  }

  lemma OtherName(a: Attr, b: Attr)
    ensures Named(NameOf(a), b) <==> a == b
  {
    hide NameOf;
    NameMark(a);
    NameMark(b);
    assert LowerText(NameOf(a))[0] == Mark(a).1 && LowerText(NameOf(b))[0] == Mark(b).1;
  }

  lemma NameRoundTrip(a: Attr)
    ensures WordText(NameOf(a)) && AttrOf(NameOf(a)) == Some(a)
  {
    hide NameOf, Named, WordText;
    NameIsWord(a);
    forall b ensures Named(NameOf(a), b) <==> a == b {
      OtherName(a, b);
    }
  }

  // ---- Sets that remember the order of insertion ----

  function AddNew(s: seq<string>, x: string): seq<string> { if x in s then s else s + [x] }

  function AddAll(s: seq<string>, xs: seq<string>): seq<string>
    decreases |xs|
  {
    if xs == [] then s else AddAll(AddNew(s, xs[0]), xs[1..])
  }

  predicate Distinct(s: seq<string>) { forall i, j :: 0 <= i < j < |s| ==> s[i] != s[j] }

  lemma {:induction false} AddDistinct(s: seq<string>, xs: seq<string>)
    requires Distinct(s + xs)
    ensures AddAll(s, xs) == s + xs
    decreases |xs|
  {
    if xs == [] {
      assert s + xs == s;
    } else {
      assert (s + xs)[|s|] == xs[0];
      assert xs[0] !in s by {
        forall i | 0 <= i < |s| ensures s[i] != xs[0] {
          assert (s + xs)[i] == s[i];
        }
      }
      assert s + [xs[0]] + xs[1..] == s + xs;
      AddDistinct(s + [xs[0]], xs[1..]);
    }
  }

  // ---- Reading lines one after the other ----

  function Fold<B>(step: (B, string) -> Option<B>, b: B, lines: seq<string>): Option<B> {
    if lines == [] then Some(b)
    else
      var b' := step(b, lines[0]);
      if b'.None? then None else Fold(step, b'.value, lines[1..])
  }

  lemma {:induction false} FoldAppend<B>(step: (B, string) -> Option<B>, b: B, s: seq<string>, t: seq<string>)
    ensures Fold(step, b, s + t) == var m := Fold(step, b, s); if m.None? then None else Fold(step, m.value, t)
    decreases |s|
  {
    if s == [] {
      assert s + t == t;
    } else {
      assert (s + t)[1..] == s[1..] + t;
      var b' := step(b, s[0]);
      if b'.Some? {
        FoldAppend(step, b'.value, s[1..], t);
      }
    }
  }

  lemma FoldOne<B>(step: (B, string) -> Option<B>, b: B, l: string)
    ensures Fold(step, b, [l]) == step(b, l) && Fold(step, b, []) == Some(b)
  {
    var b' := step(b, l);
    if b'.Some? {
      assert [l][1..] == [];
    }
  }

  function ParseAll(f: string -> Option<string>, xs: seq<string>): Option<seq<string>> {
    if xs == [] then Some([])
    else
      var x, rest := f(xs[0]), ParseAll(f, xs[1..]);
      if x.Some? && rest.Some? then Some([x.value] + rest.value) else None
  }

  // ---- Interface.Builder ----

  datatype InterfaceParts = InterfaceParts(addresses: seq<string>, dnsServers: seq<string>, searchDomains: seq<string>,
                                           excluded: seq<string>, included: seq<string>, privateKey: Option<string>,
                                           listenPort: Option<int>, mtu: Option<int>)

  const NoInterface := InterfaceParts([], [], [], [], [], None, None, None)

  function BuildInterface(b: InterfaceParts): Option<Interface> {
    if b.privateKey.None? || (b.included != [] && b.excluded != []) then None
    else Some(Interface(b.addresses, b.dnsServers, b.searchDomains, b.excluded, b.included, b.privateKey.value,
                        b.listenPort, b.mtu))
  }

  /** parseDnsServers: what is no address may be a search domain. */
  function AddDns(leaves: Leaves, b: InterfaceParts, xs: seq<string>): Option<InterfaceParts>
    decreases |xs|
  {
    if xs == [] then Some(b)
    else
      var a := leaves.address(xs[0]);
      if a.Some? then AddDns(leaves, b.(dnsServers := AddNew(b.dnsServers, a.value)), xs[1..])
      else if leaves.hostname(xs[0]) then AddDns(leaves, b.(searchDomains := AddNew(b.searchDomains, xs[0])), xs[1..])
      else None
  }

  /** A number in its range; zero stands for none. */
  function Bounded(n: Option<int>, max: int): Option<Option<int>> {
    if n.None? || n.value < 0 || n.value > max then None else Some(if n.value == 0 then None else n)
  }

  const MAX_INT := 0x7fffffff

  function SetInterface(leaves: Leaves, b: InterfaceParts, a: Attr, v: string): Option<InterfaceParts> {
    match a
    case Address =>
      var xs := ParseAll(leaves.network, Split(v));
      if xs.None? then None else Some(b.(addresses := AddAll(b.addresses, xs.value)))
    case Dns => AddDns(leaves, b, Split(v))
    case Excluded => Some(b.(excluded := AddAll(b.excluded, Split(v))))
    case Included => Some(b.(included := AddAll(b.included, Split(v))))
    case ListenPort =>
      var n := Bounded(leaves.number(v), 65535);
      if n.None? then None else Some(b.(listenPort := n.value))
    case Mtu =>
      var n := Bounded(leaves.number(v), MAX_INT);
      if n.None? then None else Some(b.(mtu := n.value))
    case PrivateKey =>
      var k := leaves.key(v);
      if k.None? then None else Some(b.(privateKey := k))
    case _ => None
  }

  function InterfaceStep(leaves: Leaves, b: InterfaceParts, line: string): Option<InterfaceParts> {
    var kv := ParseAttribute(line);
    if kv.None? then None
    else
      var a := AttrOf(kv.value.0);
      if a.None? then None else SetInterface(leaves, b, a.value, kv.value.1)
  }

  function InterfaceReader(leaves: Leaves): (InterfaceParts, string) -> Option<InterfaceParts> {
    (b, line) => InterfaceStep(leaves, b, line)
  }

  function InterfaceOf(leaves: Leaves, lines: seq<string>): Option<Interface> {
    var b := Fold(InterfaceReader(leaves), NoInterface, lines);
    if b.None? then None else BuildInterface(b.value)
  }

  // ---- Peer.Builder ----

  datatype PeerParts = PeerParts(allowedIps: seq<string>, endpoint: Option<string>, keepalive: Option<int>,
                                 preSharedKey: Option<string>, publicKey: Option<string>)

  const NoPeer := PeerParts([], None, None, None, None)

  function SetPeer(leaves: Leaves, b: PeerParts, a: Attr, v: string): Option<PeerParts> {
    match a
    case AllowedIps =>
      var xs := ParseAll(leaves.network, Split(v));
      if xs.None? then None else Some(b.(allowedIps := AddAll(b.allowedIps, xs.value)))
    case Endpoint =>
      var e := leaves.endpoint(v);
      if e.None? then None else Some(b.(endpoint := e))
    case Keepalive =>
      var n := Bounded(leaves.number(v), 65535);
      if n.None? then None else Some(b.(keepalive := n.value))
    case PreSharedKey =>
      var k := leaves.key(v);
      if k.None? then None else Some(b.(preSharedKey := k))
    case PublicKey =>
      var k := leaves.key(v);
      if k.None? then None else Some(b.(publicKey := k))
    case _ => None
  }

  function PeerStep(leaves: Leaves, b: PeerParts, line: string): Option<PeerParts> {
    var kv := ParseAttribute(line);
    if kv.None? then None
    else
      var a := AttrOf(kv.value.0);
      if a.None? then None else SetPeer(leaves, b, a.value, kv.value.1)
  }

  function PeerReader(leaves: Leaves): (PeerParts, string) -> Option<PeerParts> {
    (b, line) => PeerStep(leaves, b, line)
  }

  function PeerOf(leaves: Leaves, lines: seq<string>): Option<Peer> {
    var b := Fold(PeerReader(leaves), NoPeer, lines);
    if b.None? || b.value.publicKey.None? then None
    else Some(Peer(b.value.allowedIps, b.value.endpoint, b.value.keepalive, b.value.preSharedKey,
                   b.value.publicKey.value))
  }

  // ---- Config.parse ----

  /** The loop's variables. */
  datatype Reading = Reading(peers: seq<Peer>, interfaceLines: seq<string>, peerLines: seq<string>,
                             inInterface: bool, inPeer: bool, seenInterface: bool)

  const Unread := Reading([], [], [], false, false, false)

  predicate Header(line: string) { line != "" && line[0] == '[' }

  const INTERFACE_HEADER := "[Interface]"
  const PEER_HEADER := "[Peer]"

  predicate SameText(s: string, t: string) { LowerText(s) == LowerText(t) }

  /** Consume the lines of a peer section that ends here. */
  function EndSection(leaves: Leaves, r: Reading): Option<Reading> {
    if !r.inPeer then Some(r)
    else
      var p := PeerOf(leaves, r.peerLines);
      if p.None? then None else Some(r.(peers := r.peers + [p.value], peerLines := []))
  }

  function ReadClean(leaves: Leaves, r: Reading, line: string): Option<Reading> {
    if line == "" then Some(r)
    else if Header(line) then
      var r' := EndSection(leaves, r);
      if r'.None? then None
      else if SameText(line, INTERFACE_HEADER) then
        Some(r'.value.(inInterface := true, inPeer := false, seenInterface := true))
      else if SameText(line, PEER_HEADER) then Some(r'.value.(inInterface := false, inPeer := true))
      else None
    else if r.inInterface then Some(r.(interfaceLines := r.interfaceLines + [line]))
    else if r.inPeer then Some(r.(peerLines := r.peerLines + [line]))
    else None
  }

  function LineReader(leaves: Leaves): (Reading, string) -> Option<Reading> {
    (r, line) => ReadClean(leaves, r, CleanLine(line))
  }

  function Finish(leaves: Leaves, r: Reading): Option<Config> {
    var r' := EndSection(leaves, r);
    if r'.None? || !r.seenInterface then None
    else
      var i := InterfaceOf(leaves, r.interfaceLines);
      if i.None? then None else Some(Config(i.value, r'.value.peers))
  }

  function ConfigOf(leaves: Leaves, lines: seq<string>): Option<Config> {
    var r := Fold(LineReader(leaves), Unread, lines);
    if r.None? then None else Finish(leaves, r.value)
  }

  // ---- The parsers as loops ----

  lemma FoldStep<B>(step: (B, string) -> Option<B>, b: B, lines: seq<string>, i: nat)
    requires i < |lines|
    ensures Fold(step, b, lines[i..]) ==
      var b' := step(b, lines[i]); if b'.None? then None else Fold(step, b'.value, lines[i + 1..])
  {
    assert lines[i..][1..] == lines[i + 1..];
  }

  method ParseInterface(leaves: Leaves, lines: seq<string>) returns (r: Option<Interface>)
    ensures r == InterfaceOf(leaves, lines)
  {
    hide InterfaceStep, Fold;
    var builder, i := NoInterface, 0;
    assert lines[0..] == lines;
    while i < |lines|
      invariant 0 <= i <= |lines|
      invariant Fold(InterfaceReader(leaves), NoInterface, lines) == Fold(InterfaceReader(leaves), builder, lines[i..])
    {
      FoldStep(InterfaceReader(leaves), builder, lines, i);
      var b := InterfaceStep(leaves, builder, lines[i]);
      if b.None? {
        return None;
      }
      builder := b.value;
      i := i + 1;
    }
    FoldOne(InterfaceReader(leaves), builder, "");
    assert lines[i..] == [];
    r := BuildInterface(builder);
  }

  method ParsePeer(leaves: Leaves, lines: seq<string>) returns (r: Option<Peer>)
    ensures r == PeerOf(leaves, lines)
  {
    hide PeerStep, Fold;
    var builder, i := NoPeer, 0;
    assert lines[0..] == lines;
    while i < |lines|
      invariant 0 <= i <= |lines|
      invariant Fold(PeerReader(leaves), NoPeer, lines) == Fold(PeerReader(leaves), builder, lines[i..])
    {
      FoldStep(PeerReader(leaves), builder, lines, i);
      var b := PeerStep(leaves, builder, lines[i]);
      if b.None? {
        return None;
      }
      builder := b.value;
      i := i + 1;
    }
    FoldOne(PeerReader(leaves), builder, "");
    assert lines[i..] == [];
    if builder.publicKey.None? {
      return None;
    }
    r := Some(Peer(builder.allowedIps, builder.endpoint, builder.keepalive, builder.preSharedKey,
                   builder.publicKey.value));
  }

  method ParseConfig(leaves: Leaves, lines: seq<string>) returns (r: Option<Config>)
    ensures r == ConfigOf(leaves, lines)
  {
    hide Fold, PeerOf, InterfaceOf, CleanLine, LowerText;
    var peers: seq<Peer>, interfaceLines: seq<string>, peerLines: seq<string> := [], [], [];
    var inInterfaceSection, inPeerSection, seenInterfaceSection := false, false, false;
    var i := 0;
    assert lines[0..] == lines;
    while i < |lines|
      invariant 0 <= i <= |lines|
      invariant Fold(LineReader(leaves), Unread, lines) == Fold(LineReader(leaves),
        Reading(peers, interfaceLines, peerLines, inInterfaceSection, inPeerSection, seenInterfaceSection), lines[i..])
    {
      FoldStep(LineReader(leaves),
               Reading(peers, interfaceLines, peerLines, inInterfaceSection, inPeerSection, seenInterfaceSection),
               lines, i);
      var line := CleanLine(lines[i]);
      i := i + 1;
      if line == "" {
        continue;
      }
      if line[0] == '[' {
        if inPeerSection {
          var p := ParsePeer(leaves, peerLines);
          if p.None? {
            return None;
          }
          peers := peers + [p.value];
          peerLines := [];
        }
        if SameText(line, INTERFACE_HEADER) {
          inInterfaceSection, inPeerSection, seenInterfaceSection := true, false, true;
        } else if SameText(line, PEER_HEADER) {
          inInterfaceSection, inPeerSection := false, true;
        } else {
          return None;
        }
      } else if inInterfaceSection {
        interfaceLines := interfaceLines + [line];
      } else if inPeerSection {
        peerLines := peerLines + [line];
      } else {
        return None;
      }
    }
    FoldOne(LineReader(leaves),
            Reading(peers, interfaceLines, peerLines, inInterfaceSection, inPeerSection, seenInterfaceSection), "");
    assert lines[i..] == [];
    if inPeerSection {
      var p := ParsePeer(leaves, peerLines);
      if p.None? {
        return None;
      }
      peers := peers + [p.value];
    }
    if !seenInterfaceSection {
      return None;
    }
    var interface := ParseInterface(leaves, interfaceLines);
    r := if interface.None? then None else Some(Config(interface.value, peers));
  }

  // ---- Printing ----

  function AttrLine(a: Attr, value: string): string { AttributeLine(NameOf(a), value) }

  function OptLine(present: bool, a: Attr, value: string): seq<string> {
    if present then [AttrLine(a, value)] else []
  }

  function NumberLine(leaves: Leaves, a: Attr, n: Option<int>): seq<string> {
    if n.Some? then [AttrLine(a, leaves.numberText(n.value))] else []
  }

  function InterfaceLines(leaves: Leaves, i: Interface): seq<string> {
    OptLine(i.addresses != [], Address, JoinWith(", ", i.addresses))
    + (OptLine(i.dnsServers != [], Dns, JoinWith(", ", i.dnsServers + i.searchDomains))
    + (OptLine(i.excluded != [], Excluded, JoinWith(", ", i.excluded))
    + (OptLine(i.included != [], Included, JoinWith(", ", i.included))
    + (NumberLine(leaves, ListenPort, i.listenPort)
    + (NumberLine(leaves, Mtu, i.mtu)
    + [AttrLine(PrivateKey, i.privateKey)])))))
  }

  function PeerLines(leaves: Leaves, p: Peer): seq<string> {
    OptLine(p.allowedIps != [], AllowedIps, JoinWith(", ", p.allowedIps))
    + ((if p.endpoint.Some? then [AttrLine(Endpoint, p.endpoint.value)] else [])
    + (NumberLine(leaves, Keepalive, p.keepalive)
    + ((if p.preSharedKey.Some? then [AttrLine(PreSharedKey, p.preSharedKey.value)] else [])
    + [AttrLine(PublicKey, p.publicKey)])))
  }

  function PeersLines(leaves: Leaves, peers: seq<Peer>): seq<string> {
    if peers == [] then []
    else PeersLines(leaves, peers[..|peers| - 1]) + (["", PEER_HEADER] + PeerLines(leaves, peers[|peers| - 1]))
  }

  function ConfigLines(leaves: Leaves, c: Config): seq<string> {
    [INTERFACE_HEADER] + InterfaceLines(leaves, c.interface) + PeersLines(leaves, c.peers)
  }

  /** toWgQuickString. */
  function ToWgQuickString(leaves: Leaves, c: Config): string { Unlines(ConfigLines(leaves, c)) }
}
