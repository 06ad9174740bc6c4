/** Texts that parse and that the rewrite breaks, with an [Interface] before the first [Peer]. */
module SplitTunnelExamples {
  import opened Wrappers
  import opened ConfigText
  import opened WgConfig
  import opened ConfigRoundTrip
  import opened SplitTunnel
  import opened SplitTunnelLines
  import opened SplitTunnelReading
  import opened SplitTunnelOutcome
  import opened SplitTunnelText

  const KEY_LINE := AttrLine(PrivateKey, "k")
  const PEER_KEY_LINE := AttrLine(PublicKey, "p")
  const TIGHT_LINE := NameOf(Included) + "=a"
  const COMMENTED_PEER := "[Peer] # x"

  /** An application line without a blank, and a [Peer] with a comment. */
  const TIGHT_TEXT := [INTERFACE_HEADER, KEY_LINE, TIGHT_LINE]
  const COMMENTED_TEXT := [INTERFACE_HEADER, KEY_LINE, COMMENTED_PEER, PEER_KEY_LINE]

  // ---- The lines ----

  lemma KeyLines(a: Attr, v: string)
    requires (a == PrivateKey && v == "k") || (a == PublicKey && v == "p")
    ensures var l := AttrLine(a, v);
      && CleanLine(l) == l && !Header(l) && !IsApp(l)
      && ParseAttribute(l) == Some((NameOf(a), v)) && AttrOf(NameOf(a)) == Some(a)
    ensures !AppLine(AttrLine(a, v)) && !PeerHeaderLine(AttrLine(a, v))
  {
    hide NameOf, CleanLine, ParseAttribute, AttrOf, AppLine, PeerHeaderLine, SameText;
    NameRoundTrip(a);
    AttributeLineIsTidy(NameOf(a), v);
    ParseAttributeLine(NameOf(a), v);
    PrintedLineAgrees(a, v);
    PeerIs(AttrLine(a, v));
  }

  /** The parser sees an application line where the rewrite does not. */
  lemma TightLine()
    ensures var l := TIGHT_LINE;
      CleanLine(l) == l && !Header(l) && ParseAttribute(l) == Some((NameOf(Included), "a")) && IsApp(l) && !OneBlank(l)
      && AttrOf(NameOf(Included)) == Some(Included)
    ensures !AppLine(TIGHT_LINE) && !PeerHeaderLine(TIGHT_LINE)
  {
    hide CleanLine, NameOf, AttrOf, LowerText, Run, AppLine, PeerHeaderLine;
    var name := NameOf(Included);
    var l := TIGHT_LINE;
    NameRoundTrip(Included);
    NameMark(Included);
    assert |l| == 22 && l[20] == '=' && l[21] == 'a' && l[0] == name[0];
    assert '#' !in l by {
      assert forall k :: 0 <= k < 20 ==> l[k] == name[k];
    }
    TidyIsClean(l);
    RunIs(Word, l, 20);
    assert l[20..] == "=a" && l[21..] == "a" && l[..20] == name;
    RunIs(Space, l[20..], 0);
    RunIs(Space, l[21..], 0);
    SeenIff(l);
    if PeerHeaderLine(l) {
      PeerSeen(l);
      PeerIs(l);
    }
  }

  lemma CommentedPeer()
    ensures CleanLine(COMMENTED_PEER) == PEER_HEADER && !AppLine(COMMENTED_PEER) && !PeerHeaderLine(COMMENTED_PEER)
  {
    hide AppLine, PeerHeaderLine, Run, TrimEnd, LowerText, IsApp;
    var l := COMMENTED_PEER;
    IndexIs(l, 7);
    assert l[..7] == "[Peer] ";
    RunIs(Low, l[..7], 0);
    assert l[..7][0..] == "[Peer] ";
    assert TrimEnd("[Peer] ") == PEER_HEADER by {
      OneBlankBehind();
    }
    Reflexive(PEER_HEADER);
    PeerReadable(CleanLine(l));
    HeaderIs(CleanLine(l));
    AppIsPlain(CleanLine(l));
    SeenIff(l);
    if PeerHeaderLine(l) {
      PeerSeen(l);
    }
  }

  lemma OneBlankBehind()
    ensures TrimEnd("[Peer] ") == PEER_HEADER
  {
    var s := "[Peer] ";
    assert s[..6] == PEER_HEADER;
  }

  lemma OneApp()
    ensures Split("a") == ["a"]
  {
  }

  lemma Interfaces()
    ensures CleanLine(INTERFACE_HEADER) == INTERFACE_HEADER && Header(INTERFACE_HEADER)
    ensures SameText(INTERFACE_HEADER, INTERFACE_HEADER) && !SameText(PEER_HEADER, INTERFACE_HEADER)
    ensures SameText(PEER_HEADER, PEER_HEADER) && Header(PEER_HEADER)
    ensures !AppLine(INTERFACE_HEADER) && !PeerHeaderLine(INTERFACE_HEADER)
    ensures LineApps(Excluded, INTERFACE_HEADER) == [] && LineApps(Included, INTERFACE_HEADER) == []
    ensures LineApps(Excluded, PEER_HEADER) == [] && LineApps(Included, PEER_HEADER) == []
  {
    hide CleanLine, LowerText, AppLine, PeerHeaderLine, ParseAttribute;
    Headers();
    HeadersAgree();
    Reflexive(INTERFACE_HEADER);
    Reflexive(PEER_HEADER);
    assert |LowerText(INTERFACE_HEADER)| == 11 && |LowerText(PEER_HEADER)| == 6;
    AttributeIsPlain(INTERFACE_HEADER);
    AttributeIsPlain(PEER_HEADER);
  }

  // ---- The texts ----

  lemma FoldThree<B>(step: (B, string) -> Option<B>, b: B, x: string, y: string, z: string, b1: B, b2: B, b3: B)
    requires step(b, x) == Some(b1) && step(b1, y) == Some(b2) && step(b2, z) == Some(b3)
    ensures Fold(step, b, [x, y]) == Some(b2) && Fold(step, b, [x, y, z]) == Some(b3)
  {
    assert [x, y] == [x] + [y] && [x, y, z] == [x] + ([y] + [z]);
    FoldCons(step, b, x, [y]);
    FoldCons(step, b, x, [y] + [z]);
    FoldCons(step, b1, y, [z]);
    FoldOne(step, b1, y);
    FoldOne(step, b2, z);
  }

  const BEGUN := Unread.(inInterface := true, seenInterface := true)

  lemma ReadStart(leaves: Leaves)
    ensures LineReader(leaves)(Unread, INTERFACE_HEADER) == Some(BEGUN)
  {
    hide CleanLine, SameText;
    Interfaces();
  }

  lemma ReadAttribute(leaves: Leaves, r: Reading, l: string)
    requires CleanLine(l) == l && ParseAttribute(l).Some? && (r.inInterface || r.inPeer)
    ensures LineReader(leaves)(r, l)
         == Some(if r.inInterface then With(r, r.interfaceLines + [l]) else r.(peerLines := r.peerLines + [l]))
  {
    hide CleanLine, ParseAttribute;
    AttributeIsPlain(l);
    EmptyIsNothing();
  }

  lemma TightInterface(leaves: Leaves)
    requires leaves.key("k").Some?
    ensures InterfaceOf(leaves, [KEY_LINE, TIGHT_LINE]).Some?
  {
    hide Fold, CleanLine, ParseAttribute, AttrOf, NameOf, AddAll, Split, AppLine, PeerHeaderLine, IsApp;
    KeyLines(PrivateKey, "k");
    TightLine();
    var b1 := NoInterface.(privateKey := leaves.key("k"));
    var b2 := b1.(included := AddAll([], Split("a")));
    FoldThree(InterfaceReader(leaves), NoInterface, KEY_LINE, TIGHT_LINE, KEY_LINE, b1, b2, b2);
  }

  lemma TightParses(leaves: Leaves)
    requires leaves.key("k").Some?
    ensures ConfigOf(leaves, TIGHT_TEXT).Some?
  {
    hide Fold, CleanLine, ParseAttribute, NameOf, AttrOf, IsApp, AppLine, PeerHeaderLine, InterfaceOf, LineReader;
    KeyLines(PrivateKey, "k");
    TightLine();
    ReadStart(leaves);
    ReadAttribute(leaves, BEGUN, KEY_LINE);
    ReadAttribute(leaves, With(BEGUN, [KEY_LINE]), TIGHT_LINE);
    assert [] + [KEY_LINE] == [KEY_LINE] && [KEY_LINE] + [TIGHT_LINE] == [KEY_LINE, TIGHT_LINE];
    FoldThree(LineReader(leaves), Unread, INTERFACE_HEADER, KEY_LINE, TIGHT_LINE, BEGUN,
              With(BEGUN, [KEY_LINE]), With(BEGUN, [KEY_LINE, TIGHT_LINE]));
    TightInterface(leaves);
  }

  /** The rewrite drops nothing and takes nothing for a peer. */
  lemma Untouched(raw: seq<string>)
    requires forall k :: 0 <= k < |raw| ==> !AppLine(raw[k]) && !PeerHeaderLine(raw[k])
    ensures OtherLines(raw) == raw && FirstPeer(raw) == |raw|
  {
    hide AppLine, PeerHeaderLine, OtherLines;
    FirstPeerIs(raw, |raw|);
    NoOthers();
    if raw != [] {
      OtherLinesHead(raw);
      Untouched(raw[1..]);
      assert raw == [raw[0]] + raw[1..];
    }
  }

  lemma TextAppsOf(a: Attr, x: string, y: string, z: string)
    ensures TextApps(a, [x, y, z]) == LineApps(a, CleanLine(x)) + LineApps(a, CleanLine(y)) + LineApps(a, CleanLine(z))
  {
    hide LineApps, CleanLine, TextApps;
    assert [x, y, z][1..] == [y, z] && [y, z][1..] == [z] && [z][1..] == [];
    TextAppsHead(a, [x, y, z]);
    TextAppsHead(a, [y, z]);
    TextAppsHead(a, [z]);
    ListedOne(a, x);
    var p, q, r := LineApps(a, CleanLine(x)), LineApps(a, CleanLine(y)), LineApps(a, CleanLine(z));
    assert p + (q + (r + [])) == p + q + r;
  }

  lemma TightApps()
    ensures TextApps(Excluded, TIGHT_TEXT) == [] && TextApps(Included, TIGHT_TEXT) == ["a"]
    ensures OtherLines(TIGHT_TEXT) == TIGHT_TEXT && FirstPeer(TIGHT_TEXT) == 3
  {
    hide CleanLine, ParseAttribute, AttrOf, NameOf, LowerText, Split, TextApps, AppLine, PeerHeaderLine, OtherLines,
         IsApp;
    KeyLines(PrivateKey, "k");
    TightLine();
    Interfaces();
    OneApp();
    TextAppsOf(Excluded, INTERFACE_HEADER, KEY_LINE, TIGHT_LINE);
    TextAppsOf(Included, INTERFACE_HEADER, KEY_LINE, TIGHT_LINE);
    Untouched(TIGHT_TEXT);
  }

  lemma OneItem()
    ensures Items(["b"]) && Items([]) && NewLine(ExcludeApps, ["b"], []) != []
    ensures NewLine(IncludeOnlyApps, [], ["b"]) != []
  {
  }

  /** One text: another list than the old one makes both, which does not parse; the same list keeps
      what it should have replaced. */
  lemma TightBreaks(leaves: Leaves)
    requires leaves.key("k").Some?
    ensures ConfigOf(leaves, TIGHT_TEXT).Some?
    ensures ConfigOf(leaves, Rewritten(TIGHT_TEXT, NewLine(ExcludeApps, ["b"], []))).None?
    ensures var r := ConfigOf(leaves, Rewritten(TIGHT_TEXT, NewLine(IncludeOnlyApps, [], ["b"])));
      r.Some? && r.value.interface.included == ["a", "b"] && r.value.interface.excluded == []
  {
    hide ConfigOf, Rewritten, NewLine, OtherLines, FirstPeer, InInterface, TextApps, Items, CleanLine;
    TightParses(leaves);
    TightApps();
    OneItem();
    var raw := TIGHT_TEXT;
    assert raw[..3] == raw && raw[3..] == [];
    assert TextApps(Excluded, []) == [] && TextApps(Included, []) == [] by {
      ListedOne(Excluded, "");
      ListedOne(Included, "");
    }
    RewriteOutcome(leaves, raw, ExcludeApps, ["b"], []);
    RewriteOutcome(leaves, raw, IncludeOnlyApps, [], ["b"]);
    assert AppsAfter(Included, raw, IncludeOnlyApps, [], ["b"]) == ["a", "b"];
    AddDistinct([], ["a", "b"]);
    TightSection();
  }

  lemma TightSection()
    ensures InInterface(TIGHT_TEXT)
  {
    hide CleanLine, ParseAttribute, NameOf, AttrOf, IsApp, AppLine, PeerHeaderLine, SameText;
    KeyLines(PrivateKey, "k");
    TightLine();
    Interfaces();
    var t := TIGHT_TEXT;
    assert t[..2] == [INTERFACE_HEADER, KEY_LINE] && t[..2][..1] == [INTERFACE_HEADER];
    assert InInterface([INTERFACE_HEADER]);
    assert InInterface(t[..2]);
  }

  lemma KeysParse(leaves: Leaves)
    requires leaves.key("k").Some? && leaves.key("p").Some?
    ensures InterfaceOf(leaves, [KEY_LINE]).Some? && PeerOf(leaves, [PEER_KEY_LINE]).Some?
  {
    hide Fold, CleanLine, ParseAttribute, AttrOf, NameOf, AppLine, PeerHeaderLine, IsApp;
    KeyLines(PrivateKey, "k");
    KeyLines(PublicKey, "p");
    FoldOne(InterfaceReader(leaves), NoInterface, KEY_LINE);
    FoldOne(PeerReader(leaves), NoPeer, PEER_KEY_LINE);
  }

  lemma ReadCommented(leaves: Leaves, r: Reading)
    requires !r.inPeer
    ensures LineReader(leaves)(r, COMMENTED_PEER) == Some(r.(inInterface := false, inPeer := true))
  {
    hide CleanLine, SameText, AppLine, PeerHeaderLine;
    Interfaces();
    CommentedPeer();
  }

  lemma CommentedParses(leaves: Leaves)
    requires leaves.key("k").Some? && leaves.key("p").Some?
    ensures ConfigOf(leaves, COMMENTED_TEXT).Some?
  {
    hide Fold, CleanLine, ParseAttribute, NameOf, AttrOf, IsApp, AppLine, PeerHeaderLine, InterfaceOf, PeerOf,
         LineReader;
    var step, start := LineReader(leaves), [INTERFACE_HEADER, KEY_LINE, COMMENTED_PEER];
    var r2 := With(BEGUN, [KEY_LINE]);
    var r3 := r2.(inInterface := false, inPeer := true);
    KeyLines(PrivateKey, "k");
    KeyLines(PublicKey, "p");
    ReadStart(leaves);
    ReadAttribute(leaves, BEGUN, KEY_LINE);
    ReadCommented(leaves, r2);
    ReadAttribute(leaves, r3, PEER_KEY_LINE);
    assert [] + [KEY_LINE] == [KEY_LINE] && [] + [PEER_KEY_LINE] == [PEER_KEY_LINE];
    FoldThree(step, Unread, INTERFACE_HEADER, KEY_LINE, COMMENTED_PEER, BEGUN, r2, r3);
    FoldOne(step, r3, PEER_KEY_LINE);
    assert COMMENTED_TEXT == start + [PEER_KEY_LINE];
    FoldAppend(step, Unread, start, [PEER_KEY_LINE]);
    KeysParse(leaves);
  }

  /** Another text: the new line lands in the peer. */
  lemma CommentedBreaks(leaves: Leaves)
    requires leaves.key("k").Some? && leaves.key("p").Some?
    ensures ConfigOf(leaves, COMMENTED_TEXT).Some? && Begun(COMMENTED_TEXT)
    ensures ConfigOf(leaves, Rewritten(COMMENTED_TEXT, NewLine(ExcludeApps, ["b"], []))).None?
  {
    hide ConfigOf, Rewritten, NewLine, OtherLines, FirstPeer, InInterface, TextApps, Items, CleanLine, AppLine,
         PeerHeaderLine, SameText, ParseAttribute, AttrOf, NameOf;
    CommentedParses(leaves);
    OneItem();
    KeyLines(PrivateKey, "k");
    KeyLines(PublicKey, "p");
    CommentedPeer();
    Interfaces();
    var raw := COMMENTED_TEXT;
    Untouched(raw);
    assert SameText(CleanLine(raw[0]), INTERFACE_HEADER);
    assert raw[..4] == raw;
    CommentedSection();
    RewriteOutcome(leaves, raw, ExcludeApps, ["b"], []);
  }

  lemma CommentedSection()
    ensures !InInterface(COMMENTED_TEXT)
  {
    hide CleanLine, ParseAttribute, NameOf, AttrOf, IsApp, AppLine, PeerHeaderLine, SameText;
    KeyLines(PublicKey, "p");
    CommentedPeer();
    Interfaces();
    var t := COMMENTED_TEXT;
    assert t[..3] == [INTERFACE_HEADER, KEY_LINE, COMMENTED_PEER];
    assert !InInterface(t[..3]);
  }
}
