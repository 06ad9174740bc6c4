/** What the rewrite promises: when the applications are exactly the chosen ones, and the whole way from
    the text that goes in to the text that comes out. */
module SplitTunnelText {
  import opened Wrappers
  import opened ConfigText
  import opened WgConfig
  import opened ConfigRoundTrip
  import opened SplitTunnel
  import opened SplitTunnelLines
  import opened SplitTunnelReading
  import opened SplitTunnelOutcome

  // ---- Exactly the chosen applications ----

  ghost predicate SameSet(s: seq<string>, t: seq<string>) { forall x :: x in s <==> x in t }

  ghost predicate Within(s: seq<string>, t: seq<string>) { forall x :: x in s ==> x in t }

  lemma SameIffWithin(a: Attr, raw: seq<string>, mode: Mode, excluded: seq<string>, included: seq<string>)
    ensures var chosen := Chosen(mode, a, excluded, included);
      SameSet(AddAll([], AppsAfter(a, raw, mode, excluded, included)), chosen)
      <==> Within(TextApps(a, OtherLines(raw)), chosen)
    ensures Chosen(mode, a, excluded, included) == [] && Within(TextApps(a, OtherLines(raw)), []) ==>
      AppsAfter(a, raw, mode, excluded, included) == []
  {
    hide OtherLines, FirstPeer, TextApps, AddAll, Chosen;
    var rest, chosen := OtherLines(raw), Chosen(mode, a, excluded, included);
    var n := FirstPeer(rest);
    var before, after := TextApps(a, rest[..n]), TextApps(a, rest[n..]);
    assert rest == rest[..n] + rest[n..];
    TextAppsAppend(a, rest[..n], rest[n..]);
    forall x ensures x in AddAll([], before + chosen + after) <==> x in before + after || x in chosen {
      AddAllHas([], before + chosen + after, x);
    }
    if before + after != [] {
      assert (before + after)[0] in before + after;
    }
  }

  /** The rewrite leaves exactly the chosen applications, if and only if the new line (if any) comes
      into an interface, and every application line that it does not see lists chosen ones. */
  lemma ExactIff(leaves: Leaves, raw: seq<string>, mode: Mode, excluded: seq<string>, included: seq<string>)
    requires ConfigOf(leaves, raw).Some? && Items(excluded) && Items(included) && !mode.Off?
    ensures var r, rest := ConfigOf(leaves, Rewritten(raw, NewLine(mode, excluded, included))), OtherLines(raw);
      && r.Some?
      && SameSet(r.value.interface.excluded, Chosen(mode, Excluded, excluded, included))
      && SameSet(r.value.interface.included, Chosen(mode, Included, excluded, included))
      <==>
      && (NewLine(mode, excluded, included) == [] || InInterface(rest[..FirstPeer(rest)]))
      && Within(TextApps(Excluded, rest), Chosen(mode, Excluded, excluded, included))
      && Within(TextApps(Included, rest), Chosen(mode, Included, excluded, included))
  {
    hide ConfigOf, Items, Rewritten, NewLine, AppsAfter, OtherLines, InInterface, FirstPeer, TextApps, AddAll,
         SameSet, Within;
    RewriteOutcome(leaves, raw, mode, excluded, included);
    SameIffWithin(Excluded, raw, mode, excluded, included);
    SameIffWithin(Included, raw, mode, excluded, included);
  }

  // ---- Texts on which the rewrite and the parser agree ----

  ghost predicate Begun(raw: seq<string>) {
    exists k :: 0 <= k < |raw| && SameText(CleanLine(raw[k]), INTERFACE_HEADER)
  }

  lemma HeaderIs(c: string)
    requires Readable(c)
    ensures Header(c) <==> SameText(c, INTERFACE_HEADER) || SameText(c, PEER_HEADER)
  {
    hide LowerText;
    AttributeIsPlain(c);
    assert LowerText(INTERFACE_HEADER)[0] == '[' && LowerText(PEER_HEADER)[0] == '[';
    assert c != "" ==> LowerText(c)[0] == LowerChar(c[0]);
  }

  lemma {:induction false} BegunIff(raw: seq<string>)
    requires AllReadable(raw) && forall k :: 0 <= k < |raw| ==> !SameText(CleanLine(raw[k]), PEER_HEADER)
    ensures InInterface(raw) <==> Begun(raw)
    decreases |raw|
  {
    hide CleanLine, SameText, Readable;
    if raw != [] {
      var n := |raw| - 1;
      HeaderIs(CleanLine(raw[n]));
      BegunIff(raw[..n]);
      if Begun(raw[..n]) {
        var k :| 0 <= k < n && SameText(CleanLine(raw[..n][k]), INTERFACE_HEADER);
        assert SameText(CleanLine(raw[k]), INTERFACE_HEADER);
      }
      if Begun(raw) {
        var k :| 0 <= k < |raw| && SameText(CleanLine(raw[k]), INTERFACE_HEADER);
        if k < n {
          assert SameText(CleanLine(raw[..n][k]), INTERFACE_HEADER);
        }
      }
    }
  }

  lemma {:induction false} NothingKept(raw: seq<string>)
    requires AllAgree(raw) && AllReadable(raw)
    ensures TextApps(Excluded, OtherLines(raw)) == [] && TextApps(Included, OtherLines(raw)) == []
    ensures AllAgree(OtherLines(raw)) && AllReadable(OtherLines(raw))
  {
    hide CleanLine, LineApps, AppLine, IsApp, Readable, OtherLines, PeerHeaderLine, SameText;
    if raw == [] {
      NoOthers();
    } else {
      NothingKept(raw[1..]);
      OtherLinesHead(raw);
      assert Agrees(raw[0]);
      OnlyApps(Excluded, CleanLine(raw[0]));
      OnlyApps(Included, CleanLine(raw[0]));
      if !AppLine(raw[0]) {
        assert OtherLines(raw)[1..] == OtherLines(raw[1..]);
      }
    }
  }

  /** Then the applications are the chosen ones, in order, and only the place of the new line matters. */
  lemma AgreeingText(leaves: Leaves, raw: seq<string>, mode: Mode, excluded: seq<string>, included: seq<string>)
    requires ConfigOf(leaves, raw).Some? && Items(excluded) && Items(included) && !mode.Off?
    requires AllAgree(raw) && Distinct(excluded) && Distinct(included)
    ensures var c, rest := ConfigOf(leaves, raw).value, OtherLines(raw);
      ConfigOf(leaves, Rewritten(raw, NewLine(mode, excluded, included)))
      == if NewLine(mode, excluded, included) == [] || Begun(rest[..FirstPeer(rest)])
         then Some(Config(WithLists(c.interface, Chosen(mode, Excluded, excluded, included),
                                    Chosen(mode, Included, excluded, included)), c.peers))
         else None
  {
    hide ConfigOf, Items, Rewritten, NewLine, OtherLines, InInterface, TextApps, Begun, Agrees, Readable, AddAll,
         Distinct;
    var rest := OtherLines(raw);
    var n := FirstPeer(rest);
    RewriteOutcome(leaves, raw, mode, excluded, included);
    ParsedIsReadable(leaves, raw);
    NothingKept(raw);
    assert rest == rest[..n] + rest[n..];
    TextAppsAppend(Excluded, rest[..n], rest[n..]);
    TextAppsAppend(Included, rest[..n], rest[n..]);
    ChosenIs(mode, excluded, included);
    BegunIff(rest[..n]) by {
      NoPeerBefore(rest);
    }
  }

  lemma ChosenIs(mode: Mode, excluded: seq<string>, included: seq<string>)
    requires Distinct(excluded) && Distinct(included)
    ensures forall a :: AddAll([], [] + Chosen(mode, a, excluded, included) + []) == Chosen(mode, a, excluded, included)
    ensures Chosen(mode, Excluded, excluded, included) == [] || Chosen(mode, Included, excluded, included) == []
  {
    hide AddAll;
    forall a ensures AddAll([], [] + Chosen(mode, a, excluded, included) + []) == Chosen(mode, a, excluded, included) {
      var xs := Chosen(mode, a, excluded, included);
      assert [] + xs + [] == xs && [] + xs == xs;
      AddDistinct([], xs);
    }
  }

  lemma NoPeerBefore(rest: seq<string>)
    requires AllAgree(rest)
    ensures forall k :: 0 <= k < FirstPeer(rest) ==> !SameText(CleanLine(rest[k]), PEER_HEADER)
  {
    hide CleanLine, SameText, PeerHeaderLine, AppLine, IsApp;
    forall k | 0 <= k < FirstPeer(rest) ensures !SameText(CleanLine(rest[k]), PEER_HEADER) {
      assert Agrees(rest[k]);
    }
  }

  // ---- From text to text ----

  predicate AllOneLine(ls: seq<string>) { forall k :: 0 <= k < |ls| ==> OneLine(ls[k]) }

  /** BufferedReader reports no line behind the last line break. */
  function Shorn(ls: seq<string>): seq<string> {
    if ls != [] && ls[|ls| - 1] == "" then ls[..|ls| - 1] else ls
  }

  lemma ShornCons(l: string, ls: seq<string>)
    requires ls != []
    ensures Shorn([l] + ls) == [l] + Shorn(ls)
  {
  }

  /** Where the first line ends and where the next one starts. */
  function LineEnd(text: string): nat { Run(c => c != '\n' && c != '\r', text) }

  function NextLine(text: string): (m: nat)
    requires LineEnd(text) < |text|
    ensures LineEnd(text) < m <= |text|
  {
    var n := LineEnd(text);
    if text[n] == '\r' && n + 1 < |text| && text[n + 1] == '\n' then n + 2 else n + 1
  }

  lemma BothStep(text: string)
    requires LineEnd(text) < |text|
    ensures ReadLines(text) == [text[..LineEnd(text)]] + ReadLines(text[NextLine(text)..])
    ensures KotlinLines(text) == [text[..LineEnd(text)]] + KotlinLines(text[NextLine(text)..])
  {
    hide Run;
  }

  lemma BothEnd(text: string)
    requires LineEnd(text) == |text|
    ensures ReadLines(text) == Shorn([text]) && KotlinLines(text) == [text]
  {
    hide Run;
  }

  lemma {:induction false} ReadIsShorn(text: string)
    ensures ReadLines(text) == Shorn(KotlinLines(text)) && AllOneLine(KotlinLines(text))
    decreases |text|
  {
    hide Run, ReadLines, KotlinLines, Shorn;
    var n := LineEnd(text);
    assert OneLine(text[..n]);
    if n == |text| {
      BothEnd(text);
      assert text[..n] == text;
    } else {
      var m := NextLine(text);
      ReadIsShorn(text[m..]);
      BothStep(text);
      ShornCons(text[..n], KotlinLines(text[m..]));
    }
  }

  lemma {:induction false} ReadJoined(ls: seq<string>)
    requires AllOneLine(ls)
    ensures ReadLines(JoinWith("\n", ls)) == Shorn(ls)
  {
    hide Run;
    if ls != [] {
      var l := ls[0];
      var text := JoinWith("\n", ls);
      assert OneLine(l);
      forall k | 0 <= k < |l| ensures text[k] == l[k] && l[k] != '\n' && l[k] != '\r' {
        assert l[k] in l;
      }
      RunIs(c => c != '\n' && c != '\r', text, |l|);
      if |ls| > 1 {
        var rest := JoinWith("\n", ls[1..]);
        ReadJoined(ls[1..]);
        assert text[..|l|] == l && text[|l| + 1..] == rest && text[|l|] == '\n';
        ShornCons(l, ls[1..]);
        assert ls == [l] + ls[1..];
      }
    }
  }

  lemma ShornParses(leaves: Leaves, ls: seq<string>)
    ensures ConfigOf(leaves, Shorn(ls)) == ConfigOf(leaves, ls)
  {
    hide Fold, Finish;
    if ls != [] && ls[|ls| - 1] == "" {
      var front := ls[..|ls| - 1];
      assert ls == front + [""];
      FoldAppend(LineReader(leaves), Unread, front, [""]);
      var m := Fold(LineReader(leaves), Unread, front);
      if m.Some? {
        FoldOne(LineReader(leaves), m.value, "");
      }
    }
  }

  lemma {:induction false} OthersOneLine(raw: seq<string>)
    requires AllOneLine(raw)
    ensures AllOneLine(OtherLines(raw))
  {
    hide AppLine, OneLine;
    if raw != [] {
      OthersOneLine(raw[1..]);
      OtherLinesHead(raw);
    }
  }

  /** The whole of applySplitTunneling, on every text that parses. */
  lemma TextToText(leaves: Leaves, text: string, mode: Mode, excluded: seq<string>, included: seq<string>)
    requires ConfigOf(leaves, ReadLines(text)).Some? && Items(excluded) && Items(included) && !mode.Off?
    ensures var lines, c := KotlinLines(text), ConfigOf(leaves, ReadLines(text)).value;
      ConfigOf(leaves, ReadLines(JoinWith("\n", Rewritten(lines, NewLine(mode, excluded, included)))))
      == if !Survives(lines, mode, excluded, included) then None
         else Some(ConfigAfter(c, lines, mode, excluded, included))
  {
    hide ConfigOf, NewLine, Items, JoinWith, ReadLines, KotlinLines, Shorn, OtherLines, AllPlain, Survives,
         AppsAfter, AddAll, IsApp, Others, Listed;
    var insert, lines := NewLine(mode, excluded, included), KotlinLines(text);
    ReadIsShorn(text);
    ShornParses(leaves, lines);
    RewriteOutcome(leaves, lines, mode, excluded, included);
    NewLineApps(mode, excluded, included);
    OthersOneLine(lines);
    RewrittenOneLine(lines, insert);
    ReadJoined(Rewritten(lines, insert));
    ShornParses(leaves, Rewritten(lines, insert));
  }

  lemma RewrittenOneLine(lines: seq<string>, insert: seq<string>)
    requires AllOneLine(OtherLines(lines)) && AllPlain(insert)
    ensures AllOneLine(Rewritten(lines, insert))
  {
    hide OneLine, OtherLines, CleanLine;
  }

  // ---- Printed texts ----

  /** Any attribute line the way toWgQuickString writes it. */
  lemma PrintedLineAgrees(a: Attr, v: string)
    requires ValueText(v)
    ensures Agrees(AttrLine(a, v))
  {
    hide NameOf, ParseAttribute, CleanLine, AttrOf, KotlinBlank, LowerText, Agrees, Run;
    var l := AttrLine(a, v);
    NameRoundTrip(a);
    AttributeLineIsTidy(NameOf(a), v);
    ParseAttributeLine(NameOf(a), v);
    RunIs(Low, l, 0);
    NameMark(a);
    assert IsApp(l) ==> OneBlank(l);
    assert !SameText(l, PEER_HEADER) by {
      PeerIs(l);
    }
    AgreesIff(l);
  }

  lemma HeadersAgree()
    ensures Agrees("") && Agrees(PEER_HEADER) && Agrees(INTERFACE_HEADER)
    ensures !PeerHeaderLine(INTERFACE_HEADER) && !AppLine(INTERFACE_HEADER)
  {
    hide CleanLine, ParseAttribute, AttrOf, KotlinTrim, LowerText, Run, TrimEnd, KotlinBlank, AppLine, PeerHeaderLine;
    Headers();
    Reflexive(PEER_HEADER);
    Reflexive(INTERFACE_HEADER);
    assert |LowerText(INTERFACE_HEADER)| == 11 && |LowerText(PEER_HEADER)| == 6 && |LowerText("")| == 0;
    NoMargins("");
    NoMargins(PEER_HEADER);
    NoMargins(INTERFACE_HEADER);
    EmptyIsNothing();
    AgreesIff("");
    AgreesIff(PEER_HEADER);
    AgreesIff(INTERFACE_HEADER);
  }

  lemma EmptyIsNothing()
    ensures ParseAttribute("").None?
  {
  }

  lemma NoMargins(s: string)
    requires s == "" || (!Low(s[0]) && !Low(s[|s| - 1]))
    ensures Lead(s) && Trail(s)
  {
    RunIs(Low, s, 0);
    assert s[0..] == s;
  }

  lemma PrintedAgrees(ls: seq<string>)
    requires AllPrinted(ls)
    ensures AllAgree(ls)
  {
    hide Agrees, ValueText, AttrLine;
    HeadersAgree();
    forall k | 0 <= k < |ls| ensures Agrees(ls[k]) {
      assert Printed(ls[k]);
      if Written(ls[k]) {
        var a, v :| ValueText(v) && ls[k] == AttrLine(a, v);
        PrintedLineAgrees(a, v);
      }
    }
  }

  /** In particular: the rewrite of any printed configuration does what it is for. */
  lemma RewriteOfPrinted(leaves: Leaves, c: Config, mode: Mode, excluded: seq<string>, included: seq<string>)
    requires Built(leaves, c) && !mode.Off?
    requires Items(excluded) && Distinct(excluded) && Items(included) && Distinct(included)
    ensures ConfigOf(leaves, Rewritten(ReadLines(ToWgQuickString(leaves, c)), NewLine(mode, excluded, included)))
         == Some(Config(WithLists(Kept(c.interface), Chosen(mode, Excluded, excluded, included),
                                  Chosen(mode, Included, excluded, included)), c.peers))
  {
    hide ConfigOf, Rewritten, NewLine, Agrees, PeerHeaderLine, CleanLine, Built, InterfaceLines, PeersLines, AppLine,
         OtherLines;
    var raw := ConfigLines(leaves, c);
    PrintParse(leaves, c);
    ConfigLinesPrinted(leaves, c);
    PrintedAgrees(raw);
    AgreeingText(leaves, raw, mode, excluded, included);
    HeadersAgree();
    Headers();
    Reflexive(INTERFACE_HEADER);
    assert raw[0] == INTERFACE_HEADER;
    OtherLinesHead(raw);
    var rest := OtherLines(raw);
    assert rest[..FirstPeer(rest)][0] == INTERFACE_HEADER;
  }
}
