/** What the parser makes of a rewritten text, for every text that it can parse. */
module SplitTunnelOutcome {
  import opened Wrappers
  import opened ConfigText
  import opened WgConfig
  import opened ConfigRoundTrip
  import opened SplitTunnel
  import opened SplitTunnelLines
  import opened SplitTunnelReading

  // ---- The place of the new line ----

  /** The last header is [Interface]. */
  predicate InInterface(raw: seq<string>) {
    if raw == [] then false
    else
      var c := CleanLine(raw[|raw| - 1]);
      if Header(c) then SameText(c, INTERFACE_HEADER) else InInterface(raw[..|raw| - 1])
  }

  lemma StepSection(leaves: Leaves, r: Reading, c: string)
    requires ReadClean(leaves, r, c).Some?
    ensures ReadClean(leaves, r, c).value.inInterface
         == if Header(c) then SameText(c, INTERFACE_HEADER) else r.inInterface
  {
    hide PeerOf, SameText;
  }

  lemma {:induction false} SectionAt(leaves: Leaves, raw: seq<string>)
    requires Fold(LineReader(leaves), Unread, raw).Some?
    ensures Fold(LineReader(leaves), Unread, raw).value.inInterface == InInterface(raw)
    decreases |raw|
  {
    hide CleanLine, ReadClean, SameText, Fold;
    if raw == [] {
      FoldOne(LineReader(leaves), Unread, "");
    } else {
      var n := |raw| - 1;
      assert raw == raw[..n] + [raw[n]];
      FoldAppend(LineReader(leaves), Unread, raw[..n], [raw[n]]);
      SectionAt(leaves, raw[..n]);
      var r := Fold(LineReader(leaves), Unread, raw[..n]).value;
      FoldOne(LineReader(leaves), r, raw[n]);
      StepSection(leaves, r, CleanLine(raw[n]));
    }
  }

  /** A cut of the lines that stay is a cut of the text. */
  lemma {:induction false} CutText(raw: seq<string>, n: nat) returns (m: nat)
    requires n <= |OtherLines(raw)|
    ensures m <= |raw| && OtherLines(raw[..m]) == OtherLines(raw)[..n] && OtherLines(raw[m..]) == OtherLines(raw)[n..]
  {
    hide OtherLines, AppLine;
    NoOthers();
    if n == 0 {
      m := 0;
      assert raw[..0] == [] && raw[0..] == raw && OtherLines(raw)[0..] == OtherLines(raw);
    } else {
      assert raw != [];
      OtherLinesHead(raw);
      var m' := CutText(raw[1..], if AppLine(raw[0]) then n else n - 1);
      m := m' + 1;
      assert raw[..m] == [raw[0]] + raw[1..][..m'] && raw[m..] == raw[1..][m'..];
      OtherLinesHead(raw[..m]);
      assert raw[..m][1..] == raw[1..][..m'];
    }
  }

  // ---- The new line ----

  lemma NewLineApps(mode: Mode, excluded: seq<string>, included: seq<string>)
    requires Items(excluded) && Items(included) && !mode.Off?
    ensures var insert := NewLine(mode, excluded, included);
      && AllPlain(insert) && |insert| <= 1 && (insert != [] ==> IsApp(insert[0])) && Others(insert) == []
      && Listed(Excluded, insert) == (if mode.ExcludeApps? then excluded else [])
      && Listed(Included, insert) == if mode.IncludeOnlyApps? then included else []
  {
    hide Plain, Split, JoinWith, Items, ValueText, ParseAttribute, AttrOf, NameOf, Others;
    var xs := if mode.ExcludeApps? then excluded else included;
    var a := if mode.ExcludeApps? then Excluded else Included;
    var v := JoinWith(",", xs);
    var l := AttrLine(a, v);
    NoOthers();
    if xs != [] {
      JoinIsValue(",", xs);
      SplitJoin(",", xs);
      AttrLinePlain(a, v);
      NameRoundTrip(a);
      ParseAttributeLine(NameOf(a), v);
      AttributeLineIsTidy(NameOf(a), v);
      OthersOne(l);
      ListedOne(Excluded, l);
      ListedOne(Included, l);
    }
  }

  /** Read the new line where it was put. */
  lemma ReadInsert(leaves: Leaves, r: Reading, insert: seq<string>, lines: seq<string>)
    requires AllPlain(insert) && |insert| <= 1
    requires insert == [] || r.inInterface
    ensures Fold(LineReader(leaves), With(r, lines), insert) == Some(With(r, lines + insert))
  {
    hide CleanLine;
    if insert == [] {
      assert lines + insert == lines;
    } else {
      assert Plain(insert[0]) && insert == [insert[0]];
      FoldOne(LineReader(leaves), With(r, lines), insert[0]);
    }
  }

  /** Outside an interface it spoils the text: at once before the first section, and at the end of a
      peer's section otherwise. */
  lemma Spoiled(leaves: Leaves, r: Reading, l: string, after: seq<string>)
    requires Plain(l) && IsApp(l) && !r.inInterface
    ensures var q := Fold(LineReader(leaves), r, [l] + after); q.None? || Finish(leaves, q.value).None?
  {
    hide Fold, Finish, CleanLine, IsApp;
    FoldCons(LineReader(leaves), r, l, after);
    var r' := ReadClean(leaves, r, l);
    if r'.Some? {
      var q := Fold(LineReader(leaves), r'.value, after);
      assert !AllKept(r'.value) by {
        LastIsRead(r.peerLines, l);
      }
      if q.Some? && Finish(leaves, q.value).Some? {
        FinishedIsKept(leaves, q.value);
        ReadBack(leaves, r'.value, after);
      }
    }
  }

  // ---- The outcome ----

  function Chosen(mode: Mode, a: Attr, excluded: seq<string>, included: seq<string>): seq<string> {
    if a == Excluded && mode.ExcludeApps? then excluded
    else if a == Included && mode.IncludeOnlyApps? then included
    else []
  }

  /** The applications of a list after the rewrite: those of the lines it does not see, and the chosen
      ones where the new line stands. */
  function AppsAfter(a: Attr, raw: seq<string>, mode: Mode, excluded: seq<string>, included: seq<string>): seq<string> {
    var rest := OtherLines(raw);
    var n := FirstPeer(rest);
    TextApps(a, rest[..n]) + Chosen(mode, a, excluded, included) + TextApps(a, rest[n..])
  }

  /** The rewrite leaves a text that parses. */
  predicate Survives(raw: seq<string>, mode: Mode, excluded: seq<string>, included: seq<string>) {
    || NewLine(mode, excluded, included) == []
    || (&& InInterface(OtherLines(raw)[..FirstPeer(OtherLines(raw))])
        && (AppsAfter(Excluded, raw, mode, excluded, included) == []
            || AppsAfter(Included, raw, mode, excluded, included) == []))
  }

  function WithLists(i: Interface, e: seq<string>, x: seq<string>): Interface { i.(excluded := e, included := x) }

  /** The interface's lines: same others, other applications. */
  lemma InterfaceThinned(leaves: Leaves, lines: seq<string>, lines': seq<string>)
    requires InterfaceOf(leaves, lines).Some? && Others(lines') == Others(lines)
    ensures var e, i := Listed(Excluded, lines'), Listed(Included, lines');
      InterfaceOf(leaves, lines')
      == if e != [] && i != [] then None
         else Some(WithLists(InterfaceOf(leaves, lines).value, AddAll([], e), AddAll([], i)))
    ensures Listed(Excluded, lines) == [] || Listed(Included, lines) == []
  {
    hide Fold, Listed, Others, AddAll;
    FoldApps(leaves, NoInterface, lines);
    FoldApps(leaves, NoInterface, lines');
    AddAllEmpty(Listed(Excluded, lines));
    AddAllEmpty(Listed(Included, lines));
    AddAllEmpty(Listed(Excluded, lines'));
    AddAllEmpty(Listed(Included, lines'));
  }

  lemma FinishWith(leaves: Leaves, q: Reading, lines: seq<string>)
    requires Finish(leaves, q).Some?
    ensures Finish(leaves, With(q, lines))
         == var i := InterfaceOf(leaves, lines);
            if i.None? then None else Some(Config(i.value, Finish(leaves, q).value.peers))
  {
    hide InterfaceOf, PeerOf;
  }

  /** Both halves of the text, and the new line between them. */
  lemma HalvesThinned(before: seq<string>, after: seq<string>, kept: seq<string>, kept': seq<string>,
                      insert: seq<string>,
                      rest: seq<string>, rest': seq<string>)
    requires Thinned(before, kept, rest) && Thinned(after, kept', rest') && Others(insert) == []
    ensures var lines := kept + insert + kept';
      && Others(lines) == Others(before + after)
      && Listed(Excluded, lines) == TextApps(Excluded, rest) + Listed(Excluded, insert) + TextApps(Excluded, rest')
      && Listed(Included, lines) == TextApps(Included, rest) + Listed(Included, insert) + TextApps(Included, rest')
    ensures forall a | a == Excluded || a == Included ::
      Listed(a, before + after) == [] ==> TextApps(a, rest) == [] && TextApps(a, rest') == []
  {
    hide Others, Listed, TextApps;
    OthersAppend(before, after);
    OthersAppend(kept + insert, kept');
    OthersAppend(kept, insert);
    assert Others(kept) + [] == Others(kept);
    forall a | a == Excluded || a == Included
      ensures Listed(a, kept + insert + kept') == Listed(a, kept) + Listed(a, insert) + Listed(a, kept')
      ensures Listed(a, before + after) == Listed(a, before) + Listed(a, after)
    {
      ListedAppend(a, kept + insert, kept');
      ListedAppend(a, kept, insert);
      ListedAppend(a, before, after);
    }
  }

  lemma DropsAppsOf(leaves: Leaves, raw: seq<string>)
    requires ConfigOf(leaves, raw).Some?
    ensures DropsApps(raw)
  {
    hide ConfigOf, CleanLine, IsApp, AppLine, Readable, OneBlank, Lead;
    ParsedIsReadable(leaves, raw);
    forall k | 0 <= k < |raw| && AppLine(raw[k]) ensures IsApp(CleanLine(raw[k])) {
      SeenIff(raw[k]);
    }
  }

  /** The text cut where the new line goes, if it goes into an interface or nowhere. */
  lemma ReadHalves(leaves: Leaves, a: seq<string>, b: seq<string>, insert: seq<string>)
    returns (before: seq<string>, after: seq<string>, kept: seq<string>, kept': seq<string>)
    requires ConfigOf(leaves, a + b).Some? && DropsApps(a) && DropsApps(b)
    requires AllPlain(insert) && |insert| <= 1 && (insert == [] || InInterface(OtherLines(a)))
    ensures Thinned(before, kept, OtherLines(a)) && Thinned(after, kept', OtherLines(b))
    ensures var q := Fold(LineReader(leaves), Unread, a + b).value;
      && q.interfaceLines == before + after
      && Fold(LineReader(leaves), Unread, OtherLines(a) + insert + OtherLines(b))
         == Some(With(q, kept + insert + kept'))
  {
    hide Fold, Finish, OtherLines, AllKept, Thinned, DropsApps, InInterface, AllPlain;
    var step := LineReader(leaves);
    FoldAppend(step, Unread, a, b);
    var q1 := Fold(step, Unread, a).value;
    FinishedIsKept(leaves, Fold(step, Unread, a + b).value);
    ReadBack(leaves, q1, b);
    before, kept := ReadThinned(leaves, Unread, a, []);
    assert [] + before == before && [] + kept == kept && With(Unread, []) == Unread;
    SectionAt(leaves, OtherLines(a));
    ReadInsert(leaves, q1, insert, kept);
    after, kept' := ReadThinned(leaves, q1, b, kept + insert);
    FoldAppend(step, Unread, OtherLines(a) + insert, OtherLines(b));
    FoldAppend(step, Unread, OtherLines(a), insert);
  }

  lemma SpoiledHalves(leaves: Leaves, a: seq<string>, l: string, b: seq<string>)
    requires Plain(l) && IsApp(l) && !InInterface(a)
    ensures ConfigOf(leaves, a + [l] + b).None?
  {
    hide Fold, Finish, IsApp, InInterface, Plain;
    assert a + [l] + b == a + ([l] + b);
    FoldAppend(LineReader(leaves), Unread, a, [l] + b);
    var r := Fold(LineReader(leaves), Unread, a);
    if r.Some? {
      SectionAt(leaves, a);
      Spoiled(leaves, r.value, l, b);
    }
  }

  /** The configuration with the lists as they are after the rewrite. */
  function ConfigAfter(c: Config, raw: seq<string>, mode: Mode, excluded: seq<string>, included: seq<string>): Config {
    Config(WithLists(c.interface, AddAll([], AppsAfter(Excluded, raw, mode, excluded, included)),
                     AddAll([], AppsAfter(Included, raw, mode, excluded, included))), c.peers)
  }

  lemma ListedChosen(insert: seq<string>, mode: Mode, excluded: seq<string>, included: seq<string>)
    requires Items(excluded) && Items(included) && !mode.Off? && insert == NewLine(mode, excluded, included)
    ensures Listed(Excluded, insert) == Chosen(mode, Excluded, excluded, included)
    ensures Listed(Included, insert) == Chosen(mode, Included, excluded, included)
    ensures insert == [] ==>
      Chosen(mode, Excluded, excluded, included) == [] && Chosen(mode, Included, excluded, included) == []
  {
    hide Items, NewLine, Listed, AllPlain, IsApp, Others;
    NewLineApps(mode, excluded, included);
    ListedOne(Excluded, "");
    ListedOne(Included, "");
  }

  /** The new line comes into an interface, or there is none. */
  lemma OutcomeInside(leaves: Leaves, raw: seq<string>, m: nat, mode: Mode, excluded: seq<string>,
                      included: seq<string>)
    requires ConfigOf(leaves, raw).Some? && Items(excluded) && Items(included) && !mode.Off? && m <= |raw|
    requires var rest := OtherLines(raw);
      var n := FirstPeer(rest);
      && OtherLines(raw[..m]) == rest[..n] && OtherLines(raw[m..]) == rest[n..]
      && (NewLine(mode, excluded, included) == [] || InInterface(rest[..n]))
    ensures ConfigOf(leaves, Rewritten(raw, NewLine(mode, excluded, included)))
         == if !Survives(raw, mode, excluded, included) then None
            else Some(ConfigAfter(ConfigOf(leaves, raw).value, raw, mode, excluded, included))
  {
    hide Fold, Finish, OtherLines, Items, NewLine, AllPlain, IsApp, InInterface, Thinned, Listed, TextApps, AddAll,
         Others, InterfaceOf, FirstPeer, DropsApps, Chosen;
    var insert, rest := NewLine(mode, excluded, included), OtherLines(raw);
    var n := FirstPeer(rest);
    var a, b := raw[..m], raw[m..];
    assert raw == a + b;
    DropsAppsOf(leaves, raw);
    DropsHalves(raw, m);
    NewLineApps(mode, excluded, included);
    ListedChosen(insert, mode, excluded, included);
    var before, after, kept, kept' := ReadHalves(leaves, a, b, insert);
    var q := Fold(LineReader(leaves), Unread, raw).value;
    HalvesThinned(before, after, kept, kept', insert, rest[..n], rest[n..]);
    FinishWith(leaves, q, kept + insert + kept');
    FinishHasInterface(leaves, q);
    InterfaceThinned(leaves, before + after, kept + insert + kept');
  }

  /** For every text that parses: its rewrite parses exactly when it survives, to the same
      configuration but for the application lists, which hold what the rewrite did not see and what
      was chosen, in order. */
  lemma RewriteOutcome(leaves: Leaves, raw: seq<string>, mode: Mode, excluded: seq<string>, included: seq<string>)
    requires ConfigOf(leaves, raw).Some? && Items(excluded) && Items(included) && !mode.Off?
    ensures ConfigOf(leaves, Rewritten(raw, NewLine(mode, excluded, included)))
         == if !Survives(raw, mode, excluded, included) then None
            else Some(ConfigAfter(ConfigOf(leaves, raw).value, raw, mode, excluded, included))
  {
    hide ConfigOf, OtherLines, Items, NewLine, AllPlain, IsApp, InInterface, Listed, Others, FirstPeer, ConfigAfter,
         AppsAfter;
    var insert, rest := NewLine(mode, excluded, included), OtherLines(raw);
    var n := FirstPeer(rest);
    if insert == [] || InInterface(rest[..n]) {
      var m := CutText(raw, n);
      OutcomeInside(leaves, raw, m, mode, excluded, included);
    } else {
      NewLineApps(mode, excluded, included);
      assert insert == [insert[0]];
      SpoiledHalves(leaves, rest[..n], insert[0], rest[n..]) by {
        FirstPlain(insert);
      }
    }
  }

  lemma FirstPlain(insert: seq<string>)
    requires AllPlain(insert) && insert != []
    ensures Plain(insert[0])
  {
  }

  lemma FinishHasInterface(leaves: Leaves, q: Reading)
    requires Finish(leaves, q).Some?
    ensures InterfaceOf(leaves, q.interfaceLines) == Some(Finish(leaves, q).value.interface)
  {
  }

  lemma DropsHalves(raw: seq<string>, m: nat)
    requires m <= |raw| && DropsApps(raw)
    ensures DropsApps(raw[..m]) && DropsApps(raw[m..])
  {
    hide AppLine, IsApp, CleanLine;
  }
}
