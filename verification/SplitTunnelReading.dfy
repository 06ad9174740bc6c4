/** Parsing a text with and without application lines: what they change, and what a text that parses
    is made of. */
module SplitTunnelReading {
  import opened Wrappers
  import opened ConfigText
  import opened WgConfig
  import opened SplitTunnel
  import opened SplitTunnelLines

  // ---- The applications a text lists ----

  function LineApps(a: Attr, clean: string): seq<string> {
    var kv := ParseAttribute(clean);
    if kv.Some? && AttrOf(kv.value.0) == Some(a) then Split(kv.value.1) else []
  }

  function Listed(a: Attr, clean: seq<string>): seq<string> {
    if clean == [] then [] else LineApps(a, clean[0]) + Listed(a, clean[1..])
  }

  function TextApps(a: Attr, raw: seq<string>): seq<string> {
    if raw == [] then [] else LineApps(a, CleanLine(raw[0])) + TextApps(a, raw[1..])
  }

  lemma {:induction false} ListedAppend(a: Attr, s: seq<string>, t: seq<string>)
    ensures Listed(a, s + t) == Listed(a, s) + Listed(a, t)
  {
    hide LineApps;
    if s == [] {
      assert s + t == t;
    } else {
      assert (s + t)[1..] == s[1..] + t;
      ListedAppend(a, s[1..], t);
    }
  }

  lemma ListedOne(a: Attr, l: string)
    ensures Listed(a, [l]) == LineApps(a, l) && Listed(a, []) == [] && TextApps(a, []) == []
  {
    hide LineApps;
    assert [l][1..] == [];
    assert LineApps(a, l) + [] == LineApps(a, l);
  }

  lemma TextAppsHead(a: Attr, raw: seq<string>)
    requires raw != []
    ensures TextApps(a, raw) == LineApps(a, CleanLine(raw[0])) + TextApps(a, raw[1..])
  {
  }

  lemma OnlyApps(a: Attr, l: string)
    requires a == Excluded || a == Included
    ensures LineApps(a, l) != [] ==> IsApp(l)
  {
    hide AttrOf, Split;
  }

  // ---- AddAll ----

  lemma {:induction false} AddAllAppend(s: seq<string>, xs: seq<string>, ys: seq<string>)
    ensures AddAll(AddAll(s, xs), ys) == AddAll(s, xs + ys)
    decreases |xs|
  {
    if xs == [] {
      assert xs + ys == ys;
    } else {
      assert (xs + ys)[1..] == xs[1..] + ys;
      AddAllAppend(AddNew(s, xs[0]), xs[1..], ys);
    }
  }

  lemma {:induction false} AddAllHas(s: seq<string>, xs: seq<string>, x: string)
    ensures x in AddAll(s, xs) <==> x in s || x in xs
    decreases |xs|
  {
    if xs != [] {
      AddAllHas(AddNew(s, xs[0]), xs[1..], x);
      assert xs == [xs[0]] + xs[1..];
    }
  }

  lemma AddAllEmpty(xs: seq<string>)
    ensures AddAll([], xs) == [] <==> xs == []
  {
    if xs != [] {
      AddAllHas([], xs, xs[0]);
    }
  }

  // ---- The interface, apart from its applications ----

  function WithApps(b: InterfaceParts, e: seq<string>, i: seq<string>): InterfaceParts {
    b.(excluded := e, included := i)
  }

  function WithAppsIf(b: Option<InterfaceParts>, e: seq<string>, i: seq<string>): Option<InterfaceParts> {
    if b.None? then None else Some(WithApps(b.value, e, i))
  }

  lemma {:induction false} DnsFrame(leaves: Leaves, b: InterfaceParts, xs: seq<string>, e: seq<string>, i: seq<string>)
    ensures AddDns(leaves, WithApps(b, e, i), xs) == WithAppsIf(AddDns(leaves, b, xs), e, i)
    decreases |xs|
  {
    if xs != [] {
      var a := leaves.address(xs[0]);
      if a.Some? {
        DnsFrame(leaves, b.(dnsServers := AddNew(b.dnsServers, a.value)), xs[1..], e, i);
      } else {
        DnsFrame(leaves, b.(searchDomains := AddNew(b.searchDomains, xs[0])), xs[1..], e, i);
      }
    }
  }

  /** A line that lists no applications does not look at them. */
  lemma StepFrame(leaves: Leaves, b: InterfaceParts, line: string, e: seq<string>, i: seq<string>)
    requires !IsApp(line)
    ensures InterfaceStep(leaves, WithApps(b, e, i), line) == WithAppsIf(InterfaceStep(leaves, b, line), e, i)
  {
    hide AttrOf, Split, AddAll, Run, ParseAll;
    AttributeIsPlain(line);
    var kv := ParseAttribute(line);
    if kv.Some? {
      DnsFrame(leaves, b, Split(kv.value.1), e, i);
    }
  }

  lemma AttributeIsPlain(line: string)
    ensures ParseAttribute(line).Some? ==> !Header(line)
  {
  }

  lemma {:induction false} OthersFrame(leaves: Leaves, b: InterfaceParts, lines: seq<string>, e: seq<string>,
                                       i: seq<string>)
    ensures Fold(InterfaceReader(leaves), WithApps(b, e, i), Others(lines))
         == WithAppsIf(Fold(InterfaceReader(leaves), b, Others(lines)), e, i)
    decreases |lines|
  {
    hide InterfaceStep, IsApp, Others, Fold;
    var step := InterfaceReader(leaves);
    if lines == [] {
      NoOthers();
      FoldOne(step, b, "");
      FoldOne(step, WithApps(b, e, i), "");
    } else {
      OthersHead(lines);
      if IsApp(lines[0]) {
        OthersFrame(leaves, b, lines[1..], e, i);
      } else {
        var l, rest := lines[0], Others(lines[1..]);
        StepFrame(leaves, b, l, e, i);
        FoldCons(step, b, l, rest);
        FoldCons(step, WithApps(b, e, i), l, rest);
        var b' := InterfaceStep(leaves, b, l);
        if b'.Some? {
          OthersFrame(leaves, b'.value, lines[1..], e, i);
        }
      }
    }
  }

  lemma OthersHead(lines: seq<string>)
    requires lines != []
    ensures Others(lines) == if IsApp(lines[0]) then Others(lines[1..]) else [lines[0]] + Others(lines[1..])
  {
    hide IsApp;
    assert [] + Others(lines[1..]) == Others(lines[1..]);
  }

  lemma FoldCons<B>(step: (B, string) -> Option<B>, b: B, l: string, lines: seq<string>)
    ensures Fold(step, b, [l] + lines) == var b' := step(b, l); if b'.None? then None else Fold(step, b'.value, lines)
  {
    assert ([l] + lines)[1..] == lines;
  }

  lemma AppStep(leaves: Leaves, b: InterfaceParts, line: string)
    requires IsApp(line)
    ensures InterfaceStep(leaves, b, line) == Some(WithApps(b, AddAll(b.excluded, LineApps(Excluded, line)),
                                                           AddAll(b.included, LineApps(Included, line))))
  {
    hide AttrOf, Split, Run;
    assert AddAll(b.excluded, []) == b.excluded && AddAll(b.included, []) == b.included;
  }

  lemma NotAppStep(leaves: Leaves, b: InterfaceParts, line: string)
    requires !IsApp(line)
    ensures var r := InterfaceStep(leaves, b, line);
      r.Some? ==> r.value.excluded == b.excluded && r.value.included == b.included
    ensures LineApps(Excluded, line) == [] && LineApps(Included, line) == []
  {
    hide InterfaceStep, LineApps;
    StepFrame(leaves, b, line, b.excluded, b.included);
    OnlyApps(Excluded, line);
    OnlyApps(Included, line);
  }

  /** Any lines: what the others make of the interface, and the applications in order. */
  lemma {:induction false} FoldApps(leaves: Leaves, b: InterfaceParts, lines: seq<string>)
    ensures Fold(InterfaceReader(leaves), b, lines)
         == WithAppsIf(Fold(InterfaceReader(leaves), b, Others(lines)), AddAll(b.excluded, Listed(Excluded, lines)),
                       AddAll(b.included, Listed(Included, lines)))
    decreases |lines|
  {
    hide InterfaceStep, IsApp, Others, LineApps, AddAll, Fold;
    var step := InterfaceReader(leaves);
    if lines == [] {
      NoOthers();
      FoldOne(step, b, "");
      AddNothing(b.excluded);
      AddNothing(b.included);
    } else {
      var l, rest := lines[0], lines[1..];
      assert lines == [l] + rest;
      OthersHead(lines);
      FoldCons(step, b, l, rest);
      if IsApp(l) {
        AppStep(leaves, b, l);
        var b' := InterfaceStep(leaves, b, l).value;
        FoldApps(leaves, b', rest);
        OthersFrame(leaves, b, rest, b'.excluded, b'.included);
        AddAllAppend(b.excluded, LineApps(Excluded, l), Listed(Excluded, rest));
        AddAllAppend(b.included, LineApps(Included, l), Listed(Included, rest));
      } else {
        NotAppStep(leaves, b, l);
        assert [] + Listed(Excluded, rest) == Listed(Excluded, rest);
        assert [] + Listed(Included, rest) == Listed(Included, rest);
        FoldCons(step, b, l, Others(rest));
        var b' := InterfaceStep(leaves, b, l);
        if b'.Some? {
          FoldApps(leaves, b'.value, rest);
        }
      }
    }
  }

  lemma AddNothing(s: seq<string>)
    ensures AddAll(s, []) == s
  {
  }

  // ---- What a text that parses is made of ----

  predicate AllAttributes(lines: seq<string>) { forall k :: 0 <= k < |lines| ==> ParseAttribute(lines[k]).Some? }

  predicate NoApps(lines: seq<string>) { forall k :: 0 <= k < |lines| ==> !IsApp(lines[k]) }

  predicate AllReadable(raw: seq<string>) { forall k :: 0 <= k < |raw| ==> Readable(CleanLine(raw[k])) }

  lemma {:induction false} InterfaceAttributes(leaves: Leaves, b: InterfaceParts, lines: seq<string>)
    requires Fold(InterfaceReader(leaves), b, lines).Some?
    ensures AllAttributes(lines)
    decreases |lines|
  {
    hide ParseAttribute, SetInterface;
    if lines != [] {
      InterfaceAttributes(leaves, InterfaceStep(leaves, b, lines[0]).value, lines[1..]);
      assert lines == [lines[0]] + lines[1..];
    }
  }

  /** A peer has attributes, and none of them lists applications. */
  lemma {:induction false} PeerAttributes(leaves: Leaves, b: PeerParts, lines: seq<string>)
    requires Fold(PeerReader(leaves), b, lines).Some?
    ensures AllAttributes(lines) && NoApps(lines)
    decreases |lines|
  {
    hide ParseAttribute, AttrOf;
    if lines != [] {
      PeerAttributes(leaves, PeerStep(leaves, b, lines[0]).value, lines[1..]);
      assert lines == [lines[0]] + lines[1..];
    }
  }

  /** Every line kept so far can be parsed where it is. */
  predicate AllKept(r: Reading) {
    AllAttributes(r.interfaceLines) && (r.inPeer ==> AllAttributes(r.peerLines) && NoApps(r.peerLines))
  }

  lemma EndedIsRead(leaves: Leaves, r: Reading)
    requires EndSection(leaves, r).Some?
    ensures r.inPeer ==> AllAttributes(r.peerLines) && NoApps(r.peerLines)
  {
    hide AllAttributes, NoApps;
    if r.inPeer {
      PeerAttributes(leaves, NoPeer, r.peerLines);
    }
  }

  lemma LastIsRead(lines: seq<string>, l: string)
    ensures AllAttributes(lines + [l]) ==> AllAttributes(lines) && ParseAttribute(l).Some?
    ensures NoApps(lines + [l]) ==> NoApps(lines) && !IsApp(l)
  {
    hide ParseAttribute, IsApp;
    assert (lines + [l])[|lines|] == l;
    assert forall k :: 0 <= k < |lines| ==> (lines + [l])[k] == lines[k];
  }

  /** What is kept later was readable before, and applications are listed in interfaces. */
  lemma StepBack(leaves: Leaves, r: Reading, line: string)
    requires ReadClean(leaves, r, line).Some? && AllKept(ReadClean(leaves, r, line).value)
    ensures AllKept(r) && Readable(line) && (IsApp(line) ==> r.inInterface)
  {
    hide AllAttributes, NoApps, SameText, ParseAttribute, PeerOf, IsApp;
    AppIsPlain(line);
    LastIsRead(r.interfaceLines, line);
    LastIsRead(r.peerLines, line);
    if Header(line) {
      EndedIsRead(leaves, r);
    }
  }

  lemma {:induction false} ReadBack(leaves: Leaves, r: Reading, raw: seq<string>)
    requires Fold(LineReader(leaves), r, raw).Some? && AllKept(Fold(LineReader(leaves), r, raw).value)
    ensures AllKept(r) && AllReadable(raw)
    decreases |raw|
  {
    hide ReadClean, AllKept, Readable, CleanLine;
    if raw != [] {
      var l := CleanLine(raw[0]);
      ReadBack(leaves, ReadClean(leaves, r, l).value, raw[1..]);
      StepBack(leaves, r, l);
      assert raw == [raw[0]] + raw[1..];
    }
  }

  lemma FinishedIsKept(leaves: Leaves, q: Reading)
    requires Finish(leaves, q).Some?
    ensures AllKept(q)
  {
    hide Fold, AllAttributes, NoApps, EndSection;
    EndedIsRead(leaves, q);
    InterfaceAttributes(leaves, NoInterface, q.interfaceLines);
  }

  /** A text that parses has only blank lines, the two headers and attributes. */
  lemma ParsedIsReadable(leaves: Leaves, raw: seq<string>)
    requires ConfigOf(leaves, raw).Some?
    ensures AllReadable(raw)
  {
    hide Fold, Finish, AllKept, AllReadable;
    FinishedIsKept(leaves, Fold(LineReader(leaves), Unread, raw).value);
    ReadBack(leaves, Unread, raw);
  }

  // ---- The parser's variables without the lines the rewrite drops ----

  function With(r: Reading, lines: seq<string>): Reading { r.(interfaceLines := lines) }

  /** What one line adds to the interface. */
  function Added(r: Reading, line: string): seq<string> {
    if line != "" && !Header(line) && r.inInterface then [line] else []
  }

  lemma StepWith(leaves: Leaves, r: Reading, line: string, lines: seq<string>)
    requires ReadClean(leaves, r, line).Some?
    ensures var r' := ReadClean(leaves, r, line).value;
      && r'.interfaceLines == r.interfaceLines + Added(r, line)
      && ReadClean(leaves, With(r, lines), line) == Some(With(r', lines + Added(r, line)))
      && (Added(r, line) != [] ==> r' == With(r, r.interfaceLines + [line]))
  {
    hide PeerOf, SameText;
    assert r.interfaceLines + [] == r.interfaceLines && lines + [] == lines;
  }

  /** The lines of the interface with and without those dropped: the same others, and the
      applications of the lines that stay. */
  predicate Thinned(added: seq<string>, kept: seq<string>, rest: seq<string>) {
    && Others(kept) == Others(added)
    && Listed(Excluded, kept) == TextApps(Excluded, rest) && Listed(Included, kept) == TextApps(Included, rest)
    && (Listed(Excluded, added) == [] ==> Listed(Excluded, kept) == [])
    && (Listed(Included, added) == [] ==> Listed(Included, kept) == [])
  }

  lemma ThinnedNone()
    ensures Thinned([], [], OtherLines([]))
  {
    NoOthers();
  }

  lemma ThinnedAppend(added: seq<string>, kept: seq<string>, rest: seq<string>, added': seq<string>, kept': seq<string>,
                      rest': seq<string>)
    requires Thinned(added, kept, rest) && Thinned(added', kept', rest')
    ensures Thinned(added + added', kept + kept', rest + rest')
  {
    hide Others, Listed, TextApps;
    OthersAppend(added, added');
    OthersAppend(kept, kept');
    forall a | a == Excluded || a == Included
      ensures Listed(a, added + added') == Listed(a, added) + Listed(a, added')
      ensures Listed(a, kept + kept') == Listed(a, kept) + Listed(a, kept')
      ensures TextApps(a, rest + rest') == TextApps(a, rest) + TextApps(a, rest')
    {
      ListedAppend(a, added, added');
      ListedAppend(a, kept, kept');
      TextAppsAppend(a, rest, rest');
    }
  }

  lemma {:induction false} TextAppsAppend(a: Attr, s: seq<string>, t: seq<string>)
    ensures TextApps(a, s + t) == TextApps(a, s) + TextApps(a, t)
  {
    hide LineApps, CleanLine;
    if s == [] {
      assert s + t == t;
    } else {
      assert (s + t)[1..] == s[1..] + t;
      TextAppsAppend(a, s[1..], t);
    }
  }

  /** One line that stays, and one that is dropped. */
  lemma ThinnedOne(r: Reading, line: string)
    requires IsApp(CleanLine(line)) ==> r.inInterface
    ensures var one := Added(r, CleanLine(line)); Thinned(one, one, [line])
    ensures IsApp(CleanLine(line)) ==>
      Added(r, CleanLine(line)) == [CleanLine(line)] && Thinned([CleanLine(line)], [], [])
  {
    hide CleanLine, IsApp, LineApps, Others;
    var l := CleanLine(line);
    AppIsPlain(l);
    OthersOne(l);
    NoOthers();
    forall a | a == Excluded || a == Included
      ensures Listed(a, Added(r, l)) == TextApps(a, [line]) && Listed(a, []) == TextApps(a, []) == []
    {
      ListedOne(a, l);
      TextAppsHead(a, [line]);
      OnlyApps(a, l);
      assert [line][1..] == [];
      assert LineApps(a, l) + [] == LineApps(a, l);
    }
  }

  /** The rewrite drops application lines only. */
  predicate DropsApps(raw: seq<string>) { forall k :: 0 <= k < |raw| && AppLine(raw[k]) ==> IsApp(CleanLine(raw[k])) }

  lemma DropsTail(raw: seq<string>)
    requires DropsApps(raw) && raw != []
    ensures DropsApps(raw[1..]) && (AppLine(raw[0]) ==> IsApp(CleanLine(raw[0])))
  {
    hide AppLine, IsApp, CleanLine;
  }

  lemma {:induction false} ReadThinned(leaves: Leaves, r: Reading, raw: seq<string>, lines: seq<string>)
    returns (added: seq<string>, kept: seq<string>)
    requires Fold(LineReader(leaves), r, raw).Some? && AllKept(Fold(LineReader(leaves), r, raw).value) && DropsApps(raw)
    ensures var q := Fold(LineReader(leaves), r, raw).value;
      && q.interfaceLines == r.interfaceLines + added && Thinned(added, kept, OtherLines(raw))
      && Fold(LineReader(leaves), With(r, lines), OtherLines(raw)) == Some(With(q, lines + kept))
    decreases |raw|
  {
    hide ReadClean, AllKept, Readable, CleanLine, IsApp, AppLine, Thinned, Added, OtherLines, DropsApps, Fold,
         AllReadable;
    if raw == [] {
      added, kept := [], [];
      ThinnedNone();
      NoOthers();
      FoldOne(LineReader(leaves), r, "");
      FoldOne(LineReader(leaves), With(r, lines), "");
      assert r.interfaceLines + [] == r.interfaceLines && lines + [] == lines;
    } else {
      var l := CleanLine(raw[0]);
      assert raw == [raw[0]] + raw[1..];
      FoldCons(LineReader(leaves), r, raw[0], raw[1..]);
      DropsTail(raw);
      var r', one := ReadClean(leaves, r, l).value, Added(r, l);
      var rest := OtherLines(raw[1..]);
      ReadBack(leaves, r', raw[1..]);
      StepBack(leaves, r, l);
      StepWith(leaves, r, l, lines);
      ThinnedOne(r, raw[0]);
      OtherLinesHead(raw);
      if AppLine(raw[0]) {
        added, kept := ReadThinned(leaves, r', raw[1..], lines);
        ThinnedAppend([l], [], [], added, kept, rest);
        assert [] + kept == kept && [] + rest == rest;
      } else {
        added, kept := ReadThinned(leaves, r', raw[1..], lines + one);
        ThinnedAppend(one, one, [raw[0]], added, kept, rest);
        FoldCons(LineReader(leaves), With(r, lines), raw[0], rest);
        assert lines + one + kept == lines + (one + kept);
        kept := one + kept;
      }
      assert r.interfaceLines + one + added == r.interfaceLines + (one + added);
      added := one + added;
    }
  }
}
