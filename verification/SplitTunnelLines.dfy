/** Which lines the split-tunnel rewrite sees: VpnRepository.kt trims, tests a prefix and compares,
    where the parser strips a comment, trims in its own way and matches a pattern. */
module SplitTunnelLines {
  import opened Wrappers
  import opened ConfigText
  import opened WgConfig
  import opened SplitTunnel

  /** A cleaned line the parser can do something with. */
  predicate Readable(clean: string) {
    clean == "" || SameText(clean, INTERFACE_HEADER) || SameText(clean, PEER_HEADER) || ParseAttribute(clean).Some?
  }

  /** One blank before the equals sign, behind a name of twenty characters. */
  predicate OneBlank(clean: string) { |clean| >= 22 && clean[20] == ' ' && clean[21] == '=' }

  /** What Java trims in front of the line, and behind it, Kotlin trims too. They differ on control
      characters such as U+0001. */
  predicate Lead(line: string) { forall k :: 0 <= k < Run(Low, line) ==> KotlinBlank(line[k]) }

  predicate Trail(line: string) {
    forall k :: Run(Low, line) + |TrimEnd(Shown(line))| <= k < |line| ==> KotlinBlank(line[k])
  }

  // ---- Trimming ----

  lemma {:induction false} TrimEndPrefix(s: string)
    ensures |TrimEnd(s)| <= |s| && TrimEnd(s) == s[..|TrimEnd(s)|]
    ensures TrimEnd(s) != "" ==> !Low(TrimEnd(s)[|TrimEnd(s)| - 1])
  {
    if s != "" && Low(s[|s| - 1]) {
      TrimEndPrefix(s[..|s| - 1]);
    } else {
      assert s[..|s|] == s;
    }
  }

  lemma {:induction false} TrimEndReaches(s: string, m: nat)
    requires m < |s| && !Low(s[m])
    ensures m < |TrimEnd(s)|
  {
    if Low(s[|s| - 1]) {
      TrimEndReaches(s[..|s| - 1], m);
    }
  }

  lemma {:induction false} KotlinTrimEndPrefix(s: string)
    ensures var n := |KotlinTrimEnd(s)|;
      n <= |s| && KotlinTrimEnd(s) == s[..n] && forall k :: n <= k < |s| ==> KotlinBlank(s[k])
  {
    hide KotlinBlank;
    if s != "" && KotlinBlank(s[|s| - 1]) {
      KotlinTrimEndPrefix(s[..|s| - 1]);
    } else {
      assert s[..|s|] == s;
    }
  }

  lemma {:induction false} KotlinTrimEndIs(s: string, n: nat)
    requires 0 < n <= |s| && !KotlinBlank(s[n - 1]) && forall k :: n <= k < |s| ==> KotlinBlank(s[k])
    ensures KotlinTrimEnd(s) == s[..n]
    decreases |s|
  {
    hide KotlinBlank;
    if n < |s| {
      KotlinTrimEndIs(s[..|s| - 1], n);
      assert s[..|s| - 1][..n] == s[..n];
    } else {
      assert s[..n] == s;
    }
  }

  // ---- The comment ----

  /** The line from its first visible character on; the part of that before the comment. */
  function Shown(line: string): string { line[Run(Low, line)..] }

  function Uncommented(t: string): string { t[..Index(t, '#')] }

  lemma IndexIs(t: string, n: nat)
    requires n <= |t| && '#' !in t[..n] && (n < |t| ==> t[n] == '#')
    ensures Index(t, '#') == n
  {
    forall k | 0 <= k < n ensures t[k] != '#' {
      assert t[..n][k] == t[k];
    }
    RunIs(x => x != '#', t, n);
  }

  lemma BlankLine(line: string)
    requires Run(Low, line) == |line|
    ensures CleanLine(line) == TrimEnd(Uncommented(Shown(line)))
  {
    var h := Index(line, '#');
    RunIs(Low, line[..h], h);
    assert line[..h][h..] == "" == Uncommented(Shown(line));
  }

  lemma CleanIsUncommented(line: string)
    ensures CleanLine(line) == TrimEnd(Uncommented(Shown(line)))
  {
    hide TrimEnd, Run;
    var s, h := Run(Low, line), Index(line, '#');
    if s < |line| {
      assert h >= |line| || !Low(line[h]);
      var t := line[s..];
      assert t[..h - s] == line[..h][s..];
      IndexIs(t, h - s);
      RunIs(Low, line[..h], s);
    } else {
      BlankLine(line);
    }
  }

  lemma ShownHasComment(line: string)
    ensures '#' in line <==> '#' in Shown(line)
  {
    hide Run;
    assert line == line[..Run(Low, line)] + Shown(line);
  }

  // ---- Starting like an application line ----

  /** A prefix without a comment, with a visible end. */
  predicate Opening(p: string) {
    p != "" && LowerChar(p[|p| - 1]) == '=' && forall k :: 0 <= k < |p| ==> LowerChar(p[k]) != '#'
  }

  lemma StartIs(s: string, p: string)
    ensures StartsWith(s, p) <==> |s| >= |p| && forall k :: 0 <= k < |p| ==> LowerChar(s[k]) == LowerChar(p[k])
  {
    if |s| >= |p| {
      var a := s[..|p|];
      assert forall k :: 0 <= k < |p| ==> LowerText(a)[k] == LowerChar(s[k]) && LowerText(p)[k] == LowerChar(p[k]);
    }
  }

  lemma TrimmedStart(s: string, p: string)
    requires Opening(p)
    ensures StartsWith(TrimEnd(s), p) <==> StartsWith(s, p)
    ensures StartsWith(KotlinTrimEnd(s), p) <==> StartsWith(s, p)
  {
    hide TrimEnd, KotlinTrimEnd, StartsWith;
    TrimEndPrefix(s);
    KotlinTrimEndPrefix(s);
    StartIs(s, p);
    StartIs(TrimEnd(s), p);
    StartIs(KotlinTrimEnd(s), p);
    if StartsWith(s, p) {
      TrimEndReaches(s, |p| - 1);
      assert s[|p| - 1] == '=';
    }
  }

  lemma UncommentedStart(t: string, p: string)
    requires Opening(p)
    ensures StartsWith(Uncommented(t), p) <==> StartsWith(t, p)
  {
    hide StartsWith, Index;
    StartIs(t, p);
    StartIs(Uncommented(t), p);
  }

  /** A line that starts with a blank only Kotlin knows is nothing to the parser. */
  lemma StrangeStart(line: string)
    requires Run(Low, line) < |line| && KotlinBlank(line[Run(Low, line)])
    ensures !Readable(CleanLine(line))
  {
    hide TrimEnd, Run, CleanLine, KotlinBlank, LowerText;
    var t := Shown(line);
    var c := CleanLine(line);
    CleanIsUncommented(line);
    NotBlank('#');
    TrimEndReaches(Uncommented(t), 0);
    TrimEndPrefix(Uncommented(t));
    assert c[0] == line[Run(Low, line)];
    NotBlank(c[0]);
    assert Run(Word, c) == 0;
    assert LowerText(c)[0] == c[0] && LowerText(INTERFACE_HEADER)[0] == '[' && LowerText(PEER_HEADER)[0] == '[';
  }

  lemma NotBlank(c: char)
    ensures KotlinBlank(c) ==> !Word(c) && c != '[' && c != ']' && c != '#' && c != '=' && LowerChar(c) == c
  {
  }

  /** Both start at the same place, if either finds something there that neither takes for blank. */
  lemma SamePlace(line: string)
    requires Readable(CleanLine(line))
    ensures var s, s' := Run(Low, line), Run(KotlinBlank, line);
      && (s' < |line| && !Low(line[s']) ==> s == s' && Lead(line))
      && (s < |line| && !KotlinBlank(line[s]) && Lead(line) ==> s == s')
  {
    hide Readable, CleanLine, KotlinBlank, Run;
    var s, s' := Run(Low, line), Run(KotlinBlank, line);
    if s < s' {
      StrangeStart(line);
    }
    if s < |line| && !KotlinBlank(line[s]) && Lead(line) {
      RunIs(KotlinBlank, line, s);
    }
  }

  lemma StartPlace(line: string, p: string)
    requires Readable(CleanLine(line)) && Opening(p) && Word(p[0])
    ensures StartsWith(KotlinTrim(line), p) <==> StartsWith(CleanLine(line), p) && Lead(line)
  {
    hide Readable, CleanLine, Uncommented, TrimEnd, KotlinTrimEnd, StartsWith, Run, Lead, KotlinBlank;
    var s, s' := Run(Low, line), Run(KotlinBlank, line);
    SamePlace(line);
    CleanIsUncommented(line);
    TrimmedStart(Shown(line), p);
    UncommentedStart(Shown(line), p);
    TrimmedStart(Uncommented(Shown(line)), p);
    TrimmedStart(line[s'..], p);
    StartIs(line[s..], p);
    StartIs(line[s'..], p);
    if StartsWith(line[s'..], p) {
      WordsByCase(line[s'], p[0]);
    }
    if StartsWith(line[s..], p) {
      WordsByCase(line[s], p[0]);
      NotBlank(line[s]);
    }
  }

  // ---- Application lines ----

  lemma OpeningOf(a: Attr)
    requires a == Excluded || a == Included
    ensures Opening(NameOf(a) + " =") && |NameOf(a)| == 20 && Word(NameOf(a)[0])
  {
    hide NameOf;
    NameMark(a);
    NameIsWord(a);
  }

  lemma NamedIs(key: string, a: Attr)
    ensures AttrOf(key) == Some(a) <==> Named(key, a)
  {
    hide NameOf, LowerText;
    if Named(key, a) {
      forall b ensures Named(key, b) <==> a == b {
        OtherName(a, b);
      }
    }
  }

  lemma WordsByCase(c: char, d: char)
    requires LowerChar(c) == LowerChar(d)
    ensures Word(c) <==> Word(d)
  {
  }

  /** The key is the name, if the line starts with the name and a blank. */
  lemma KeyIs(c: string, a: Attr)
    requires StartsWith(c, NameOf(a) + " =")
    ensures var n := |NameOf(a)|;
      |c| >= n + 2 && Run(Word, c) == n && Named(c[..n], a) && c[n] == ' ' && c[n + 1] == '='
  {
    hide NameOf, Run, StartsWith;
    var p, n := NameOf(a) + " =", |NameOf(a)|;
    StartIs(c, p);
    NameIsWord(a);
    assert p[n] == ' ' && p[n + 1] == '=';
    forall k | 0 <= k < n ensures Word(c[k]) && LowerChar(c[k]) == LowerChar(NameOf(a)[k]) {
      assert p[k] == NameOf(a)[k];
      WordsByCase(c[k], p[k]);
    }
    RunIs(Word, c, n);
    assert LowerText(c[..n]) == LowerText(NameOf(a));
  }

  lemma StartFromKey(c: string, a: Attr)
    requires var n := |NameOf(a)|; |c| >= n + 2 && Named(c[..n], a) && c[n] == ' ' && c[n + 1] == '='
    ensures StartsWith(c, NameOf(a) + " =")
  {
    hide NameOf, StartsWith;
    var p, n := NameOf(a) + " =", |NameOf(a)|;
    forall k | 0 <= k < n ensures LowerChar(c[k]) == LowerChar(p[k]) {
      assert LowerText(c[..n])[k] == LowerText(NameOf(a))[k];
    }
    StartIs(c, p);
  }

  /** A line for this attribute, with one blank before its equals sign. */
  lemma StartsIff(c: string, a: Attr)
    requires Readable(c) && (a == Excluded || a == Included)
    ensures StartsWith(c, NameOf(a) + " =")
      <==> var kv := ParseAttribute(c); !Header(c) && kv.Some? && AttrOf(kv.value.0) == Some(a) && OneBlank(c)
  {
    hide NameOf, Run, StartsWith, AttrOf, LowerText;
    var kv := ParseAttribute(c);
    OpeningOf(a);
    if StartsWith(c, NameOf(a) + " =") {
      KeyIs(c, a);
      NamedIs(c[..20], a);
      StartIs(c, NameOf(a) + " =");
      assert (NameOf(a) + " =")[0] == NameOf(a)[0];
      WordsByCase(c[0], NameOf(a)[0]);
      assert LowerText(c)[0] != '[' && LowerText(INTERFACE_HEADER)[0] == '[' && LowerText(PEER_HEADER)[0] == '[';
    } else if kv.Some? && AttrOf(kv.value.0) == Some(a) && OneBlank(c) {
      NamedIs(kv.value.0, a);
      assert |kv.value.0| == 20;
      StartFromKey(c, a);
    }
  }

  /** The rewrite sees exactly the application lines with one blank before the equals sign and
      nothing in front that only Java trims. In particular it drops no other line. */
  lemma SeenIff(line: string)
    requires Readable(CleanLine(line))
    ensures AppLine(line) <==> IsApp(CleanLine(line)) && OneBlank(CleanLine(line)) && Lead(line)
  {
    hide CleanLine, StartsWith, ParseAttribute, AttrOf, KotlinTrim, Opening, Readable, Lead;
    Prefixes();
    OpeningOf(Excluded);
    OpeningOf(Included);
    StartPlace(line, EXCLUDED_PREFIX);
    StartPlace(line, INCLUDED_PREFIX);
    StartsIff(CleanLine(line), Excluded);
    StartsIff(CleanLine(line), Included);
  }

  lemma Prefixes()
    ensures EXCLUDED_PREFIX == NameOf(Excluded) + " =" && INCLUDED_PREFIX == NameOf(Included) + " ="
    ensures Word(EXCLUDED_PREFIX[0]) && Word(INCLUDED_PREFIX[0])
  {
  }

  // ---- [Peer] ----

  lemma PeerIs(s: string)
    ensures SameText(s, PEER_HEADER) ==> |s| == 6 && s[0] == '[' && s[5] == ']' && '#' !in s
    ensures SameText(s, INTERFACE_HEADER) ==> |s| == 11 && s[10] == ']'
  {
    var p, i := LowerText(PEER_HEADER), LowerText(INTERFACE_HEADER);
    assert |p| == 6 && p[0] == '[' && p[5] == ']' && |i| == 11 && i[10] == ']';
    assert forall k :: 0 <= k < 6 ==> p[k] != '#';
    assert forall k :: 0 <= k < |s| ==> LowerText(s)[k] == LowerChar(s[k]);
  }

  lemma NothingToStrip(t: string)
    requires '#' !in t
    ensures Uncommented(t) == t
  {
    IndexIs(t, |t|);
  }

  /** Kotlin's [Peer]: the parser's, with no comment and nothing around it that only Java trims. */
  lemma PeerSeen(line: string)
    requires Readable(CleanLine(line)) && PeerHeaderLine(line)
    ensures SameText(CleanLine(line), PEER_HEADER) && '#' !in line && Lead(line) && Trail(line)
  {
    hide Readable, CleanLine, KotlinTrimEnd, TrimEnd, Run, KotlinBlank, SameText, Uncommented;
    var s := Run(KotlinBlank, line);
    var t := line[s..];
    SamePlace(line);
    PeerIs(KotlinTrim(line));
    KotlinTrimEndPrefix(t);
    assert t == Shown(line) && t[..6] == KotlinTrimEnd(t);
    NotBlank('#');
    assert '#' !in t by {
      assert t == t[..6] + t[6..];
    }
    ShownHasComment(line);
    NothingToStrip(t);
    CleanIsUncommented(line);
    TailIsBlank(t, TrimEnd(t));
  }

  /** What is left of [Peer] and blanks is [Peer], if the parser can read it. */
  lemma TailIsBlank(t: string, c: string)
    requires c == TrimEnd(t) && Readable(c) && |t| >= 6 && SameText(t[..6], PEER_HEADER)
    requires forall k :: 6 <= k < |t| ==> KotlinBlank(t[k])
    ensures c == t[..6]
  {
    hide TrimEnd, KotlinBlank, SameText, Run;
    PeerIs(t[..6]);
    PeerIs(c);
    TrimEndPrefix(t);
    TrimEndReaches(t, 5);
    assert c[0] == t[..6][0];
    var last := c[|c| - 1];
    NotBlank(last);
    assert Run(Word, c) == 0;
  }

  lemma SeenPeer(line: string)
    requires SameText(CleanLine(line), PEER_HEADER) && '#' !in line && Lead(line) && Trail(line)
    ensures PeerHeaderLine(line)
  {
    hide CleanLine, KotlinTrimEnd, TrimEnd, Run, KotlinBlank, SameText, Uncommented, Readable;
    var t, c := Shown(line), CleanLine(line);
    SamePlace(line) by {
      PeerReadable(c);
    }
    ShownHasComment(line);
    NothingToStrip(t);
    CleanIsUncommented(line);
    TrimEndPrefix(t);
    PeerIs(c);
    NotBlank(c[0]);
    NotBlank(c[5]);
    assert t[0] == c[0] && t[5] == c[5];
    KotlinTrimEndIs(t, 6);
  }

  lemma PeerReadable(c: string)
    requires SameText(c, PEER_HEADER)
    ensures Readable(c)
  {
  }

  // ---- Both ----

  /** The rewrite takes for application lines and [Peer] headers what the parser takes for them. */
  predicate Agrees(line: string) {
    && (AppLine(line) <==> IsApp(CleanLine(line)))
    && (PeerHeaderLine(line) <==> SameText(CleanLine(line), PEER_HEADER))
  }

  predicate AllAgree(lines: seq<string>) { forall k :: 0 <= k < |lines| ==> Agrees(lines[k]) }

  /** On every line that the parser can read. */
  lemma AgreesIff(line: string)
    requires Readable(CleanLine(line))
    ensures Agrees(line)
      <==> && (IsApp(CleanLine(line)) ==> OneBlank(CleanLine(line)) && Lead(line))
           && (SameText(CleanLine(line), PEER_HEADER) ==> '#' !in line && Lead(line) && Trail(line))
  {
    hide CleanLine, AppLine, IsApp, SameText, PeerHeaderLine, Readable, Lead, Trail, OneBlank;
    SeenIff(line);
    if PeerHeaderLine(line) {
      PeerSeen(line);
    } else if SameText(CleanLine(line), PEER_HEADER) && '#' !in line && Lead(line) && Trail(line) {
      SeenPeer(line);
    }
  }
}
