/** app/src/main/java/uk/co/aiovpn/android/repo/VpnRepository.kt, applySplitTunneling: replacing the
    application lists in the text of a configuration, against what the parser makes of it. */
module SplitTunnel {
  import opened Wrappers
  import opened ConfigText
  import opened WgConfig

  datatype Mode = Off | ExcludeApps | IncludeOnlyApps

  /** CharSequence.lines: what follows the last line break is a line too. */
  function KotlinLines(text: string): (r: seq<string>)
    ensures r != []
    decreases |text|
  {
    var n := Run(c => c != '\n' && c != '\r', text);
    if n == |text| then [text]
    else if text[n] == '\r' && n + 1 < |text| && text[n + 1] == '\n' then [text[..n]] + KotlinLines(text[n + 2..])
    else [text[..n]] + KotlinLines(text[n + 1..])
  }

  // ---- What the rewrite looks at ----

  /** Char.isWhitespace. */
  predicate KotlinBlank(c: char) {
    || 9 as char <= c <= 13 as char || 28 as char <= c <= 32 as char || c == 0xa0 as char || c == 0x1680 as char
    || 0x2000 as char <= c <= 0x200a as char || c == 0x2028 as char || c == 0x2029 as char || c == 0x202f as char
    || c == 0x205f as char || c == 0x3000 as char
  }

  function KotlinTrimEnd(s: string): string {
    if s != "" && KotlinBlank(s[|s| - 1]) then KotlinTrimEnd(s[..|s| - 1]) else s
  }

  function KotlinTrim(s: string): string { KotlinTrimEnd(s[Run(KotlinBlank, s)..]) }

  predicate StartsWith(s: string, prefix: string) { |s| >= |prefix| && SameText(s[..|prefix|], prefix) }

  const EXCLUDED_PREFIX := "ExcludedApplications ="
  const INCLUDED_PREFIX := "IncludedApplications ="

  predicate AppLine(line: string) {
    StartsWith(KotlinTrim(line), EXCLUDED_PREFIX) || StartsWith(KotlinTrim(line), INCLUDED_PREFIX)
  }

  predicate PeerHeaderLine(line: string) { SameText(KotlinTrim(line), PEER_HEADER) }

  function Filter(p: string -> bool, s: seq<string>): seq<string> {
    if s == [] then [] else (if p(s[0]) then [s[0]] else []) + Filter(p, s[1..])
  }

  lemma {:induction false} FilterAppend(p: string -> bool, s: seq<string>, t: seq<string>)
    ensures Filter(p, s + t) == Filter(p, s) + Filter(p, t)
  {
    if s == [] {
      assert s + t == t;
    } else {
      assert (s + t)[1..] == s[1..] + t;
      FilterAppend(p, s[1..], t);
    }
  }

  lemma FilterOne(p: string -> bool, x: string)
    ensures Filter(p, [x]) == if p(x) then [x] else []
  {
    assert [x][1..] == [];
  }

  function OtherLines(lines: seq<string>): seq<string> { Filter(x => !AppLine(x), lines) }

  /** indexOfFirst, or the end. */
  function FirstPeer(lines: seq<string>): (n: nat)
    ensures n <= |lines| && (forall k :: 0 <= k < n ==> !PeerHeaderLine(lines[k]))
    ensures n < |lines| ==> PeerHeaderLine(lines[n])
  {
    if lines == [] || PeerHeaderLine(lines[0]) then 0 else 1 + FirstPeer(lines[1..])
  }

  /** The line to put in, if the mode has one. */
  function NewLine(mode: Mode, excluded: seq<string>, included: seq<string>): seq<string> {
    match mode
    case ExcludeApps => if excluded == [] then [] else [AttrLine(Excluded, JoinWith(",", excluded))]
    case IncludeOnlyApps => if included == [] then [] else [AttrLine(Included, JoinWith(",", included))]
    case Off => []
  }

  function Rewritten(lines: seq<string>, insert: seq<string>): seq<string> {
    var rest := OtherLines(lines);
    var n := FirstPeer(rest);
    rest[..n] + insert + rest[n..]
  }

  method ApplySplitTunneling(configText: string, mode: Mode, excluded: seq<string>, included: seq<string>)
    returns (text: string)
    ensures text == if mode.Off? then configText
                    else JoinWith("\n", Rewritten(KotlinLines(configText), NewLine(mode, excluded, included)))
  {
    hide AppLine, PeerHeaderLine, AttrLine, JoinWith, KotlinLines, OtherLines, FirstPeer;
    if mode.Off? {
      return configText;
    }
    var lines, out := KotlinLines(configText), [];
    var i := 0;
    NoOthers();
    assert lines[..0] == [];
    while i < |lines|
      invariant 0 <= i <= |lines| && out == OtherLines(lines[..i])
    {
      OtherLinesNext(lines, i);
      if !AppLine(lines[i]) {
        out := out + [lines[i]];
      }
      i := i + 1;
    }
    assert lines[..i] == lines;
    var peerIndex := 0;
    while peerIndex < |out| && !PeerHeaderLine(out[peerIndex])
      invariant 0 <= peerIndex <= |out| && forall k :: 0 <= k < peerIndex ==> !PeerHeaderLine(out[k])
    {
      peerIndex := peerIndex + 1;
    }
    FirstPeerIs(out, peerIndex);
    match mode {
      case ExcludeApps =>
        if excluded != [] {
          out := out[..peerIndex] + [AttrLine(Excluded, JoinWith(",", excluded))] + out[peerIndex..];
        } else {
          assert out[..peerIndex] + [] + out[peerIndex..] == out;
        }
      case IncludeOnlyApps =>
        if included != [] {
          out := out[..peerIndex] + [AttrLine(Included, JoinWith(",", included))] + out[peerIndex..];
        } else {
          assert out[..peerIndex] + [] + out[peerIndex..] == out;
        }
    }
    text := JoinWith("\n", out);
  }

  lemma OtherLinesNext(lines: seq<string>, i: nat)
    requires i < |lines|
    ensures OtherLines(lines[..i + 1]) == OtherLines(lines[..i]) + if AppLine(lines[i]) then [] else [lines[i]]
  {
    hide AppLine, Filter;
    assert lines[..i + 1] == lines[..i] + [lines[i]];
    FilterAppend(x => !AppLine(x), lines[..i], [lines[i]]);
    FilterOne(x => !AppLine(x), lines[i]);
  }

  lemma FirstPeerIs(lines: seq<string>, n: nat)
    requires n <= |lines| && (forall k :: 0 <= k < n ==> !PeerHeaderLine(lines[k]))
    requires n < |lines| ==> PeerHeaderLine(lines[n])
    ensures FirstPeer(lines) == n
  {
  }

  // ---- What the parser looks at ----

  /** A cleaned line that sets an application list. */
  predicate IsApp(line: string) {
    var kv := ParseAttribute(line);
    !Header(line) && kv.Some? && (AttrOf(kv.value.0) == Some(Excluded) || AttrOf(kv.value.0) == Some(Included))
  }

  function Others(lines: seq<string>): seq<string> { Filter(x => !IsApp(x), lines) }

  lemma NoOthers()
    ensures Others([]) == [] && OtherLines([]) == []
  {
  }

  lemma OthersAppend(s: seq<string>, t: seq<string>)
    ensures Others(s + t) == Others(s) + Others(t)
  {
    FilterAppend(x => !IsApp(x), s, t);
  }

  lemma OthersOne(l: string)
    ensures Others([l]) == if IsApp(l) then [] else [l]
  {
    FilterOne(x => !IsApp(x), l);
  }

  lemma OtherLinesHead(raw: seq<string>)
    requires raw != []
    ensures OtherLines(raw) == if AppLine(raw[0]) then OtherLines(raw[1..]) else [raw[0]] + OtherLines(raw[1..])
  {
    hide AppLine;
    assert [] + OtherLines(raw[1..]) == OtherLines(raw[1..]);
  }

  lemma AppIsPlain(line: string)
    ensures IsApp(line) ==> line != "" && !Header(line)
  {
  }
}
