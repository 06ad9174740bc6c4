/** The spans of a configuration, read line by line: what the one-pass machine of
    tunnel/tools/wireguard-tools/contrib/highlighter/highlighter.c has to produce. */
module HighlightSpec {
  import opened Numbers
  import opened Characters
  import opened IpText
  import opened HighlightValues
  import KeyText

  datatype Kind =
    | HighlightSection | HighlightField | HighlightPrivateKey | HighlightPublicKey | HighlightPresharedKey
    | HighlightIP | HighlightCidr | HighlightHost | HighlightPort | HighlightMTU | HighlightKeepalive
    | HighlightComment | HighlightDelimiter | HighlightTable | HighlightFwMark | HighlightSaveConfig
    | HighlightCmd | HighlightError | HighlightEnd

  datatype Field =
    | InterfaceSection | PrivateKey | ListenPort | Address | DNS | MTU | FwMark | Table | PreUp | PostUp
    | PreDown | PostDown | SaveConfig
    | PeerSection | PublicKey | PresharedKey | AllowedIPs | EndpointField | PersistentKeepalive
    | Invalid

  datatype Span = Span(kind: Kind, start: nat, len: nat) {
    function End(): nat { start + len }
  }

  // ---- Names ----

  function Upper(c: int): int { if 97 <= c <= 122 then c - 32 else c }

  /** is_caseless_same and, without folding, is_same. */
  predicate CaselessSame(t: seq<uint8>, name: string) {
    |t| == |name| && forall k :: 0 <= k < |t| ==> Upper(t[k]) == Upper(name[k] as int)
  }

  predicate Same(t: seq<uint8>, name: string) {
    |t| == |name| && forall k :: 0 <= k < |t| ==> t[k] == name[k] as int
  }

  function GetField(t: seq<uint8>): Field {
    if CaselessSame(t, "PrivateKey") then PrivateKey
    else if CaselessSame(t, "ListenPort") then ListenPort
    else if CaselessSame(t, "Address") then Address
    else if CaselessSame(t, "DNS") then DNS
    else if CaselessSame(t, "MTU") then MTU
    else if CaselessSame(t, "PublicKey") then PublicKey
    else if CaselessSame(t, "PresharedKey") then PresharedKey
    else if CaselessSame(t, "AllowedIPs") then AllowedIPs
    else if CaselessSame(t, "Endpoint") then EndpointField
    else if CaselessSame(t, "PersistentKeepalive") then PersistentKeepalive
    else if CaselessSame(t, "FwMark") then FwMark
    else if CaselessSame(t, "Table") then Table
    else if CaselessSame(t, "PreUp") then PreUp
    else if CaselessSame(t, "PostUp") then PostUp
    else if CaselessSame(t, "PreDown") then PreDown
    else if CaselessSame(t, "PostDown") then PostDown
    else if CaselessSame(t, "SaveConfig") then SaveConfig
    else Invalid
  }

  function SectionForField(f: Field): Field {
    match f
    case InterfaceSection => Invalid
    case PeerSection => Invalid
    case Invalid => Invalid
    case PublicKey => PeerSection
    case PresharedKey => PeerSection
    case AllowedIPs => PeerSection
    case EndpointField => PeerSection
    case PersistentKeepalive => PeerSection
    case _ => InterfaceSection
  }

  function GetSectionType(t: seq<uint8>): Field {
    if CaselessSame(t, "[Peer]") then PeerSection
    else if CaselessSame(t, "[Interface]") then InterfaceSection
    else Invalid
  }

  // ---- What a span says about its text ----

  function BitsOf(c: uint8): bv8 { c as bv8 }

  function AsBits(t: seq<uint8>): (r: KeyText.Bits)
    ensures |r| == |t|
  {
    seq(|t|, i requires 0 <= i < |t| => BitsOf(t[i]))
  }

  ghost predicate Meaning(kind: Kind, t: seq<uint8>) {
    match kind
    case HighlightSection => GetSectionType(t) != Invalid
    case HighlightField => GetField(t) != Invalid
    case HighlightPrivateKey => KeyText.IsKeyText(AsBits(t))
    case HighlightPublicKey => KeyText.IsKeyText(AsBits(t))
    case HighlightPresharedKey => KeyText.IsKeyText(AsBits(t))
    case HighlightIP => Ipv4(t) || Ipv6(t)
    case HighlightCidr => Cidr(t, 128)
    case HighlightHost => Host(t)
    case HighlightPort => Port(t)
    case HighlightMTU => Uint(t, false, 576, 65535)
    case HighlightKeepalive => Same(t, "off") || Uint(t, false, 0, 65535)
    case HighlightComment => t != [] && t[0] == HASH
    case HighlightDelimiter => t == [EQUALS] || t == [COMMA] || t == [COLON] || t == [SLASH]
    case HighlightTable => Same(t, "auto") || Same(t, "off") || |t| < 512 || Uint(t, false, 0, 4294967295)
    case HighlightFwMark => Same(t, "off") || Uint(t, true, 0, 4294967295)
    case HighlightSaveConfig => Same(t, "true") || Same(t, "false")
    case HighlightCmd => t != []
    case HighlightError => true
    case HighlightEnd => false
  }

  /** The values a field takes, for Address, DNS and AllowedIPs each of them. */
  ghost predicate ValueOk(section: Field, t: seq<uint8>) {
    match section
    case PrivateKey => KeyText.IsKeyText(AsBits(t))
    case PublicKey => KeyText.IsKeyText(AsBits(t))
    case PresharedKey => KeyText.IsKeyText(AsBits(t))
    case MTU => Uint(t, false, 576, 65535)
    case SaveConfig => Same(t, "true") || Same(t, "false")
    case FwMark => Same(t, "off") || Uint(t, true, 0, 4294967295)
    case Table => Same(t, "auto") || Same(t, "off") || |t| < 512 || Uint(t, false, 0, 4294967295)
    case PreUp => t != []
    case PostUp => t != []
    case PreDown => t != []
    case PostDown => t != []
    case ListenPort => Port(t)
    case PersistentKeepalive => Same(t, "off") || Uint(t, false, 0, 65535)
    case EndpointField => Endpoint(t)
    case DNS => Ipv4(t) || Ipv6(t) || Hostname(t)
    case Address => Network(t)
    case AllowedIPs => Network(t)
    case _ => false
  }

  predicate Blank(c: uint8) { c == SPACE || c == TAB || c == NEWLINE }

  predicate Blanks(text: seq<uint8>, a: nat, b: nat) {
    a <= b <= |text| && forall p :: a <= p < b ==> Blank(text[p])
  }

  ghost predicate Good(text: seq<uint8>, s: Span) {
    s.len > 0 && s.End() <= |text| && Meaning(s.kind, text[s.start..s.End()])
  }

  function EndOf(spans: seq<Span>): nat { if spans == [] then 0 else spans[|spans| - 1].End() }

  /** Non-empty spans in ascending order, with nothing but blanks before each. */
  ghost predicate Tiled(text: seq<uint8>, spans: seq<Span>) {
    forall k :: 0 <= k < |spans| ==> Good(text, spans[k]) && Blanks(text, EndOf(spans[..k]), spans[k].start)
  }

  /** The byte after a span; a C string ends with a zero byte. */
  function Next(text: seq<uint8>, p: nat): uint8 { if p < |text| then text[p] else 0 }

  // ---- Ranges of a line ----

  predicate Gap(c: uint8) { c == SPACE || c == TAB }

  function SkipGaps(text: seq<uint8>, a: nat, b: nat): (s: nat)
    requires a <= b <= |text|
    ensures a <= s <= b && (forall p :: a <= p < s ==> Gap(text[p])) && (s < b ==> !Gap(text[s]))
    decreases b - a
  {
    if a < b && Gap(text[a]) then SkipGaps(text, a + 1, b) else a
  }

  function TrimGaps(text: seq<uint8>, a: nat, b: nat): (e: nat)
    requires a <= b <= |text|
    ensures a <= e <= b && (forall p :: e <= p < b ==> Gap(text[p])) && (a < e ==> !Gap(text[e - 1]))
    decreases b - a
  {
    if a < b && Gap(text[b - 1]) then TrimGaps(text, a, b - 1) else b
  }

  /** The first c in the range, or its end. */
  function Find(text: seq<uint8>, c: uint8, a: nat, b: nat): (n: nat)
    requires a <= b <= |text|
    ensures a <= n <= b && (forall p :: a <= p < n ==> text[p] != c) && (n < b ==> text[n] == c)
    decreases b - a
  {
    if a == b || text[a] == c then a else Find(text, c, a + 1, b)
  }

  lemma SkipIs(text: seq<uint8>, a: nat, b: nat, s: nat)
    requires a <= s <= b <= |text| && (forall p :: a <= p < s ==> Gap(text[p])) && (s < b ==> !Gap(text[s]))
    ensures SkipGaps(text, a, b) == s
  {
    hide SkipGaps;
  }

  lemma TrimIs(text: seq<uint8>, a: nat, b: nat, e: nat)
    requires a <= e <= b <= |text| && (forall p :: e <= p < b ==> Gap(text[p])) && (a < e ==> !Gap(text[e - 1]))
    ensures TrimGaps(text, a, b) == e
    decreases b - a
  {
    if a < b && Gap(text[b - 1]) {
      TrimIs(text, a, b - 1, e);
    }
  }

  lemma FindIs(text: seq<uint8>, c: uint8, a: nat, b: nat, n: nat)
    requires a <= n <= b <= |text| && (forall p :: a <= p < n ==> text[p] != c) && (n < b ==> text[n] == c)
    ensures Find(text, c, a, b) == n
  {
    hide Find;
  }

  // ---- Values ----

  predicate Multi(section: Field) { section == DNS || section == Address || section == AllowedIPs }

  function KindOf(section: Field): Kind {
    match section
    case PrivateKey => HighlightPrivateKey
    case PublicKey => HighlightPublicKey
    case PresharedKey => HighlightPresharedKey
    case MTU => HighlightMTU
    case SaveConfig => HighlightSaveConfig
    case FwMark => HighlightFwMark
    case Table => HighlightTable
    case PreUp => HighlightCmd
    case PostUp => HighlightCmd
    case PreDown => HighlightCmd
    case PostDown => HighlightCmd
    case ListenPort => HighlightPort
    case PersistentKeepalive => HighlightKeepalive
    case _ => HighlightError
  }

  function Three(s: nat, mid: nat, e: nat, left: Kind, right: Kind): seq<Span>
    requires s <= mid < e
  {
    [Span(left, s, mid - s), Span(HighlightDelimiter, mid, 1), Span(right, mid + 1, e - mid - 1)]
  }

  /** The last c in the range, or its beginning. */
  function FindLast(text: seq<uint8>, c: uint8, a: nat, b: nat): (n: nat)
    requires a < b <= |text|
    ensures a <= n < b && (forall p :: n < p < b ==> text[p] != c) && (n > a ==> text[n] == c)
    decreases b - a
  {
    if text[b - 1] == c || a + 1 == b then b - 1 else FindLast(text, c, a, b - 1)
  }

  lemma FindLastIs(text: seq<uint8>, c: uint8, a: nat, b: nat, n: nat)
    requires a <= n < b <= |text| && text[n] == c && forall p :: n < p < b ==> text[p] != c
    ensures FindLast(text, c, a, b) == n
  {
    hide FindLast;
  }

  /** One value: valid and cut at its slash or colon, or an error as a whole. */
  ghost function PieceSpans(section: Field, text: seq<uint8>, s: nat, e: nat): seq<Span>
    requires s <= e <= |text|
  {
    if s == e then []
    else
      var t := text[s..e];
      if !ValueOk(section, t) then [Span(HighlightError, s, e - s)]
      else if section == DNS then [Span(if Ipv4(t) || Ipv6(t) then HighlightIP else HighlightHost, s, e - s)]
      else if section == Address || section == AllowedIPs then
        var slash := Find(text, SLASH, s, e);
        if slash == e then [Span(HighlightIP, s, e - s)] else Three(s, slash, e, HighlightIP, HighlightCidr)
      else if section == EndpointField then Three(s, FindLast(text, COLON, s, e), e, HighlightHost, HighlightPort)
      else [Span(KindOf(section), s, e - s)]
  }

  /** Values with commas between them. */
  ghost function RawPieces(section: Field, text: seq<uint8>, a: nat, b: nat): seq<Span>
    requires a <= b <= |text|
    decreases b - a
  {
    var n := Find(text, COMMA, a, b);
    var s := SkipGaps(text, a, n);
    PieceSpans(section, text, s, TrimGaps(text, s, n))
    + if n == b then [] else [Span(HighlightDelimiter, n, 1)] + RawPieces(section, text, n + 1, b)
  }

  /** A comma at the very end is an error. */
  ghost function MultiSpans(section: Field, text: seq<uint8>, a: nat, b: nat): seq<Span>
    requires a < b <= |text|
  {
    var raw := RawPieces(section, text, a, b);
    if text[b - 1] == COMMA && raw != [] then raw[..|raw| - 1] + [Span(HighlightError, b - 1, 1)] else raw
  }

  ghost function ValueSpans(field: Field, text: seq<uint8>, s: nat, e: nat): seq<Span>
    requires s < e <= |text|
  {
    if Multi(field) then MultiSpans(field, text, s, e) else PieceSpans(field, text, s, e)
  }

  // ---- Lines ----

  /** A key in text[s..e], known in its section or not. */
  ghost function KeySpan(text: seq<uint8>, s: nat, e: nat, section: Field): Span
    requires s <= e <= |text|
  {
    var own := SectionForField(GetField(text[s..e]));
    Span(if own == Invalid || own != section then HighlightError else HighlightField, s, e - s)
  }

  ghost function SectionSpan(text: seq<uint8>, s: nat, e: nat): Span
    requires s <= e <= |text|
  {
    Span(if GetSectionType(text[s..e]) == Invalid then HighlightError else HighlightSection, s, e - s)
  }

  /** From the equals sign at q on. */
  ghost function AfterEquals(text: seq<uint8>, q: nat, h: nat, field: Field): seq<Span>
    requires q < h <= |text|
  {
    var v := SkipGaps(text, q + 1, h);
    if v == h then [Span(HighlightError, q, 1)]
    else
      VisibleEnd(text, v, h);
      [Span(HighlightDelimiter, q, 1)] + ValueSpans(field, text, v, TrimGaps(text, v, h))
  }

  lemma VisibleEnd(text: seq<uint8>, s: nat, h: nat)
    requires s < h <= |text| && !Gap(text[s])
    ensures s < TrimGaps(text, s, h)
  {
    hide TrimGaps;
  }

  /** A line without its comment: a section header, a key with its value, or an error. */
  ghost function ContentSpans(text: seq<uint8>, a: nat, h: nat, section: Field): seq<Span>
    requires a <= h <= |text|
  {
    var s := SkipGaps(text, a, h);
    if s == h then []
    else if text[s] == OPEN then [SectionSpan(text, s, TrimGaps(text, s, h))]
    else
      var q := Find(text, EQUALS, s + 1, h);
      if q == h then [Span(HighlightError, s, TrimGaps(text, s, h) - s)]
      else
        var e := TrimGaps(text, s, q);
        [KeySpan(text, s, e, section)] + AfterEquals(text, q, h, GetField(text[s..e]))
  }

  ghost function ContentSection(text: seq<uint8>, a: nat, h: nat, section: Field): Field
    requires a <= h <= |text|
  {
    var s := SkipGaps(text, a, h);
    if s < h && text[s] == OPEN then GetSectionType(text[s..TrimGaps(text, s, h)]) else section
  }

  ghost function LineSpans(text: seq<uint8>, a: nat, b: nat, section: Field): seq<Span>
    requires a <= b <= |text|
  {
    var h := Find(text, HASH, a, b);
    ContentSpans(text, a, h, section) + if h < b then [Span(HighlightComment, h, b - h)] else []
  }

  /** All lines from position a on, which the given section is in force at. */
  ghost function ConfigSpans(text: seq<uint8>, a: nat, section: Field): seq<Span>
    requires a <= |text|
    decreases |text| - a
  {
    var b := Find(text, NEWLINE, a, |text|);
    LineSpans(text, a, b, section) +
    if b == |text| then [] else ConfigSpans(text, b + 1, ContentSection(text, a, Find(text, HASH, a, b), section))
  }
}
