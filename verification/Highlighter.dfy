/** tunnel/tools/wireguard-tools/contrib/highlighter/highlighter.c, highlight_config: the state machine
    that cuts a configuration into typed spans in one pass, and highlight.c, which prints them. */
module Highlighter {
  import opened Numbers
  import opened Characters
  import opened IpText
  import opened HighlightValues
  import opened HighlightSpec
  import KeyCodecs

  class SpanArray {
    var spans: seq<Span>

    constructor ()
      ensures spans == []
    {
      spans := [];
    }

    ghost predicate Valid(text: seq<uint8>)
      reads this
    {
      Tiled(text, spans) && EndOf(spans) <= |text|
    }

    ghost function End(): nat
      reads this
    {
      EndOf(spans)
    }

    /** append_highlight_span. */
    method Append(text: seq<uint8>, start: nat, len: nat, kind: Kind)
      requires Valid(text) && start + len <= |text| && Blanks(text, End(), start)
      requires len > 0 ==> Meaning(kind, text[start..start + len])
      modifies this
      ensures Valid(text)
      ensures spans == old(spans) + if len == 0 then [] else [Span(kind, start, len)]
      ensures End() == if len == 0 then old(End()) else start + len
    {
      hide Tiled, Blanks, Meaning;
      if len == 0 {
        return;
      }
      TiledSnoc(text, spans, Span(kind, start, len));
      spans := spans + [Span(kind, start, len)];
    }
  }

  lemma TiledSnoc(text: seq<uint8>, spans: seq<Span>, s: Span)
    requires Tiled(text, spans) && Good(text, s) && Blanks(text, EndOf(spans), s.start)
    ensures Tiled(text, spans + [s])
  {
    hide Good, Blanks;
    forall k | 0 <= k < |spans + [s]|
      ensures Good(text, (spans + [s])[k]) && Blanks(text, EndOf((spans + [s])[..k]), (spans + [s])[k].start)
    {
      assert (spans + [s])[..k] == spans[..k];
      assert spans[..|spans|] == spans;
    }
  }

  // ---- Values ----

  /** Three spans, the middle one of them the byte at `mid`. */
  method AppendThree(ret: SpanArray, text: seq<uint8>, start: nat, mid: nat, end: nat, left: Kind, right: Kind)
    requires ret.Valid(text) && start < mid < end - 1 && end <= |text| && Blanks(text, ret.End(), start)
    requires Meaning(left, text[start..mid]) && Meaning(right, text[mid + 1..end])
    requires text[mid] == SLASH || text[mid] == COLON
    modifies ret
    ensures ret.Valid(text) && ret.End() == end
    ensures ret.spans == old(ret.spans) + Three(start, mid, end, left, right)
  {
    hide Tiled, Blanks, Meaning;
    DelimiterAt(text, mid);
    NoBlanks(text, mid);
    NoBlanks(text, mid + 1);
    ret.Append(text, start, mid - start, left);
    ret.Append(text, mid, 1, HighlightDelimiter);
    ret.Append(text, mid + 1, end - mid - 1, right);
  }

  lemma DelimiterAt(text: seq<uint8>, p: nat)
    requires p < |text| && (text[p] == SLASH || text[p] == COLON)
    ensures Meaning(HighlightDelimiter, text[p..p + 1])
  {
    assert text[p..p + 1] == [text[p]];
  }

  lemma Halves(text: seq<uint8>, start: nat, len: nat, mid: nat)
    requires mid < len && start + len <= |text|
    ensures text[start..start + len][..mid] == text[start..start + mid]
    ensures text[start..start + len][mid + 1..] == text[start + mid + 1..start + len]
  {
  }

  method HighlightNetwork(ret: SpanArray, text: seq<uint8>, start: nat, len: nat)
    requires ret.Valid(text) && start + len <= |text| && Blanks(text, ret.End(), start)
    requires Network(text[start..start + len])
    modifies ret
    ensures ret.Valid(text) && ret.End() == start + len && len > 0
    ensures ret.spans == old(ret.spans) + PieceSpans(Address, text, start, start + len)
    ensures ret.spans == old(ret.spans) + PieceSpans(AllowedIPs, text, start, start + len)
  {
    hide Tiled, Blanks, Ipv4, Ipv6, Network, Cidr;
    var t := text[start..start + len];
    var slash := FindSlash(t);
    NetworkParts(t, slash);
    SlashAt(text, start, len, slash);
    if slash == len {
      ret.Append(text, start, len, HighlightIP);
    } else {
      Halves(text, start, len, slash);
      AppendThree(ret, text, start, start + slash, start + len, HighlightIP, HighlightCidr);
    }
  }

  lemma SlashAt(text: seq<uint8>, start: nat, len: nat, slash: nat)
    requires start + len <= |text| && slash <= len && SLASH !in text[start..start + len][..slash]
    requires slash < len ==> text[start..start + len][slash] == SLASH
    ensures Find(text, SLASH, start, start + len) == start + slash
  {
    forall p | start <= p < start + slash ensures text[p] != SLASH {
      assert text[start..start + len][..slash][p - start] == text[p];
    }
    FindIs(text, SLASH, start, start + len, start + slash);
  }

  /** One of several values: text[start..start + len]. */
  method HighlightMultivalueValue(ret: SpanArray, text: seq<uint8>, start: nat, len: nat, section: Field)
    requires ret.Valid(text) && start + len <= |text| && Blanks(text, ret.End(), start)
    requires Next(text, start + len) != COLON
    modifies ret
    ensures ret.Valid(text) && ret.End() == if len == 0 then old(ret.End()) else start + len
    ensures Multi(section) ==> ret.spans == old(ret.spans) + PieceSpans(section, text, start, start + len)
  {
    hide Tiled, Blanks, Ipv4, Ipv6, Network, Hostname, Cidr, Find;
    var t, next := text[start..start + len], Next(text, start + len);
    if len == 0 {
      NothingValid(t, next);
    }
    if section == DNS {
      var v4 := IsValidIpv4(t, next);
      var v6 := IsValidIpv6(t, next);
      NotCutOff(t, next);
      if v4 || v6 {
        ret.Append(text, start, len, HighlightIP);
        return;
      }
      var host := IsValidHostname(t);
      if host {
        HostnameIsHost(t);
        ret.Append(text, start, len, HighlightHost);
      } else {
        ret.Append(text, start, len, HighlightError);
      }
    } else if section == Address || section == AllowedIPs {
      var valid := IsValidNetwork(t, next);
      if !valid {
        ret.Append(text, start, len, HighlightError);
        return;
      }
      HighlightNetwork(ret, text, start, len);
    } else {
      ret.Append(text, start, len, HighlightError);
    }
  }

  lemma NoBlanks(text: seq<uint8>, a: nat)
    requires a <= |text|
    ensures Blanks(text, a, a)
  {
  }

  method FindSlash(t: seq<uint8>) returns (slash: nat)
    ensures slash <= |t| && SLASH !in t[..slash] && (slash < |t| ==> t[slash] == SLASH)
  {
    slash := 0;
    while slash < |t|
      invariant slash <= |t| && SLASH !in t[..slash]
    {
      if t[slash] == SLASH {
        break;
      }
      assert t[..slash + 1] == t[..slash] + [t[slash]];
      slash := slash + 1;
    }
  }

  lemma NothingValid(t: seq<uint8>, next: uint8)
    requires t == []
    ensures !Network(t)
  {
    hide Ipv4, Ipv6;
    if Ipv4(t) || Ipv6(t) {
      NonEmpty(t);
    }
  }

  lemma HostnameIsHost(t: seq<uint8>)
    requires Hostname(t)
    ensures Host(t)
  {
  }

  /** The address and the prefix length on either side of the slash. */
  lemma NetworkParts(t: seq<uint8>, slash: nat)
    requires Network(t) && slash <= |t| && SLASH !in t[..slash] && (slash < |t| ==> t[slash] == SLASH)
    ensures t != []
    ensures slash == |t| ==> Ipv4(t) || Ipv6(t)
    ensures slash < |t| ==> 0 < slash < |t| - 1 && (Ipv4(t[..slash]) || Ipv6(t[..slash])) && Cidr(t[slash + 1..], 128)
  {
    hide Network, Ipv4, Ipv6;
    if slash == |t| {
      assert t[..slash] == t;
      NoSlash(t);
      NonEmpty(t);
    } else {
      FirstSlash(t, slash);
      NonEmpty(t[..slash]);
    }
  }

  lemma NonEmpty(t: seq<uint8>)
    requires Ipv4(t) || Ipv6(t)
    ensures t != []
  {
    hide Ipv4, Ipv6;
    if Ipv4(t) {
      Ipv4Chars(t);
    } else {
      Ipv6Chars(t);
    }
  }

  /** The value being read in a list: it began at p, and from `start` on `trimmed` bytes are known to
      belong to it. */
  ghost predicate InPiece(text: seq<uint8>, p: nat, start: nat, trimmed: nat, i: nat) {
    && p <= start && start + trimmed <= i <= |text| && (forall k :: p <= k < i ==> text[k] != COMMA)
    && SkipGaps(text, p, i) == start && TrimGaps(text, start, i) == start + trimmed
  }

  lemma PieceStarts(text: seq<uint8>, p: nat)
    requires p <= |text|
    ensures InPiece(text, p, p, 0, p)
  {
  }

  lemma PieceGap(text: seq<uint8>, p: nat, start: nat, trimmed: nat, i: nat)
    requires InPiece(text, p, start, trimmed, i) && i < |text| && Gap(text[i])
    ensures InPiece(text, p, if start == i then i + 1 else start, trimmed, i + 1)
  {
    hide SkipGaps, TrimGaps;
    var start' := if start == i then i + 1 else start;
    SkipIs(text, p, i + 1, start');
    TrimIs(text, start', i + 1, start' + trimmed);
  }

  lemma PieceByte(text: seq<uint8>, p: nat, start: nat, trimmed: nat, i: nat)
    requires InPiece(text, p, start, trimmed, i) && i < |text| && !Gap(text[i]) && text[i] != COMMA
    ensures InPiece(text, p, start, i + 1 - start, i + 1)
  {
    hide SkipGaps, TrimGaps;
    SkipIs(text, p, i + 1, start);
    TrimIs(text, start, i + 1, i + 1);
  }

  lemma PieceEnds(section: Field, text: seq<uint8>, p: nat, start: nat, trimmed: nat, i: nat, b: nat)
    requires InPiece(text, p, start, trimmed, i) && i <= b <= |text| && (i < b ==> text[i] == COMMA)
    ensures i == b ==> RawPieces(section, text, p, b) == PieceSpans(section, text, start, start + trimmed)
    ensures i < b ==>
      RawPieces(section, text, p, b)
      == PieceSpans(section, text, start, start + trimmed) + [Span(HighlightDelimiter, i, 1)]
         + RawPieces(section, text, i + 1, b)
  {
    hide SkipGaps, TrimGaps, PieceSpans, Find;
    FindIs(text, COMMA, p, b, i);
  }

  /** A value and the comma after it. */
  method FinishPiece(ret: SpanArray, text: seq<uint8>, start: nat, trimmed: nat, i: nat, section: Field)
    requires ret.Valid(text) && start + trimmed <= i < |text| && text[i] == COMMA && Multi(section)
    requires Blanks(text, ret.End(), start) && Blanks(text, start + trimmed, i)
    modifies ret
    ensures ret.Valid(text) && ret.End() == i + 1
    ensures ret.spans == old(ret.spans)
      + (PieceSpans(section, text, start, start + trimmed) + [Span(HighlightDelimiter, i, 1)])
  {
    hide Tiled, Blanks, PieceSpans, Meaning, Multi;
    EndOfValue(text, start + trimmed, i);
    EndOfPiece(text, ret.End(), start, trimmed, i);
    HighlightMultivalueValue(ret, text, start, trimmed, section);
    CommaAt(text, i);
    ret.Append(text, i, 1, HighlightDelimiter);
  }

  /** The last value, or the end of a list that stops with a comma. */
  method FinishList(ret: SpanArray, text: seq<uint8>, start: nat, trimmed: nat, end: nat, section: Field,
                    ghost at: nat, ghost p: nat, ghost before: seq<Span>, ghost done: seq<Span>)
    requires ret.Valid(text) && at < end <= |text| && Multi(section) && !Gap(text[end - 1]) && Next(text, end) != COLON
    requires at <= p <= start && start + trimmed <= end
    requires Blanks(text, ret.End(), start) && Blanks(text, start + trimmed, end)
    requires InPiece(text, p, start, trimmed, end) && ret.spans == before + done
    requires done + RawPieces(section, text, p, end) == RawPieces(section, text, at, end)
    requires p > at ==> done != [] && done[|done| - 1] == Span(HighlightDelimiter, p - 1, 1) && text[p - 1] == COMMA
    modifies ret
    ensures ret.Valid(text) && Blanks(text, ret.End(), end)
    ensures ret.spans == before + MultiSpans(section, text, at, end)
  {
    hide Tiled, Blanks, Good, PieceSpans, RawPieces, InPiece, Multi;
    PieceEnds(section, text, p, start, trimmed, end, end);
    EndOfValue(text, start + trimmed, end);
    EndOfPiece(text, ret.End(), start, trimmed, end);
    if trimmed > 0 {
      LastPiece(text, p, start, trimmed, end);
      HighlightMultivalueValue(ret, text, start, trimmed, section);
    } else {
      NoLastPiece(text, p, start, end);
      NoPiece(section, text, start);
      if ret.spans[|ret.spans| - 1].kind == HighlightDelimiter {
        Retyped(text, ret.spans);
        ret.spans := ret.spans[|ret.spans| - 1 := ret.spans[|ret.spans| - 1].(kind := HighlightError)];
      }
    }
  }

  lemma NoPiece(section: Field, text: seq<uint8>, s: nat)
    requires s <= |text|
    ensures PieceSpans(section, text, s, s) == []
  {
  }

  /** Comma-separated values in text[at..at + len], which ends with something. */
  method HighlightMultivalue(ret: SpanArray, text: seq<uint8>, at: nat, len: nat, section: Field)
    requires ret.Valid(text) && at + len <= |text| && Blanks(text, ret.End(), at) && Next(text, at + len) != COLON
    requires Multi(section) && len > 0 && !Gap(text[at + len - 1])
    modifies ret
    ensures ret.Valid(text) && Blanks(text, ret.End(), at + len)
    ensures ret.spans == old(ret.spans) + MultiSpans(section, text, at, at + len)
  {
    hide Tiled, ValueOk, PieceSpans, RawPieces, InPiece, Multi, Blanks, MultiSpans, EndOf;
    var start: nat, cur: nat, lenAtLastSpace: nat := at, 0, 0;
    ghost var p, end, before := at, at + len, ret.spans;
    ghost var done: seq<Span> := [];
    PieceStarts(text, at);
    NoBlanks(text, at);
    var i := 0;
    while i < len
      invariant 0 <= i <= len && start + cur == at + i && lenAtLastSpace <= cur && at <= p <= start
      invariant ret.Valid(text) && Blanks(text, ret.End(), start) && Blanks(text, start + lenAtLastSpace, at + i)
      invariant InPiece(text, p, start, lenAtLastSpace, at + i) && ret.spans == before + done
      invariant cur > 0 ==> lenAtLastSpace > 0
      invariant done + RawPieces(section, text, p, end) == RawPieces(section, text, at, end)
      invariant p > at ==> done != [] && done[|done| - 1] == Span(HighlightDelimiter, p - 1, 1) && text[p - 1] == COMMA
    {
      if text[at + i] == COMMA {
        PieceEnds(section, text, p, start, lenAtLastSpace, at + i, end);
        ghost var more := PieceSpans(section, text, start, start + lenAtLastSpace)
                          + [Span(HighlightDelimiter, at + i, 1)];
        FinishPiece(ret, text, start, lenAtLastSpace, at + i, section);
        PieceDone(done, more, RawPieces(section, text, at + i + 1, end), before);
        done := done + more;
        lenAtLastSpace := 0;
        start, cur := at + i + 1, 0;
        p := at + i + 1;
        PieceStarts(text, p);
        NoBlanks(text, p);
      } else if text[at + i] == SPACE || text[at + i] == TAB {
        PieceGap(text, p, start, lenAtLastSpace, at + i);
        MoreBlanks(text, ret.End(), start, start + lenAtLastSpace, at + i);
        if cur == 0 {
          start := start + 1;
        } else {
          cur := cur + 1;
        }
      } else {
        PieceByte(text, p, start, lenAtLastSpace, at + i);
        cur := cur + 1;
        lenAtLastSpace := cur;
        NoBlanks(text, at + i + 1);
      }
      i := i + 1;
    }
    FinishList(ret, text, start, lenAtLastSpace, at + len, section, at, p, before, done);
  }

  lemma PieceDone(done: seq<Span>, more: seq<Span>, rest: seq<Span>, before: seq<Span>)
    ensures done + (more + rest) == (done + more) + rest && before + done + more == before + (done + more)
  {
  }

  lemma CommaAt(text: seq<uint8>, i: nat)
    requires i < |text| && text[i] == COMMA
    ensures Meaning(HighlightDelimiter, text[i..i + 1])
  {
    assert text[i..i + 1] == [COMMA];
  }

  /** Blanks up to the comma, from the end of the value or, if there is none, from before. */
  lemma EndOfPiece(text: seq<uint8>, end: nat, start: nat, trimmed: nat, i: nat)
    requires Blanks(text, end, start) && Blanks(text, start + trimmed, i)
    ensures trimmed == 0 ==> Blanks(text, end, i)
  {
  }

  lemma MoreBlanks(text: seq<uint8>, end: nat, start: nat, from: nat, i: nat)
    requires Blanks(text, end, start) && Blanks(text, from, i) && i < |text| && Gap(text[i])
    ensures Blanks(text, from, i + 1) && (start == i ==> Blanks(text, end, i + 1))
    ensures Blanks(text, i + 1, i + 1)
  {
  }

  lemma LastPiece(text: seq<uint8>, p: nat, start: nat, trimmed: nat, end: nat)
    requires InPiece(text, p, start, trimmed, end) && trimmed > 0
    ensures text[end - 1] != COMMA
  {
  }

  lemma NoLastPiece(text: seq<uint8>, p: nat, start: nat, end: nat)
    requires InPiece(text, p, start, 0, end) && 0 < end && !Gap(text[end - 1])
    ensures p == end
  {
    assert start == end;
  }

  /** What follows a value is a blank or what ends it. */
  lemma EndOfValue(text: seq<uint8>, p: nat, q: nat)
    requires Blanks(text, p, q) && Next(text, q) != COLON
    ensures Next(text, p) != COLON
  {
  }

  /** A delimiter that delimits nothing becomes an error. */
  lemma Retyped(text: seq<uint8>, spans: seq<Span>)
    requires Tiled(text, spans) && spans != []
    ensures var n := |spans| - 1;
      var spans' := spans[n := spans[n].(kind := HighlightError)];
      Tiled(text, spans') && EndOf(spans') == EndOf(spans)
  {
    hide Blanks;
    var n := |spans| - 1;
    var spans' := spans[n := spans[n].(kind := HighlightError)];
    forall k | 0 <= k < |spans'|
      ensures Good(text, spans'[k]) && Blanks(text, EndOf(spans'[..k]), spans'[k].start)
    {
      assert spans'[..k] == spans[..k];
      assert Good(text, spans[k]);
    }
  }

  /** The validator for a field that has one value and one span. */
  method HighlightKey(ret: SpanArray, text: seq<uint8>, start: nat, len: nat, kind: Kind)
    requires ret.Valid(text) && start + len <= |text| && Blanks(text, ret.End(), start)
    requires kind == HighlightPrivateKey || kind == HighlightPublicKey || kind == HighlightPresharedKey
    modifies ret
    ensures ret.Valid(text) && ret.End() == if len == 0 then old(ret.End()) else start + len
    ensures len > 0 ==>
      var ok := KeyText.IsKeyText(AsBits(text[start..start + len]));
      ret.spans == old(ret.spans) + [Span(if ok then kind else HighlightError, start, len)]
  {
    hide Tiled, Blanks, KeyText.IsKeyText, AsBits;
    var valid := KeyCodecs.IsValidKey(AsBits(text[start..start + len]));
    ret.Append(text, start, len, if valid then kind else HighlightError);
  }

  /** The other fields with one value. */
  method SimpleKind(t: seq<uint8>, section: Field) returns (kind: Kind)
    requires section != PrivateKey && section != PublicKey && section != PresharedKey && section != EndpointField
    requires !Multi(section)
    ensures t != [] ==> Meaning(kind, t) && kind == if ValueOk(section, t) then KindOf(section) else HighlightError
  {
    hide Uint, Same;
    kind := HighlightError;
    var valid;
    match section
    case MTU =>
      valid := IsValidUint(t, false, 576, 65535);
      if valid { kind := HighlightMTU; }
    case SaveConfig =>
      if Same(t, "true") || Same(t, "false") { kind := HighlightSaveConfig; }
    case FwMark =>
      valid := IsValidUint(t, true, 0, 4294967295);
      if Same(t, "off") || valid { kind := HighlightFwMark; }
    case Table =>
      valid := IsValidUint(t, false, 0, 4294967295);
      if Same(t, "auto") || Same(t, "off") || |t| < 512 || valid { kind := HighlightTable; }
    case PreUp => if |t| > 0 { kind := HighlightCmd; }
    case PostUp => if |t| > 0 { kind := HighlightCmd; }
    case PreDown => if |t| > 0 { kind := HighlightCmd; }
    case PostDown => if |t| > 0 { kind := HighlightCmd; }
    case ListenPort =>
      valid := IsValidUint(t, false, 0, 65535);
      if valid { kind := HighlightPort; }
    case PersistentKeepalive =>
      valid := IsValidUint(t, false, 0, 65535);
      if Same(t, "off") || valid { kind := HighlightKeepalive; }
    case _ =>
  }

  method FindLastColon(t: seq<uint8>) returns (colon: nat)
    requires COLON in t
    ensures colon < |t| && t[colon] == COLON && forall k :: colon < k < |t| ==> t[k] != COLON
  {
    colon := |t|;
    while colon > 0
      invariant colon <= |t| && forall k :: colon <= k < |t| ==> t[k] != COLON
    {
      colon := colon - 1;
      if t[colon] == COLON {
        return;
      }
    }
  }

  /** Splitting at the last colon gives the host and the port that were validated. */
  lemma EndpointParts(t: seq<uint8>, colon: nat)
    requires Endpoint(t) && colon < |t| && t[colon] == COLON && forall k :: colon < k < |t| ==> t[k] != COLON
    ensures SplitAt(t, colon) && 0 < colon < |t| - 1
  {
    hide Host, Uint;
    var c :| SplitAt(t, c);
    if c < colon {
      LastColon(t, c, colon);
    }
    PortDigits(t[c + 1..]);
    if c == 0 {
      assert t[..c] == [];
      NoHost();
    }
  }

  lemma NoHost()
    ensures !Host([])
  {
    if Ipv4([]) {
      Ipv4Chars([]);
    }
  }

  lemma ColonThere(t: seq<uint8>)
    requires Endpoint(t)
    ensures COLON in t
  {
    hide Host, Uint;
    var c :| SplitAt(t, c);
    assert t[c] in t;
  }

  lemma ColonAt(text: seq<uint8>, start: nat, len: nat, t: seq<uint8>, colon: nat)
    requires start + len <= |text| && t == text[start..start + len] && colon < len && t[colon] == COLON
    requires forall k :: colon < k < len ==> t[k] != COLON
    ensures FindLast(text, COLON, start, start + len) == start + colon
  {
    forall p | start + colon < p < start + len ensures text[p] != COLON {
      assert t[p - start] == text[p];
    }
    FindLastIs(text, COLON, start, start + len, start + colon);
  }

  method HighlightEndpoint(ret: SpanArray, text: seq<uint8>, start: nat, len: nat)
    requires ret.Valid(text) && start + len <= |text| && Blanks(text, ret.End(), start)
    modifies ret
    ensures ret.Valid(text) && (len > 0 ==> ret.End() == start + len) && (len == 0 ==> ret.End() == old(ret.End()))
    ensures ret.spans == old(ret.spans) + PieceSpans(EndpointField, text, start, start + len)
  {
    hide Tiled, Blanks, Endpoint, Host, Uint, FindLast;
    var t := text[start..start + len];
    var valid := IsValidEndpoint(t, Next(text, start + len));
    if !valid {
      ret.Append(text, start, len, HighlightError);
      return;
    }
    ColonThere(t);
    var colon := FindLastColon(t);
    EndpointParts(t, colon);
    ColonAt(text, start, len, t, colon);
    Halves(text, start, len, colon);
    AppendThree(ret, text, start, start + colon, start + len, HighlightHost, HighlightPort);
  }

  lemma SingleSpan(section: Field, text: seq<uint8>, s: nat, e: nat)
    requires s < e <= |text|
    ensures !Multi(section) && section != EndpointField ==>
      PieceSpans(section, text, s, e)
      == [Span(if ValueOk(section, text[s..e]) then KindOf(section) else HighlightError, s, e - s)]
    ensures section == PrivateKey || section == PublicKey || section == PresharedKey ==>
      (ValueOk(section, text[s..e]) <==> KeyText.IsKeyText(AsBits(text[s..e])))
  {
    hide Uint, Same, Network, Endpoint, Ipv4, Ipv6, Hostname, KeyText.IsKeyText, AsBits;
  }

  /** highlight_value: what follows '=' on a line, trimmed. */
  method HighlightValue(ret: SpanArray, text: seq<uint8>, start: nat, len: nat, section: Field)
    requires ret.Valid(text) && start + len <= |text| && Blanks(text, ret.End(), start)
    requires Next(text, start + len) != COLON
    requires len > 0 && !Gap(text[start + len - 1])
    modifies ret
    ensures ret.Valid(text) && Blanks(text, ret.End(), start + len)
    ensures ret.spans == old(ret.spans) + ValueSpans(section, text, start, start + len)
  {
    hide Tiled, Blanks, Meaning, KeyText.IsKeyText, AsBits, MultiSpans, PieceSpans, ValueOk;
    NoBlanks(text, start + len);
    SingleSpan(section, text, start, start + len);
    if section == PrivateKey {
      HighlightKey(ret, text, start, len, HighlightPrivateKey);
    } else if section == PublicKey {
      HighlightKey(ret, text, start, len, HighlightPublicKey);
    } else if section == PresharedKey {
      HighlightKey(ret, text, start, len, HighlightPresharedKey);
    } else if section == EndpointField {
      HighlightEndpoint(ret, text, start, len);
    } else if section == Address || section == DNS || section == AllowedIPs {
      HighlightMultivalue(ret, text, start, len, section);
    } else {
      var kind := SimpleKind(text[start..start + len], section);
      ret.Append(text, start, len, kind);
    }
  }

  // ---- Lines ----

  datatype State = OnNone | OnKey | OnValue | OnComment | OnSection

  /** current_span is text[start..start + len] and has been read up to i; `trimmed` is
      len_at_last_space, `equals` is equals_location. */
  datatype Line = Line(state: State, start: nat, len: nat, trimmed: nat, equals: nat)

  /** From `end` on, everything that is not blank is in the current span, but for the equals sign. */
  ghost predicate LineOk(text: seq<uint8>, end: nat, l: Line, i: nat) {
    && l.start + l.len == i <= |text|
    && match l.state
       case OnNone => l.len == 0 && Blanks(text, end, i)
       case OnComment => Blanks(text, end, l.start) && l.len > 0 && text[l.start] == HASH
       case OnValue =>
         && end <= l.equals < l.start <= |text| && Blanks(text, end, l.equals) && text[l.equals] == EQUALS
         && Blanks(text, l.equals + 1, l.start) && (l.len > 0 ==> Word(text, l, i))
       case _ => Blanks(text, end, l.start) && Word(text, l, i)
  }

  ghost predicate Word(text: seq<uint8>, l: Line, i: nat) {
    0 < l.trimmed <= l.len && l.start + l.trimmed <= |text| && !Gap(text[l.start + l.trimmed - 1])
    && Blanks(text, l.start + l.trimmed, i)
  }

  // ---- What the machine knows of the line that began at a ----

  ghost predicate NoneOf(text: seq<uint8>, c: uint8, a: nat, b: nat) {
    a <= b <= |text| && forall p :: a <= p < b ==> text[p] != c
  }

  ghost predicate Scanned(text: seq<uint8>, a: nat, l: Line, i: nat) {
    && a <= i <= |text| && l.start + l.len == i && NoneOf(text, NEWLINE, a, i)
    && match l.state
       case OnNone => NoneOf(text, HASH, a, i) && l.start == i && SkipGaps(text, a, i) == i
       case OnComment => a <= l.start < i && text[l.start] == HASH && NoneOf(text, HASH, a, l.start)
       case OnValue => NoneOf(text, HASH, a, i) && KeyRead(text, a, l.equals) && l.equals < i && ValueRead(text, l, i)
       case _ => NoneOf(text, HASH, a, i) && WordRead(text, a, l, i)
  }

  /** A key or a section header, up to i. */
  ghost predicate WordRead(text: seq<uint8>, a: nat, l: Line, i: nat) {
    && a <= l.start < i <= |text| && SkipGaps(text, a, i) == l.start
    && TrimGaps(text, l.start, i) == l.start + l.trimmed
    && (l.state == OnSection <==> text[l.start] == OPEN)
    && (l.state == OnKey ==> NoneOf(text, EQUALS, l.start + 1, i))
  }

  /** A key and then the equals sign at q. */
  ghost predicate KeyRead(text: seq<uint8>, a: nat, q: nat) {
    a < q < |text| && text[q] == EQUALS &&
    var s := SkipGaps(text, a, q);
    s < q && text[s] != OPEN && NoneOf(text, EQUALS, s + 1, q)
  }

  ghost predicate ValueRead(text: seq<uint8>, l: Line, i: nat) {
    && l.equals < i <= |text| && SkipGaps(text, l.equals + 1, i) == l.start
    && (l.len > 0 ==> l.start < i && TrimGaps(text, l.start, i) == l.start + l.trimmed)
  }

  ghost function KeyEnd(text: seq<uint8>, a: nat, q: nat): nat
    requires a <= q <= |text|
  {
    TrimGaps(text, SkipGaps(text, a, q), q)
  }

  ghost function KeyField(text: seq<uint8>, a: nat, q: nat): Field
    requires a <= q <= |text|
  {
    GetField(text[SkipGaps(text, a, q)..KeyEnd(text, a, q)])
  }

  /** The spans of the line that are out already. */
  ghost function Out(text: seq<uint8>, a: nat, l: Line, section: Field): seq<Span>
    requires a <= l.start <= |text| && (l.state == OnValue ==> a <= l.equals <= |text|)
  {
    match l.state
    case OnValue => [KeySpan(text, SkipGaps(text, a, l.equals), KeyEnd(text, a, l.equals), section)]
    case OnComment => ContentSpans(text, a, l.start, section)
    case _ => []
  }

  /** There is something to trim, and it is in the text. */
  ghost predicate Fits(text: seq<uint8>, l: Line) {
    l.state == OnKey || l.state == OnSection || (l.state == OnValue && l.len > 0) ==>
      0 < l.trimmed && l.start + l.trimmed <= |text|
  }

  /** What the end of the line adds. */
  ghost function Finishing(text: seq<uint8>, l: Line, i: nat, field: Field): seq<Span>
    requires l.start + l.len == i <= |text| && Fits(text, l)
  {
    match l.state
    case OnNone => []
    case OnKey => [Span(HighlightError, l.start, l.trimmed)]
    case OnSection => [SectionSpan(text, l.start, l.start + l.trimmed)]
    case OnComment => [Span(HighlightComment, l.start, l.len)]
    case OnValue =>
      if l.len == 0 then [Span(HighlightError, l.equals, 1)]
      else [Span(HighlightDelimiter, l.equals, 1)] + ValueSpans(field, text, l.start, l.start + l.trimmed)
  }

  lemma KeyAgain(text: seq<uint8>, a: nat, q: nat, i: nat)
    requires KeyRead(text, a, q) && q < i <= |text|
    ensures var s := SkipGaps(text, a, q);
      SkipGaps(text, a, i) == s && Find(text, EQUALS, s + 1, i) == q
  {
    hide SkipGaps, Find;
    var s := SkipGaps(text, a, q);
    SkipIs(text, a, i, s);
    FindIs(text, EQUALS, s + 1, i, q);
  }

  /** Together they are what the line says. */
  lemma FinishedLine(text: seq<uint8>, a: nat, l: Line, i: nat, section: Field, field: Field)
    requires Scanned(text, a, l, i) && l.state != OnComment && Fits(text, l)
    requires l.state == OnValue ==> field == KeyField(text, a, l.equals)
    ensures Out(text, a, l, section) + Finishing(text, l, i, field) == ContentSpans(text, a, i, section)
    ensures ContentSection(text, a, i, section)
      == if l.state == OnSection then GetSectionType(text[l.start..l.start + l.trimmed]) else section
  {
    hide SkipGaps, TrimGaps, Find, ValueSpans, GetField, GetSectionType, KeySpan, ContentSpans, ContentSection;
    if l.state == OnValue {
      FinishedValue(text, a, l, i, section);
    } else if l.state == OnNone {
      FinishedNone(text, a, i, section);
    } else {
      FinishedWord(text, a, l, i, section);
    }
  }

  lemma FinishedNone(text: seq<uint8>, a: nat, i: nat, section: Field)
    requires a <= i <= |text| && SkipGaps(text, a, i) == i
    ensures ContentSpans(text, a, i, section) == [] && ContentSection(text, a, i, section) == section
  {
    hide SkipGaps, TrimGaps, Find, ValueSpans, GetField, GetSectionType, KeySpan;
  }

  lemma FinishedWord(text: seq<uint8>, a: nat, l: Line, i: nat, section: Field)
    requires WordRead(text, a, l, i) && (l.state == OnKey || l.state == OnSection)
    ensures l.start + l.trimmed <= i
    ensures ContentSpans(text, a, i, section) == if l.state == OnSection
      then [SectionSpan(text, l.start, l.start + l.trimmed)] else [Span(HighlightError, l.start, l.trimmed)]
    ensures ContentSection(text, a, i, section)
      == if l.state == OnSection then GetSectionType(text[l.start..l.start + l.trimmed]) else section
  {
    hide SkipGaps, TrimGaps, Find, ValueSpans, GetField, GetSectionType, KeySpan, AfterEquals, SectionSpan;
    if l.state == OnKey {
      FindIs(text, EQUALS, l.start + 1, i, i);
    }
  }

  lemma FinishedValue(text: seq<uint8>, a: nat, l: Line, i: nat, section: Field)
    requires KeyRead(text, a, l.equals) && l.equals < i <= |text| && a <= l.equals
    requires ValueRead(text, l, i) && l.start + l.len == i && (l.len > 0 ==> l.trimmed > 0)
    ensures ContentSection(text, a, i, section) == section
    ensures ContentSpans(text, a, i, section)
      == [KeySpan(text, SkipGaps(text, a, l.equals), KeyEnd(text, a, l.equals), section)]
       + AfterEquals(text, l.equals, i, KeyField(text, a, l.equals))
    ensures l.len > 0 ==> l.start + l.trimmed <= i
    ensures l.len == 0 ==>
      AfterEquals(text, l.equals, i, KeyField(text, a, l.equals)) == [Span(HighlightError, l.equals, 1)]
    ensures l.len > 0 ==>
      AfterEquals(text, l.equals, i, KeyField(text, a, l.equals))
      == [Span(HighlightDelimiter, l.equals, 1)]
         + ValueSpans(KeyField(text, a, l.equals), text, l.start, l.start + l.trimmed)
  {
    hide SkipGaps, TrimGaps, Find, ValueSpans, GetField, GetSectionType, KeySpan, AfterEquals, KeyRead, ValueRead,
         KeyField, ContentSpans, ContentSection;
    ContentIsKey(text, a, l.equals, i, section);
    ValueAfter(text, l, i, KeyField(text, a, l.equals));
  }

  lemma ContentIsKey(text: seq<uint8>, a: nat, q: nat, i: nat, section: Field)
    requires KeyRead(text, a, q) && q < i <= |text|
    ensures ContentSection(text, a, i, section) == section
    ensures ContentSpans(text, a, i, section)
      == [KeySpan(text, SkipGaps(text, a, q), KeyEnd(text, a, q), section)]
         + AfterEquals(text, q, i, KeyField(text, a, q))
  {
    hide SkipGaps, TrimGaps, Find, GetField, GetSectionType, KeySpan, AfterEquals;
    KeyAgain(text, a, q, i);
  }

  lemma ValueAfter(text: seq<uint8>, l: Line, i: nat, field: Field)
    requires ValueRead(text, l, i) && l.start + l.len == i && (l.len > 0 ==> l.trimmed > 0)
    ensures l.len > 0 ==> l.start + l.trimmed <= i
    ensures l.len == 0 ==> AfterEquals(text, l.equals, i, field) == [Span(HighlightError, l.equals, 1)]
    ensures l.len > 0 ==>
      AfterEquals(text, l.equals, i, field)
      == [Span(HighlightDelimiter, l.equals, 1)] + ValueSpans(field, text, l.start, l.start + l.trimmed)
  {
    hide SkipGaps, TrimGaps, ValueSpans;
  }

  lemma FinishedComment(text: seq<uint8>, a: nat, l: Line, i: nat, section: Field)
    requires Scanned(text, a, l, i) && l.state == OnComment
    ensures Out(text, a, l, section) + [Span(HighlightComment, l.start, l.len)] == LineSpans(text, a, i, section)
    ensures Find(text, HASH, a, i) == l.start
  {
    hide Find, ContentSpans;
    FindIs(text, HASH, a, i, l.start);
  }

  lemma NoComment(text: seq<uint8>, a: nat, i: nat, section: Field)
    requires NoneOf(text, HASH, a, i)
    ensures LineSpans(text, a, i, section) == ContentSpans(text, a, i, section) && Find(text, HASH, a, i) == i
  {
    hide Find, ContentSpans;
    FindIs(text, HASH, a, i, i);
  }

  lemma NoneNext(text: seq<uint8>, c: uint8, a: nat, i: nat)
    requires NoneOf(text, c, a, i) && i < |text| && text[i] != c
    ensures NoneOf(text, c, a, i + 1)
  {
  }

  /** Every byte keeps what is known. */
  lemma ScanAdvances(text: seq<uint8>, a: nat, l: Line, i: nat)
    requires Scanned(text, a, l, i) && i < |text| && text[i] != NEWLINE
    requires l.state != OnComment ==> text[i] != HASH
    requires l.state == OnKey ==> text[i] != EQUALS
    ensures Scanned(text, a, Advance(text, l, i), i + 1)
    ensures var l' := Advance(text, l, i);
      (l'.state == OnValue <==> l.state == OnValue) && (l'.state == OnComment <==> l.state == OnComment)
      && l'.equals == l.equals && (l.state == OnComment ==> l'.start == l.start)
  {
    hide SkipGaps, TrimGaps, NoneOf, WordRead, ValueRead, KeyRead;
    NoneNext(text, NEWLINE, a, i);
    if l.state != OnComment {
      NoneNext(text, HASH, a, i);
    }
    if l.state == OnValue {
      ScanValue(text, l, i);
    } else if l.state == OnNone {
      ScanNone(text, a, l, i);
    } else if l.state != OnComment {
      ScanWord(text, a, l, i);
    }
  }

  lemma ScanNone(text: seq<uint8>, a: nat, l: Line, i: nat)
    requires a <= i < |text| && l.state == OnNone && l.start == i && l.len == 0 && SkipGaps(text, a, i) == i
    ensures var l' := Advance(text, l, i);
      l'.start + l'.len == i + 1 &&
      if Gap(text[i]) then l'.state == OnNone && SkipGaps(text, a, i + 1) == i + 1 == l'.start
      else (l'.state == OnKey || l'.state == OnSection) && WordRead(text, a, l', i + 1)
  {
    hide SkipGaps, TrimGaps;
    SkipIs(text, a, i + 1, if Gap(text[i]) then i + 1 else i);
    if !Gap(text[i]) {
      TrimIs(text, i, i + 1, i + 1);
    }
  }

  lemma ScanWord(text: seq<uint8>, a: nat, l: Line, i: nat)
    requires WordRead(text, a, l, i) && i < |text| && l.start + l.len == i && (l.state == OnKey || l.state == OnSection)
    requires l.state == OnKey ==> text[i] != EQUALS
    ensures var l' := Advance(text, l, i); l'.state == l.state && l'.start == l.start && WordRead(text, a, l', i + 1)
  {
    hide SkipGaps, TrimGaps;
    SkipIs(text, a, i + 1, l.start);
    TrimNext(text, l.start, i, l.trimmed, false);
  }

  lemma TrimNext(text: seq<uint8>, s: nat, i: nat, trimmed: nat, first: bool)
    requires s <= i < |text| && (if first then s == i && !Gap(text[i]) else TrimGaps(text, s, i) == s + trimmed)
    ensures TrimGaps(text, s, i + 1) == if Gap(text[i]) then s + trimmed else i + 1
  {
    hide TrimGaps;
    TrimIs(text, s, i + 1, if Gap(text[i]) then s + trimmed else i + 1);
  }

  lemma ScanValue(text: seq<uint8>, l: Line, i: nat)
    requires ValueRead(text, l, i) && i < |text| && l.start + l.len == i && l.state == OnValue
    ensures ValueRead(text, Advance(text, l, i), i + 1)
  {
    hide SkipGaps, TrimGaps;
    var l' := Advance(text, l, i);
    SkipIs(text, l.equals + 1, i + 1, l'.start);
    if l'.len > 0 {
      TrimNext(text, l'.start, i, l.trimmed, l.len == 0);
    }
  }

  lemma BlanksJoin(text: seq<uint8>, a: nat, b: nat, c: nat)
    requires Blanks(text, a, b) && Blanks(text, b, c)
    ensures Blanks(text, a, c)
  {
  }

  /** The equals sign and the value after it, or an error without one. */
  method FinishValue(ret: SpanArray, text: seq<uint8>, l: Line, i: nat, field: Field)
    requires ret.Valid(text) && LineOk(text, ret.End(), l, i) && Next(text, i) != COLON && l.state == OnValue
    modifies ret
    ensures ret.Valid(text) && Blanks(text, ret.End(), i)
    ensures Fits(text, l) && ret.spans == old(ret.spans) + Finishing(text, l, i, field)
  {
    hide Tiled, Blanks, ValueSpans, Meaning;
    EqualsAt(text, l.equals);
    if l.len > 0 {
      ret.Append(text, l.equals, 1, HighlightDelimiter);
      EndOfValue(text, l.start + l.trimmed, i);
      HighlightValue(ret, text, l.start, l.trimmed, field);
      BlanksJoin(text, ret.End(), l.start + l.trimmed, i);
    } else {
      ret.Append(text, l.equals, 1, HighlightError);
    }
  }

  lemma EqualsAt(text: seq<uint8>, q: nat)
    requires q < |text| && text[q] == EQUALS
    ensures Meaning(HighlightDelimiter, text[q..q + 1]) && Meaning(HighlightError, text[q..q + 1])
  {
    assert text[q..q + 1] == [EQUALS];
  }

  /** At a line's end, at a comment or at the end of the text: append what the line was. */
  method FinishLine(ret: SpanArray, text: seq<uint8>, l: Line, i: nat, section: Field,
                    field: Field) returns (section': Field)
    requires ret.Valid(text) && LineOk(text, ret.End(), l, i) && Next(text, i) != COLON
    modifies ret
    ensures ret.Valid(text) && Blanks(text, ret.End(), i)
    ensures Fits(text, l) && ret.spans == old(ret.spans) + Finishing(text, l, i, field)
    ensures section' == if l.state == OnSection then GetSectionType(text[l.start..l.start + l.trimmed]) else section
  {
    hide Tiled, Blanks, GetSectionType, GetField, ValueOk, ValueSpans;
    section' := section;
    if l.state == OnKey {
      ret.Append(text, l.start, l.trimmed, HighlightError);
    } else if l.state == OnValue {
      FinishValue(ret, text, l, i, field);
    } else if l.state == OnSection {
      section' := GetSectionType(text[l.start..l.start + l.trimmed]);
      ret.Append(text, l.start, l.trimmed, if section' == Invalid then HighlightError else HighlightSection);
    } else if l.state == OnComment {
      assert text[l.start..l.start + l.len][0] == HASH;
      ret.Append(text, l.start, l.len, HighlightComment);
      NoBlanks(text, i);
    }
  }

  /** '=' after a key. */
  method FinishKey(ret: SpanArray, text: seq<uint8>, l: Line, i: nat, section: Field) returns (l': Line, field: Field)
    requires ret.Valid(text) && LineOk(text, ret.End(), l, i) && l.state == OnKey && i < |text| && text[i] == EQUALS
    modifies ret
    ensures ret.Valid(text) && LineOk(text, ret.End(), l', i + 1)
    ensures l' == Line(OnValue, i + 1, 0, l.trimmed, i) && l.start + l.trimmed <= |text|
    ensures field == GetField(text[l.start..l.start + l.trimmed])
    ensures ret.spans == old(ret.spans) + [KeySpan(text, l.start, l.start + l.trimmed, section)]
  {
    hide Tiled, Blanks, GetField;
    field := GetField(text[l.start..l.start + l.trimmed]);
    var own := SectionForField(field);
    ret.Append(text, l.start, l.trimmed,
               if own == Invalid || field == Invalid || own != section then HighlightError else HighlightField);
    l' := Line(OnValue, i + 1, 0, l.trimmed, i);
    NoBlanks(text, i + 1);
  }

  /** Any other byte. */
  function Advance(text: seq<uint8>, l: Line, i: nat): Line
    requires i < |text|
  {
    if l.state == OnComment then l.(len := l.len + 1)
    else if text[i] == SPACE || text[i] == TAB then
      if l.len == 0 then l.(start := l.start + 1) else l.(len := l.len + 1)
    else
      var state := if l.state != OnNone then l.state else if text[i] == OPEN then OnSection else OnKey;
      l.(state := state, len := l.len + 1, trimmed := l.len + 1)
  }

  lemma AdvanceOk(text: seq<uint8>, end: nat, l: Line, i: nat)
    requires LineOk(text, end, l, i) && i < |text|
    ensures LineOk(text, end, Advance(text, l, i), i + 1)
  {
    NoBlanks(text, i + 1);
  }

  /** A key becomes a value. */
  lemma ScanEquals(text: seq<uint8>, a: nat, l: Line, i: nat)
    requires Scanned(text, a, l, i) && l.state == OnKey && i < |text| && text[i] == EQUALS
    ensures l.start + l.trimmed <= |text| && Scanned(text, a, Line(OnValue, i + 1, 0, l.trimmed, i), i + 1)
    ensures SkipGaps(text, a, i) == l.start && KeyEnd(text, a, i) == l.start + l.trimmed
  {
    hide SkipGaps, TrimGaps;
    NoneNext(text, NEWLINE, a, i);
    NoneNext(text, HASH, a, i);
    SkipIs(text, i + 1, i + 1, i + 1);
  }

  /** The rest of the configuration once the line that began at a ends at i. */
  lemma NextLine(text: seq<uint8>, a: nat, i: nat, section: Field)
    requires NoneOf(text, NEWLINE, a, i) && (i < |text| ==> text[i] == NEWLINE)
    ensures ConfigSpans(text, a, section) == LineSpans(text, a, i, section) +
      if i == |text| then [] else ConfigSpans(text, i + 1, ContentSection(text, a, Find(text, HASH, a, i), section))
  {
    hide Find, LineSpans, ContentSection;
    FindIs(text, NEWLINE, a, |text|, i);
  }

  /** The spans so far are those of the lines before a, and of this one what is out already. */
  ghost predicate Caught(text: seq<uint8>, spans: seq<Span>, done: seq<Span>, a: nat, l: Line, i: nat, first: Field,
                         section: Field, field: Field)
  {
    && Scanned(text, a, l, i) && l.start <= |text|
    && spans == done + Out(text, a, l, first)
    && section == (if l.state == OnComment then ContentSection(text, a, l.start, first) else first)
    && (l.state == OnValue ==> field == KeyField(text, a, l.equals))
    && done + ConfigSpans(text, a, first) == ConfigSpans(text, 0, Invalid)
  }

  lemma CaughtAtStart(text: seq<uint8>)
    ensures Caught(text, [], [], 0, Line(OnNone, 0, 0, 0, 0), 0, Invalid, Invalid, Invalid)
  {
    hide ConfigSpans;
    assert [] + ConfigSpans(text, 0, Invalid) == ConfigSpans(text, 0, Invalid);
  }

  lemma CaughtAdvances(text: seq<uint8>, spans: seq<Span>, done: seq<Span>, a: nat, l: Line, i: nat, first: Field,
                       section: Field, field: Field)
    requires Caught(text, spans, done, a, l, i, first, section, field) && i < |text| && text[i] != NEWLINE
    requires l.state != OnComment ==> text[i] != HASH
    requires l.state == OnKey ==> text[i] != EQUALS
    ensures Caught(text, spans, done, a, Advance(text, l, i), i + 1, first, section, field)
  {
    hide Scanned, ConfigSpans, ContentSpans, ContentSection, KeySpan, KeyField, Advance;
    ScanAdvances(text, a, l, i);
    ScanBounds(text, a, Advance(text, l, i), i + 1);
  }

  lemma ScanBounds(text: seq<uint8>, a: nat, l: Line, i: nat)
    requires Scanned(text, a, l, i)
    ensures a <= l.start <= i <= |text| && l.start + l.len == i && (l.state == OnValue ==> a <= l.equals < |text|)
  {
  }

  lemma CaughtEquals(text: seq<uint8>, spans: seq<Span>, done: seq<Span>, a: nat, l: Line, i: nat, first: Field,
                     section: Field, field: Field)
    requires Caught(text, spans, done, a, l, i, first, section, field) && l.state == OnKey
    requires i < |text| && text[i] == EQUALS
    ensures l.start + l.trimmed <= |text|
    ensures Caught(text, spans + [KeySpan(text, l.start, l.start + l.trimmed, section)], done, a,
                   Line(OnValue, i + 1, 0, l.trimmed, i), i + 1, first, section,
                   GetField(text[l.start..l.start + l.trimmed]))
  {
    hide Scanned, ConfigSpans, ContentSpans, ContentSection, KeySpan, GetField;
    ScanEquals(text, a, l, i);
    ScanBounds(text, a, l, i);
    assert done + [] == done;
  }
  lemma CaughtFinish(text: seq<uint8>, spans: seq<Span>, done: seq<Span>, a: nat, l: Line, i: nat, first: Field,
                     section: Field, field: Field, section': Field)
    requires Caught(text, spans, done, a, l, i, first, section, field) && Fits(text, l)
    requires l.start + l.len == i <= |text|
    requires section' == if l.state == OnSection then GetSectionType(text[l.start..l.start + l.trimmed]) else section
    ensures a <= i
    ensures l.state != OnComment ==>
      spans + Finishing(text, l, i, field) == done + ContentSpans(text, a, i, first)
      && section' == ContentSection(text, a, i, first) && NoneOf(text, HASH, a, i)
    ensures i == |text| || text[i] == NEWLINE ==>
      spans + Finishing(text, l, i, field) == done + LineSpans(text, a, i, first)
      && section' == ContentSection(text, a, Find(text, HASH, a, i), first)
  {
    hide ConfigSpans, ContentSpans, ContentSection, KeySpan, KeyField, ValueSpans, Find, LineSpans, GetSectionType,
         GetField;
    if l.state == OnComment {
      FinishedComment(text, a, l, i, first);
      assert done + Out(text, a, l, first) + [Span(HighlightComment, l.start, l.len)]
        == done + (Out(text, a, l, first) + [Span(HighlightComment, l.start, l.len)]);
    } else {
      FinishedLine(text, a, l, i, first, field);
      NoComment(text, a, i, first);
      assert done + Out(text, a, l, first) + Finishing(text, l, i, field)
        == done + (Out(text, a, l, first) + Finishing(text, l, i, field));
    }
  }

  /** After a finished line, the next one; after a finished line with a comment, the comment. */
  lemma CaughtNext(text: seq<uint8>, spans: seq<Span>, done: seq<Span>, a: nat, l: Line, i: nat, first: Field,
                   section: Field, field: Field, section': Field, equals: nat)
    requires Caught(text, spans, done, a, l, i, first, section, field) && Fits(text, l) && l.start + l.len == i < |text|
    requires section' == if l.state == OnSection then GetSectionType(text[l.start..l.start + l.trimmed]) else section
    ensures text[i] == NEWLINE ==>
      Caught(text, spans + Finishing(text, l, i, field), spans + Finishing(text, l, i, field), i + 1,
             Line(OnNone, i + 1, 0, 0, equals), i + 1, section', section', Invalid)
    ensures text[i] == HASH && l.state != OnComment ==>
      Caught(text, spans + Finishing(text, l, i, field), done, a, Line(OnComment, i, 1, 0, equals), i + 1, first,
             section', Invalid)
  {
    hide ConfigSpans, ContentSpans, ContentSection, KeySpan, KeyField, ValueSpans, Find, LineSpans, GetSectionType,
         GetField, SkipGaps, TrimGaps, Finishing;
    CaughtFinish(text, spans, done, a, l, i, first, section, field, section');
    var spans' := spans + Finishing(text, l, i, field);
    if text[i] == NEWLINE {
      NextLine(text, a, i, first);
      SkipIs(text, i + 1, i + 1, i + 1);
      assert spans' + [] == spans';
      assert done + (LineSpans(text, a, i, first) + ConfigSpans(text, i + 1, section'))
        == done + LineSpans(text, a, i, first) + ConfigSpans(text, i + 1, section');
    } else if text[i] == HASH && l.state != OnComment {
      NoneNext(text, NEWLINE, a, i);
    }
  }

  lemma CaughtEnd(text: seq<uint8>, spans: seq<Span>, done: seq<Span>, a: nat, l: Line, first: Field,
                  section: Field, field: Field, section': Field)
    requires Caught(text, spans, done, a, l, |text|, first, section, field) && Fits(text, l)
    requires l.start + l.len == |text|
    requires section' == if l.state == OnSection then GetSectionType(text[l.start..l.start + l.trimmed]) else section
    ensures spans + Finishing(text, l, |text|, field) == ConfigSpans(text, 0, Invalid)
  {
    hide ConfigSpans, ContentSpans, ContentSection, KeySpan, KeyField, ValueSpans, Find, LineSpans, GetSectionType,
         GetField, SkipGaps, TrimGaps, Finishing;
    CaughtFinish(text, spans, done, a, l, |text|, first, section, field, section');
    NextLine(text, a, |text|, first);
    assert LineSpans(text, a, |text|, first) + [] == LineSpans(text, a, |text|, first);
  }

  lemma Empty(text: seq<uint8>)
    ensures Tiled(text, []) && LineOk(text, 0, Line(OnNone, 0, 0, 0, 0), 0)
  {
  }

  method NewLine(text: seq<uint8>, ghost end: nat, l: Line, i: nat) returns (l': Line)
    requires i < |text| && Blanks(text, end, i) && (text[i] == NEWLINE || text[i] == HASH)
    ensures LineOk(text, end, l', i + 1)
    ensures l' == if text[i] == HASH then Line(OnComment, i, 1, 0, l.equals) else Line(OnNone, i + 1, 0, 0, l.equals)
  {
    if text[i] == HASH {
      l' := Line(OnComment, i, 1, 0, l.equals);
    } else {
      l' := Line(OnNone, i + 1, 0, 0, l.equals);
    }
  }

  lemma LineLength(text: seq<uint8>, end: nat, l: Line, i: nat)
    requires LineOk(text, end, l, i)
    ensures l.start + l.len == i
  {
  }

  method HighlightLines(ret: SpanArray, text: seq<uint8>)
    requires ret.spans == []
    modifies ret
    ensures ret.Valid(text) && Blanks(text, ret.End(), |text|)
    ensures ret.spans == ConfigSpans(text, 0, Invalid)
  {
    hide Tiled, LineOk, Blanks, Advance, Caught, Fits, Finishing, ConfigSpans, EndOf, KeySpan, GetField, GetSectionType;
    NoBlanks(text, 0);
    Empty(text);
    CaughtAtStart(text);
    var l := Line(OnNone, 0, 0, 0, 0);
    var section, field := Invalid, Invalid;
    ghost var a, first := 0, Invalid;
    ghost var done: seq<Span> := [];
    var i := 0;
    NothingYet();
    while true
      invariant 0 <= i <= |text| && ret.Valid(text) && LineOk(text, ret.End(), l, i)
      invariant Caught(text, ret.spans, done, a, l, i, first, section, field)
      decreases |text| - i
    {
      if i == |text| || text[i] == NEWLINE || (l.state != OnComment && text[i] == HASH) {
        ghost var spans, section0, field0 := ret.spans, section, field;
        LineLength(text, ret.End(), l, i);
        section := FinishLine(ret, text, l, i, section, field);
        if i == |text| {
          CaughtEnd(text, spans, done, a, l, first, section0, field0, section);
          break;
        }
        CaughtNext(text, spans, done, a, l, i, first, section0, field0, section, l.equals);
        field := Invalid;
        if text[i] == NEWLINE {
          a, first, done := i + 1, section, ret.spans;
        }
        l := NewLine(text, ret.End(), l, i);
      } else if text[i] == EQUALS && l.state == OnKey {
        CaughtEquals(text, ret.spans, done, a, l, i, first, section, field);
        l, field := FinishKey(ret, text, l, i, section);
      } else {
        AdvanceOk(text, ret.End(), l, i);
        CaughtAdvances(text, ret.spans, done, a, l, i, first, section, field);
        l := Advance(text, l, i);
      }
      i := i + 1;
    }
  }

  lemma NothingYet()
    ensures EndOf([]) == 0
  {
  }

  const SIZE_MAX: nat := 0xffff_ffff_ffff_ffff

  /** highlight_config: the spans, and then the end marker. */
  method HighlightConfig(text: seq<uint8>) returns (spans: seq<Span>)
    ensures spans != [] && spans[|spans| - 1] == Span(HighlightEnd, 0, SIZE_MAX)
    ensures spans[..|spans| - 1] == ConfigSpans(text, 0, Invalid)
    ensures Tiled(text, spans[..|spans| - 1]) && Blanks(text, EndOf(spans[..|spans| - 1]), |text|)
  {
    hide Tiled, Blanks, ConfigSpans;
    var ret := new SpanArray();
    HighlightLines(ret, text);
    spans := ret.spans + [Span(HighlightEnd, 0, SIZE_MAX)];
    assert spans[..|ret.spans|] == ret.spans;
  }

  // ---- highlight.c ----

  lemma TiledAt(text: seq<uint8>, spans: seq<Span>, k: nat)
    requires Tiled(text, spans) && k < |spans|
    ensures EndOf(spans[..k]) <= spans[k].start && spans[k].len > 0 && spans[k].End() <= |text|
    ensures spans[k].kind != HighlightEnd && EndOf(spans[..k + 1]) == spans[k].End()
  {
    assert Good(text, spans[k]) && Blanks(text, EndOf(spans[..k]), spans[k].start);
  }

  /** strlen on the input and the zero byte behind it. */
  function Strlen(input: seq<uint8>): (n: nat)
    ensures n <= |input| && (forall k :: 0 <= k < n ==> input[k] != 0) && (n < |input| ==> input[n] == 0)
  {
    if input == [] || input[0] == 0 then 0 else 1 + Strlen(input[1..])
  }

  /** The bytes that are written, in order, between the colours: all of the input, once. The spans
      are those of the text before the first zero byte; what follows is written without colour. */
  method Print(input: seq<uint8>) returns (out: seq<uint8>)
    ensures out == input
  {
    hide Tiled, Blanks, EndOf, ConfigSpans;
    ghost var text := input[..Strlen(input)];
    var spans := HighlightConfig(input[..Strlen(input)]);
    ghost var body := spans[..|spans| - 1];
    StartOf(body);
    out := [];
    var last, k := 0, 0;
    while spans[k].kind != HighlightEnd
      invariant 0 <= k < |spans| && last == EndOf(body[..k]) <= |text| && out == input[..last]
      decreases |spans| - k
    {
      TiledAt(text, body, k);
      var span := spans[k];
      Extended(input, last, span.start);
      out := out + input[last..last + (span.start - last)];
      Extended(input, span.start, span.End());
      out := out + input[span.start..span.start + span.len];
      last := span.start + span.len;
      k := k + 1;
    }
    Extended(input, last, |input|);
    out := out + input[last..last + (|input| - last)];
    assert input[..|input|] == input;
  }

  lemma Extended(text: seq<uint8>, a: nat, b: nat)
    requires a <= b <= |text|
    ensures text[..a] + text[a..b] == text[..b]
  {
  }

  lemma StartOf(spans: seq<Span>)
    ensures EndOf(spans[..0]) == 0
  {
  }
}
