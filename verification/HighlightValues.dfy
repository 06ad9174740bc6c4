/** highlighter.c: the validators of single values. */
module HighlightValues {
  import opened Numbers
  import opened Characters
  import opened IpText

  // ---- is_valid_uint ----

  function HexDigitValue(c: uint8): int { if Decimal(c) then c - ZERO else Lower(c) - 87 }

  function HexNumber(t: seq<uint8>): int {
    if t == [] then 0 else 16 * HexNumber(t[..|t| - 1]) + HexDigitValue(t[|t| - 1])
  }

  predicate HexPrefixed(t: seq<uint8>) { |t| > 2 && t[0] == ZERO && t[1] == 120 }

  /** At most ten characters, so that no value passes 2^40. */
  predicate Uint(t: seq<uint8>, hex: bool, min: nat, max: nat) {
    1 <= |t| <= 10 &&
    if hex && HexPrefixed(t) then AllHex(t[2..]) && min <= HexNumber(t[2..]) <= max
    else AllDecimal(t) && min <= Number(t) <= max
  }

  lemma {:induction false} NumberBounds(t: seq<uint8>)
    requires |t| <= 10
    ensures AllDecimal(t) ==> 0 <= Number(t) < Pow(10, |t|) <= 10000000000
    ensures AllHex(t) ==> 0 <= HexNumber(t) < Pow(16, |t|) <= 0x10000000000
    decreases |t|
  {
    if t != [] {
      var n := |t| - 1;
      NumberBounds(t[..n]);
      assert AllDecimal(t) ==> AllDecimal(t[..n]);
      assert AllHex(t) ==> AllHex(t[..n]);
    }
    Powers(|t|);
  }

  lemma {:induction false} Powers(n: nat)
    requires n <= 10
    ensures Pow(10, n) <= Pow(10, 10) == 10000000000 && Pow(16, n) <= Pow(16, 10) == 0x10000000000
    decreases 10 - n
  {
    assert Pow(10, 5) == 100000 && Pow(16, 5) == 0x100000;
    PowAdd(10, 5, 5);
    PowAdd(16, 5, 5);
    if n < 10 {
      Powers(n + 1);
      PowPositive(10, n);
      PowPositive(16, n);
    }
  }

  /** 16 * val + ... over t[2..], in 64 bits. */
  method ReadHex(t: seq<uint8>) returns (ok: bool, val: int)
    requires |t| <= 10
    ensures ok <==> AllHex(t)
    ensures ok ==> 0 <= val == HexNumber(t) < 0x10000000000
  {
    val := 0;
    var i := 0;
    while i < |t|
      invariant 0 <= i <= |t| && (forall k :: 0 <= k < i ==> Hexadecimal(t[k])) && val == HexNumber(t[..i])
    {
      HexSnoc(t, i);
      if Decimal(t[i]) {
        val := 16 * val + (t[i] - ZERO);
      } else if Lower(t[i]) >= 97 && Lower(t[i]) - 97 < 6 {
        val := 16 * val + Lower(t[i]) - 97 + 10;
      } else {
        return false, 0;
      }
      i := i + 1;
    }
    assert t[..i] == t;
    NumberBounds(t);
    ok := true;
  }

  lemma HexSnoc(t: seq<uint8>, k: nat)
    requires k < |t|
    ensures HexNumber(t[..k + 1]) == 16 * HexNumber(t[..k]) + HexDigitValue(t[k])
  {
    assert t[..k + 1][..k] == t[..k];
  }

  method ReadDecimal(t: seq<uint8>) returns (ok: bool, val: int)
    requires |t| <= 10
    ensures ok <==> AllDecimal(t)
    ensures ok ==> 0 <= val == Number(t) < 0x10000000000
  {
    val := 0;
    var i := 0;
    while i < |t|
      invariant 0 <= i <= |t| && (forall k :: 0 <= k < i ==> Decimal(t[k])) && val == Number(t[..i])
    {
      if !Decimal(t[i]) {
        return false, 0;
      }
      NumberSnoc(t, i);
      val := 10 * val + t[i] - ZERO;
      i := i + 1;
    }
    assert t[..i] == t;
    NumberBounds(t);
    ok := true;
  }

  method IsValidUint(t: seq<uint8>, supportHex: bool, min: nat, max: nat) returns (ok: bool)
    ensures ok <==> Uint(t, supportHex, min, max)
  {
    hide HexNumber, Number, AllHex, AllDecimal;
    if |t| > 10 || |t| == 0 {
      return false;
    }
    var val;
    if supportHex && |t| > 2 && t[0] == ZERO && t[1] == 120 {
      ok, val := ReadHex(t[2..]);
    } else {
      ok, val := ReadDecimal(t);
    }
    ok := ok && val <= max && val >= min;
  }

  predicate Port(t: seq<uint8>) { Uint(t, false, 0, 65535) }

  lemma PortDigits(t: seq<uint8>)
    requires Port(t)
    ensures t != [] && AllDecimal(t)
  {
  }

  // ---- is_valid_hostname ----

  predicate HostChar(c: uint8) { Decimal(c) || c == DOT || Alphabet(c) || c == DASH }

  /** Some character is neither a digit nor a dot. */
  predicate Hostname(t: seq<uint8>) {
    && 1 <= |t| <= 63 && t[0] != DASH && t[0] != DOT && t[|t| - 1] != DASH && t[|t| - 1] != DOT
    && (forall k :: 0 <= k < |t| ==> HostChar(t[k]))
    && (exists k :: 0 <= k < |t| && !Decimal(t[k]) && t[k] != DOT)
  }

  method IsValidHostname(t: seq<uint8>) returns (ok: bool)
    ensures ok <==> Hostname(t)
  {
    var numDigit, numEntity := 0, |t|;
    if |t| > 63 || |t| == 0 {
      return false;
    }
    if t[0] == DASH || t[|t| - 1] == DASH {
      return false;
    }
    if t[0] == DOT || t[|t| - 1] == DOT {
      return false;
    }
    for i := 0 to |t|
      invariant forall k :: 0 <= k < i ==> HostChar(t[k])
      invariant numEntity - numDigit >= |t| - i
      invariant numEntity - numDigit > |t| - i <==> exists k :: 0 <= k < i && !Decimal(t[k]) && t[k] != DOT
    {
      if Decimal(t[i]) {
        numDigit := numDigit + 1;
        continue;
      }
      if t[i] == DOT {
        numEntity := numEntity - 1;
        continue;
      }
      if !Alphabet(t[i]) && t[i] != DASH {
        return false;
      }
      // The test for two dots in a row comes after the dots have been dealt with: it never fires.
    }
    ok := numDigit != numEntity;
  }

  // ---- is_valid_scope ----

  predicate ScopeChar(c: uint8) {
    Alphabet(c) || Decimal(c) || c == UNDERSCORE || c == EQUALS || c == PLUS || c == DOT || c == DASH
  }

  predicate Scope(t: seq<uint8>) { 1 <= |t| <= 64 && forall k :: 0 <= k < |t| ==> ScopeChar(t[k]) }

  method IsValidScope(t: seq<uint8>) returns (ok: bool)
    ensures ok <==> Scope(t)
  {
    if |t| > 64 || |t| == 0 {
      return false;
    }
    for i := 0 to |t|
      invariant forall k :: 0 <= k < i ==> ScopeChar(t[k])
    {
      if !ScopeChar(t[i]) {
        return false;
      }
    }
    ok := true;
  }

  // ---- The characters of addresses ----

  predicate Ipv6Char(c: uint8) { Hexadecimal(c) || c == COLON || c == DOT }

  lemma {:induction false} DottedChars(t: seq<uint8>, n: int)
    requires Dotted(t, n)
    ensures forall k :: 0 <= k < |t| ==> Decimal(t[k]) || t[k] == DOT
    decreases |t|
  {
    hide Dotted;
    var j := DottedCases(t, n);
    if j > 0 {
      DottedChars(t[j + 1..], n - 1);
      OctetPrefix(t, j);
      forall k | j < k < |t| ensures Decimal(t[k]) || t[k] == DOT {
        assert t[k] == t[j + 1..][k - j - 1];
      }
    }
  }

  lemma {:induction false} GroupsChars(t: seq<uint8>, n: int)
    requires Groups(t, n)
    ensures forall k :: 0 <= k < |t| ==> Ipv6Char(t[k])
    decreases |t|
  {
    hide Groups;
    var j := GroupsCases(t, n);
    if j > 0 {
      GroupsChars(t[j + 1..], n - 1);
      GroupPrefix(t, j);
      forall k | j < k < |t| ensures Ipv6Char(t[k]) {
        assert t[k] == t[j + 1..][k - j - 1];
      }
    }
  }

  lemma {:induction false} UnitsChars(t: seq<uint8>, n: int)
    requires Units(t, n)
    ensures forall k :: 0 <= k < |t| ==> Ipv6Char(t[k])
    ensures n >= 3 ==> COLON in t
    decreases |t|
  {
    hide Units, Dotted;
    var j := UnitsCases(t, n);
    if j > 0 {
      UnitsChars(t[j + 1..], n - 1);
      GroupPrefix(t, j);
      assert t[j] in t;
      forall k | j < k < |t| ensures Ipv6Char(t[k]) {
        assert t[k] == t[j + 1..][k - j - 1];
      }
    } else if n == 2 {
      DottedChars(t, 4);
    }
  }

  lemma Ipv6Chars(t: seq<uint8>)
    requires Ipv6(t)
    ensures COLON in t && forall k :: 0 <= k < |t| ==> Ipv6Char(t[k])
  {
    hide Units, Groups;
    if Units(t, 8) {
      UnitsChars(t, 8);
    } else {
      var k: nat, l: nat, r: nat :| Elided(t, 0, k, l, r);
      ElidedChars(t, k, l, r);
    }
  }

  lemma ElidedChars(t: seq<uint8>, k: nat, l: nat, r: nat)
    requires Elided(t, 0, k, l, r)
    ensures COLON in t && forall m :: 0 <= m < |t| ==> Ipv6Char(t[m])
  {
    hide Units, Groups;
    assert t[k] in t;
    if k > 0 {
      GroupsChars(t[..k], l);
    }
    if k + 2 < |t| {
      UnitsChars(t[k + 2..], r);
    }
    forall m | 0 <= m < |t| ensures Ipv6Char(t[m]) {
      if m < k {
        assert t[m] == t[..k][m];
      } else if m >= k + 2 {
        assert t[m] == t[k + 2..][m - k - 2];
      }
    }
  }

  lemma Ipv4Chars(t: seq<uint8>)
    requires Ipv4(t)
    ensures t != [] && forall k :: 0 <= k < |t| ==> Decimal(t[k]) || t[k] == DOT
  {
    DottedChars(t, 4);
    DottedShort(t, 4);
  }

  lemma NotBoth(t: seq<uint8>)
    ensures !(Ipv4(t) && Ipv6(t))
  {
    hide Ipv4, Ipv6;
    if Ipv6(t) {
      Ipv6Chars(t);
      if Ipv4(t) {
        Ipv4Chars(t);
      }
    }
  }

  // ---- is_valid_endpoint ----

  /** Between the brackets: an IPv6 address, perhaps with a scope. */
  ghost predicate Inner(t: seq<uint8>) {
    Ipv6(t) || exists p :: 0 <= p < |t| && t[p] == PERCENT && Ipv6(t[..p]) && Scope(t[p + 1..])
  }

  ghost predicate Host(t: seq<uint8>) {
    if t != [] && t[0] == OPEN then |t| >= 2 && t[|t| - 1] == CLOSE && Inner(t[1..|t| - 1])
    else Ipv4(t) || Hostname(t)
  }

  /** The colon at c separates a host from a port. */
  ghost predicate SplitAt(t: seq<uint8>, c: int) {
    0 <= c < |t| && t[c] == COLON && Host(t[..c]) && Port(t[c + 1..])
  }

  ghost predicate Endpoint(t: seq<uint8>) { exists c :: SplitAt(t, c) }

  /** Only the last colon can be the one, since a port has none. */
  lemma LastColon(t: seq<uint8>, c: int, k: int)
    requires SplitAt(t, c) && c < k < |t|
    ensures t[k] != COLON
  {
    hide Host, Uint;
    PortDigits(t[c + 1..]);
    assert t[k] == t[c + 1..][k - c - 1];
  }

  lemma InnerWithout(t: seq<uint8>)
    requires PERCENT !in t
    ensures Inner(t) <==> Ipv6(t)
  {
    hide Ipv6, Scope;
    assert forall p :: 0 <= p < |t| ==> t[p] in t;
  }

  lemma InnerSplit(t: seq<uint8>, p: nat)
    requires p < |t| && t[p] == PERCENT && PERCENT !in t[..p]
    ensures Inner(t) <==> Ipv6(t[..p]) && Scope(t[p + 1..])
  {
    hide Ipv6, Scope;
    if Ipv6(t) {
      assert t[..|t|] == t;
      Ipv6Prefix(t, |t|);
    }
    NotInside(t, 0, p, PERCENT);
    forall q | 0 <= q < |t| && t[q] == PERCENT && Ipv6(t[..q]) ensures q == p {
      Ipv6Prefix(t, q);
    }
  }

  lemma NotInside(t: seq<uint8>, a: nat, b: nat, x: uint8)
    requires a <= b <= |t| && x !in t[a..b]
    ensures forall k :: a <= k < b ==> t[k] != x
  {
    forall k | a <= k < b ensures t[k] != x {
      assert t[a..b][k - a] == t[k];
    }
  }

  lemma Ipv6Prefix(t: seq<uint8>, p: nat)
    requires p <= |t| && Ipv6(t[..p])
    ensures forall k :: 0 <= k < p ==> t[k] != PERCENT && t[k] != CLOSE
  {
    hide Ipv6;
    Ipv6Chars(t[..p]);
    forall k | 0 <= k < p ensures t[k] != PERCENT && t[k] != CLOSE {
      assert t[..p][k] == t[k];
    }
  }

  lemma InnerChars(t: seq<uint8>)
    requires Inner(t)
    ensures CLOSE !in t
  {
    hide Ipv6;
    if Ipv6(t) {
      assert t[..|t|] == t;
      Ipv6Prefix(t, |t|);
    } else {
      var p :| 0 <= p < |t| && t[p] == PERCENT && Ipv6(t[..p]) && Scope(t[p + 1..]);
      Ipv6Prefix(t, p);
      forall k | p < k < |t| ensures t[k] != CLOSE {
        assert t[p + 1..][k - p - 1] == t[k];
      }
    }
  }

  /** A bracketed endpoint is decided at the first closing bracket. */
  lemma BracketEnd(t: seq<uint8>, e: nat)
    requires 0 < e < |t| && t[0] == OPEN && t[e] == CLOSE && CLOSE !in t[..e]
    ensures Endpoint(t) <==> e + 1 < |t| && t[e + 1] == COLON && Inner(t[1..e]) && Port(t[e + 2..])
  {
    hide Inner, Uint;
    NotInside(t, 0, e, CLOSE);
    forall c | SplitAt(t, c) ensures c == e + 1 && t[1..e] == t[..c][1..c - 1] {
      var h := t[..c];
      assert h[0] == OPEN && h[c - 1] == CLOSE && h[1..c - 1] == t[1..c - 1];
      InnerChars(h[1..c - 1]);
      NotInside(t, 1, c - 1, CLOSE);
    }
    if e + 1 < |t| && t[e + 1] == COLON && Inner(t[1..e]) && Port(t[e + 2..]) {
      assert t[..e + 1][1..e] == t[1..e];
      assert SplitAt(t, e + 1);
    }
  }

  lemma NoBracketEnd(t: seq<uint8>)
    requires t != [] && t[0] == OPEN && CLOSE !in t
    ensures !Endpoint(t)
  {
    hide Inner, Uint;
    assert t[0..|t|] == t;
    NotInside(t, 0, |t|, CLOSE);
    forall c ensures !SplitAt(t, c) {
      if 2 <= c < |t| {
        assert t[..c][c - 1] == t[c - 1];
      }
    }
  }

  /** Any other one at the first colon. */
  lemma FirstColon(t: seq<uint8>, i: nat)
    requires i < |t| && t[0] != OPEN && t[i] == COLON && COLON !in t[..i]
    ensures Endpoint(t) <==> (Ipv4(t[..i]) || Hostname(t[..i])) && Port(t[i + 1..])
  {
    hide Uint, Ipv4;
    NotInside(t, 0, i, COLON);
    forall c | SplitAt(t, c) ensures c == i {
      assert c > 0 ==> t[..c][0] == t[0];
      HostChars(t[..c]);
      NotInside(t, 0, c, COLON);
    }
    if (Ipv4(t[..i]) || Hostname(t[..i])) && Port(t[i + 1..]) {
      assert i > 0 ==> t[..i][0] == t[0];
      assert SplitAt(t, i);
    }
  }

  lemma HostChars(t: seq<uint8>)
    requires Ipv4(t) || Hostname(t)
    ensures COLON !in t
  {
    hide Ipv4;
    if Ipv4(t) {
      Ipv4Chars(t);
    }
  }

  lemma NoColon(t: seq<uint8>)
    requires COLON !in t
    ensures !Endpoint(t)
  {
    hide Host, Uint;
    assert forall c :: 0 <= c < |t| ==> t[c] in t;
  }

  /** The loop over a bracketed host. The span under inspection is t[host..i]. */
  method IsValidBracketed(t: seq<uint8>, next: uint8) returns (ok: bool)
    requires t != [] && t[0] == OPEN
    ensures ok <==> Endpoint(t)
  {
    hide Endpoint, Inner, Ipv6, Uint, Scope, CutOff;
    var seenScope, host, i := false, 1, 1;
    while i < |t|
      invariant 1 <= host <= i <= |t|
      invariant CLOSE !in t[..i]
      invariant PERCENT !in t[host..i]
      invariant !seenScope ==> host == 1
      invariant seenScope ==> host >= 2 && t[host - 1] == PERCENT && PERCENT !in t[1..host - 1] && Ipv6(t[1..host - 1])
    {
      assert t[..i + 1] == t[..i] + [t[i]] && t[host..i + 1] == t[host..i] + [t[i]];
      if t[i] == PERCENT {
        if seenScope {
          TwoPercents(t, host - 1, i);
          return false;
        }
        seenScope := true;
        var valid := IsValidIpv6(t[host..i], t[i]);
        NotCutOff(t[host..i], t[i]);
        if !valid {
          BadAddress(t, i);
          return false;
        }
        host := i + 1;
      } else if t[i] == CLOSE {
        BracketEnd(t, i);
        assert t[1..i] == t[1..host] + t[host..i];
        if seenScope {
          assert t[1..host] == t[1..host - 1] + [PERCENT];
          assert t[1..i][..host - 2] == t[1..host - 1] && t[1..i][host - 1..] == t[host..i];
          InnerSplit(t[1..i], host - 2);
          var valid := IsValidScope(t[host..i]);
          if !valid {
            return false;
          }
        } else {
          InnerWithout(t[1..i]);
          var valid := IsValidIpv6(t[host..i], t[i]);
          NotCutOff(t[host..i], t[i]);
          if !valid {
            return false;
          }
        }
        if i == |t| - 1 || t[i + 1] != COLON {
          return false;
        }
        ok := IsValidUint(t[i + 2..], false, 0, 65535);
        return;
      }
      i := i + 1;
    }
    assert t[..i] == t;
    NoBracketEnd(t);
    ok := false;
  }

  lemma NotCutOff(t: seq<uint8>, next: uint8)
    requires next != COLON
    ensures !CutOff(t, 0, next)
  {
  }

  /** Whatever comes after it, a `%` behind something other than an address is wrong, and so is
      a second `%`. */
  lemma BadAddress(t: seq<uint8>, i: nat)
    requires 1 <= i < |t| && t[0] == OPEN && t[i] == PERCENT && CLOSE !in t[..i] && PERCENT !in t[1..i]
    requires !Ipv6(t[1..i])
    ensures !Endpoint(t)
  {
    hide Inner, Ipv6, Uint, Scope;
    forall c ensures !SplitAt(t, c) {
      if SplitAt(t, c) {
        InnerOf(t, c, i);
        var x := t[1..c - 1];
        assert x[..i - 1] == t[1..i];
        InnerSplit(x, i - 1);
      }
    }
  }

  lemma TwoPercents(t: seq<uint8>, p: nat, i: nat)
    requires 1 <= p < i < |t| && t[0] == OPEN && t[p] == t[i] == PERCENT && CLOSE !in t[..i] && PERCENT !in t[1..p]
    ensures !Endpoint(t)
  {
    hide Inner, Ipv6, Uint, Scope;
    forall c ensures !SplitAt(t, c) {
      if SplitAt(t, c) {
        InnerOf(t, c, i);
        ScopeAfter(t, p, c - 1);
      }
    }
  }

  lemma ScopeAfter(t: seq<uint8>, p: nat, e: nat)
    requires 1 <= p < e <= |t| && t[p] == PERCENT && PERCENT !in t[1..p] && Inner(t[1..e])
    ensures forall k :: p < k < e ==> t[k] != PERCENT
  {
    hide Inner, Ipv6, Scope;
    var x := t[1..e];
    assert x[..p - 1] == t[1..p] && x[p..] == t[p + 1..e];
    InnerSplit(x, p - 1);
    ScopeChars(x[p..]);
    NotInside(t, p + 1, e, PERCENT);
  }

  lemma ScopeChars(t: seq<uint8>)
    requires Scope(t)
    ensures PERCENT !in t
  {
  }

  /** The bracket that closes the host comes after everything without one. */
  lemma InnerOf(t: seq<uint8>, c: int, i: nat)
    requires SplitAt(t, c) && 1 <= i < |t| && t[0] == OPEN && CLOSE !in t[..i] && t[i] != CLOSE
    ensures i < c - 1 && Inner(t[1..c - 1])
  {
    hide Inner, Uint;
    NotInside(t, 0, i, CLOSE);
    var h := t[..c];
    assert c > 0 && h[0] == t[0];
    assert h[c - 1] == t[c - 1] && h[1..c - 1] == t[1..c - 1];
  }

  method IsValidEndpoint(t: seq<uint8>, next: uint8) returns (ok: bool)
    ensures ok <==> Endpoint(t)
  {
    hide Endpoint, Hostname, Ipv4, Uint;
    if |t| == 0 {
      NoColon(t);
      return false;
    }
    if t[0] == OPEN {
      ok := IsValidBracketed(t, next);
      return;
    }
    var i := 0;
    while i < |t|
      invariant 0 <= i <= |t| && COLON !in t[..i]
    {
      if t[i] == COLON {
        FirstColon(t, i);
        ok := IsValidUint(t[i + 1..], false, 0, 65535);
        if ok {
          ok := IsValidIpv4(t[..i], t[i]);
          if !ok {
            ok := IsValidHostname(t[..i]);
          }
        }
        return;
      }
      assert t[..i + 1] == t[..i] + [t[i]];
      i := i + 1;
    }
    assert t[..i] == t;
    NoColon(t);
    ok := false;
  }

  // ---- is_valid_network ----

  predicate Cidr(t: seq<uint8>, max: nat) { 1 <= |t| <= 3 && AllDecimal(t) && Number(t) <= max }

  ghost predicate SlashAt(t: seq<uint8>, i: int) {
    && 0 <= i < |t| && t[i] == SLASH
    && ((Ipv4(t[..i]) && Cidr(t[i + 1..], 32)) || (Ipv6(t[..i]) && Cidr(t[i + 1..], 128)))
  }

  /** An address, perhaps with a prefix length. */
  ghost predicate Network(t: seq<uint8>) { Ipv4(t) || Ipv6(t) || exists i :: SlashAt(t, i) }

  lemma AddressChars(t: seq<uint8>)
    requires Ipv4(t) || Ipv6(t)
    ensures SLASH !in t
  {
    hide Ipv4, Ipv6;
    if Ipv4(t) {
      Ipv4Chars(t);
    } else {
      Ipv6Chars(t);
    }
  }

  lemma FirstSlash(t: seq<uint8>, i: nat)
    requires i < |t| && t[i] == SLASH && SLASH !in t[..i]
    ensures Network(t) <==> SlashAt(t, i)
  {
    hide Ipv4, Ipv6, Cidr;
    NotInside(t, 0, i, SLASH);
    if Ipv4(t) || Ipv6(t) {
      AddressChars(t);
    }
    forall j | SlashAt(t, j) ensures i == j {
      AddressChars(t[..j]);
      NotInside(t, 0, j, SLASH);
    }
  }

  lemma NoSlash(t: seq<uint8>)
    requires SLASH !in t
    ensures Network(t) <==> Ipv4(t) || Ipv6(t)
  {
    hide Ipv4, Ipv6, Cidr;
    assert forall i :: 0 <= i < |t| ==> t[i] in t;
  }

  method IsValidNetwork(t: seq<uint8>, next: uint8) returns (ok: bool)
    ensures next != COLON ==> (ok <==> Network(t))
  {
    hide Network, Ipv4, Ipv6, CutOff;
    var i := 0;
    while i < |t|
      invariant 0 <= i <= |t| && SLASH !in t[..i]
    {
      if t[i] == SLASH {
        FirstSlash(t, i);
        NotBoth(t[..i]);
        if |t| - i - 1 > 3 || |t| - i - 1 == 0 {
          return false;
        }
        var decimal, cidrval := ReadDecimal(t[i + 1..]);
        if !decimal {
          return false;
        }
        var v4 := IsValidIpv4(t[..i], t[i]);
        if v4 {
          return cidrval <= 32;
        }
        var v6 := IsValidIpv6(t[..i], t[i]);
        NotCutOff(t[..i], t[i]);
        return v6 && cidrval <= 128;
      }
      assert t[..i + 1] == t[..i] + [t[i]];
      i := i + 1;
    }
    assert t[..i] == t;
    NoSlash(t);
    ok := IsValidIpv4(t, next);
    if !ok {
      ok := IsValidIpv6(t, next);
    }
    if next != COLON {
      NotCutOff(t, next);
    }
  }
}
