/** highlighter.c, is_valid_ipv4 and is_valid_ipv6, against the textual forms of section 2.2 of
    RFC 4291. */
module IpText {
  import opened Numbers
  import opened Characters

  // ---- Dotted quads ----

  /** A decimal byte without a leading zero. */
  predicate Octet(t: seq<uint8>) {
    1 <= |t| <= 3 && AllDecimal(t) && (|t| > 1 ==> t[0] != ZERO) && Number(t) <= 255
  }

  /** n octets with dots between them. */
  ghost predicate Dotted(t: seq<uint8>, n: int)
    decreases |t|
  {
    || (n == 1 && Octet(t))
    || exists j :: 0 < j < |t| && t[j] == DOT && Octet(t[..j]) && Dotted(t[j + 1..], n - 1)
  }

  ghost predicate Ipv4(t: seq<uint8>) { Dotted(t, 4) }

  /** j is how many leading bytes are digits, counting no further than three. */
  ghost predicate DecimalRun(t: seq<uint8>, j: nat) {
    j <= 3 && j <= |t| && (forall k :: 0 <= k < j ==> Decimal(t[k])) && (j == 3 || j == |t| || !Decimal(t[j]))
  }

  lemma OctetPrefix(t: seq<uint8>, k: nat)
    requires k <= |t| && Octet(t[..k])
    ensures 1 <= k <= 3 && forall m :: 0 <= m < k ==> Decimal(t[m])
  {
    forall m | 0 <= m < k ensures Decimal(t[m]) {
      assert t[..k][m] == t[m];
    }
  }

  /** The first octet can only end where the digits do. */
  lemma DottedStep(t: seq<uint8>, n: int, j: nat)
    requires DecimalRun(t, j)
    ensures Dotted(t, n) == if n == 1 && j == |t| then Octet(t)
      else j < |t| && t[j] == DOT && Octet(t[..j]) && Dotted(t[j + 1..], n - 1)
  {
    forall k | 0 < k < |t| && t[k] == DOT && Octet(t[..k]) ensures k == j {
      OctetPrefix(t, k);
    }
    if n == 1 && Octet(t) {
      assert t[..|t|] == t;
      OctetPrefix(t, |t|);
    }
  }

  /** Where the first octet ends, 0 if it is the only one. */
  lemma DottedCases(t: seq<uint8>, n: int) returns (j: nat)
    requires Dotted(t, n)
    ensures j < |t|
    ensures if j == 0 then n == 1 && Octet(t) else t[j] == DOT && Octet(t[..j]) && Dotted(t[j + 1..], n - 1)
  {
    if n == 1 && Octet(t) {
      j := 0;
    } else {
      j :| 0 < j < |t| && t[j] == DOT && Octet(t[..j]) && Dotted(t[j + 1..], n - 1);
    }
  }

  lemma {:induction false} DottedShort(t: seq<uint8>, n: int)
    requires Dotted(t, n)
    ensures n >= 1 && |t| >= 2 * n - 1 && Decimal(t[0]) && Decimal(t[|t| - 1])
    decreases |t|
  {
    hide Dotted;
    var j := DottedCases(t, n);
    if j > 0 {
      DottedShort(t[j + 1..], n - 1);
      OctetPrefix(t, j);
    }
  }

  method CountDecimals(t: seq<uint8>, pos: nat) returns (j: nat, val: uint32)
    requires pos <= |t|
    ensures DecimalRun(t[pos..], j) && val == Number(t[pos..][..j])
  {
    j, val := 0, 0;
    while j < 3 && pos + j < |t| && Decimal(t[pos + j])
      invariant j <= 3 && pos + j <= |t| && forall k :: 0 <= k < j ==> Decimal(t[pos..][k])
      invariant val == Number(t[pos..][..j]) && (j == 0 ==> val == 0) && (j == 1 ==> val <= 9) && (j == 2 ==> val <= 99)
      invariant val <= 999
    {
      NumberSnoc(t[pos..], j);
      val := 10 * val + t[pos + j] - ZERO;
      j := j + 1;
    }
  }

  method IsValidIpv4(t: seq<uint8>, next: uint8) returns (ok: bool)
    ensures ok == Ipv4(t)
  {
    hide Dotted, Octet, DecimalRun, Number;
    var i, pos := 0, 0;
    assert t[0..] == t;
    while i < 4 && pos < |t|
      invariant 0 <= i <= 4 && 0 <= pos <= |t| + 1
      invariant Ipv4(t) == (pos <= |t| && Dotted(t[pos..], 4 - i))
      decreases 4 - i
    {
      var j, val := CountDecimals(t, pos);
      ghost var rest := t[pos..];
      DottedStep(rest, 4 - i, j);
      OctetRun(rest, j, val);
      assert j == |rest| ==> rest[..j] == rest;
      if j == 0 || (j > 1 && t[pos] == ZERO) || val > 255 {
        return false;
      }
      if pos + j == |t| && i == 3 {
        return true;
      }
      if At(t, next, pos + j) != DOT {
        return false;
      }
      assert j < |rest| ==> rest[j + 1..] == t[pos + j + 1..];
      pos := pos + j + 1;
      i := i + 1;
    }
    if pos <= |t| && Dotted(t[pos..], 4 - i) {
      DottedShort(t[pos..], 4 - i);
    }
    ok := false;
  }

  lemma OctetRun(t: seq<uint8>, j: nat, val: int)
    requires DecimalRun(t, j) && val == Number(t[..j])
    ensures j <= 3 && j <= |t|
    ensures Octet(t[..j]) <==> j > 0 && (j > 1 ==> t[0] != ZERO) && val <= 255
  {
    assert forall k :: 0 <= k < j ==> t[..j][k] == t[k];
  }

  // ---- IPv6 ----

  /** One to four hexadecimal digits. */
  predicate Group(t: seq<uint8>) { 1 <= |t| <= 4 && AllHex(t) }

  /** n groups with colons between them. */
  ghost predicate Groups(t: seq<uint8>, n: int)
    decreases |t|
  {
    || (n == 1 && Group(t))
    || exists j :: 0 < j < |t| && t[j] == COLON && Group(t[..j]) && Groups(t[j + 1..], n - 1)
  }

  /** The same, but the last may be a dotted quad, which counts as two. */
  ghost predicate Units(t: seq<uint8>, n: int)
    decreases |t|
  {
    || (n == 1 && Group(t))
    || (n == 2 && Ipv4(t))
    || exists j :: 0 < j < |t| && t[j] == COLON && Group(t[..j]) && Units(t[j + 1..], n - 1)
  }

  /** After i groups: l groups, `::` at k, and r more. At least one group is elided. */
  ghost predicate Elided(t: seq<uint8>, i: nat, k: nat, l: nat, r: nat) {
    && k + 2 <= |t| && t[k] == t[k + 1] == COLON && i + l + r <= 7
    && (if k == 0 then l == 0 else Groups(t[..k], l))
    && (if k + 2 == |t| then r == 0 else Units(t[k + 2..], r))
  }

  /** Section 2.2 of RFC 4291: eight groups, or fewer and one `::`. */
  ghost predicate Ipv6(t: seq<uint8>) {
    Units(t, 8) || exists k: nat, l: nat, r: nat :: Elided(t, 0, k, l, r)
  }

  // ---- What is left to read after i groups ----

  /** After the `::`, which counts as one. */
  ghost predicate Tail(t: seq<uint8>, i: nat) {
    i <= 8 && (t == [] || exists r: nat :: Units(t, r) && i + r <= 8)
  }

  /** Before it, just after a colon. */
  ghost predicate Ahead(t: seq<uint8>, i: nat)
    decreases |t|
  {
    || (t != [] && t[0] == COLON && Tail(t[1..], i + 1))
    || exists j :: 0 < j < |t| && t[j] == COLON && Group(t[..j]) && Ahead(t[j + 1..], i + 1)
  }

  /** j is how many leading bytes are hexadecimal, counting no further than four. */
  ghost predicate HexRun(t: seq<uint8>, j: nat) {
    j <= 4 && j <= |t| && (forall k :: 0 <= k < j ==> Hexadecimal(t[k])) && (j == 4 || j == |t| || !Hexadecimal(t[j]))
  }

  lemma GroupPrefix(t: seq<uint8>, k: nat)
    requires k <= |t| && Group(t[..k])
    ensures 1 <= k <= 4 && forall m :: 0 <= m < k ==> Hexadecimal(t[m])
  {
    forall m | 0 <= m < k ensures Hexadecimal(t[m]) {
      assert t[..k][m] == t[m];
    }
  }

  lemma GroupIsRun(t: seq<uint8>, j: nat)
    requires HexRun(t, j)
    ensures Group(t[..j]) <==> j > 0
    ensures Group(t) <==> j > 0 && j == |t|
    ensures forall k :: 0 < k < |t| && t[k] == COLON && Group(t[..k]) ==> k == j
  {
    assert forall k :: 0 <= k < j ==> t[..j][k] == t[k];
    if Group(t) {
      assert t[..|t|] == t;
      GroupPrefix(t, |t|);
    }
    forall k | 0 < k < |t| && t[k] == COLON && Group(t[..k]) ensures k == j {
      GroupPrefix(t, k);
    }
  }

  lemma GroupsStep(t: seq<uint8>, n: int, j: nat)
    requires HexRun(t, j)
    ensures Groups(t, n) == (j > 0 && if j == |t| then n == 1 else t[j] == COLON && Groups(t[j + 1..], n - 1))
  {
    GroupIsRun(t, j);
  }

  /** A dotted quad starts with digits, and then a dot. */
  lemma QuadRun(t: seq<uint8>, j: nat)
    requires HexRun(t, j) && Ipv4(t)
    ensures 0 < j < |t| && t[j] == DOT
  {
    hide Dotted;
    var k := DottedCases(t, 4);
    OctetPrefix(t, k);
  }

  lemma UnitsStep(t: seq<uint8>, n: int, j: nat)
    requires HexRun(t, j)
    ensures Units(t, n) == (j > 0 &&
      if j == |t| then n == 1
      else if t[j] == COLON then Units(t[j + 1..], n - 1)
      else t[j] == DOT && n == 2 && Ipv4(t))
  {
    GroupIsRun(t, j);
    if Ipv4(t) {
      QuadRun(t, j);
    }
  }

  lemma AheadStep(t: seq<uint8>, i: nat, j: nat)
    requires HexRun(t, j)
    ensures Ahead(t, i) == if t != [] && t[0] == COLON then Tail(t[1..], i + 1)
      else 0 < j < |t| && t[j] == COLON && Ahead(t[j + 1..], i + 1)
  {
    GroupIsRun(t, j);
    if t != [] && t[0] == COLON {
      assert j == 0;
    }
  }

  // ---- One step of each definition, without unfolding further ----

  /** Where the first group ends, 0 if it is the only one. */
  lemma GroupsCases(t: seq<uint8>, n: int) returns (j: nat)
    requires Groups(t, n)
    ensures j < |t|
    ensures if j == 0 then n == 1 && Group(t) else t[j] == COLON && Group(t[..j]) && Groups(t[j + 1..], n - 1)
  {
    if n == 1 && Group(t) {
      j := 0;
    } else {
      j :| 0 < j < |t| && t[j] == COLON && Group(t[..j]) && Groups(t[j + 1..], n - 1);
    }
  }

  lemma UnitsCases(t: seq<uint8>, n: int) returns (j: nat)
    requires Units(t, n)
    ensures if j == 0 then (n == 1 && Group(t)) || (n == 2 && Ipv4(t))
      else j < |t| && t[j] == COLON && Group(t[..j]) && Units(t[j + 1..], n - 1)
  {
    if (n == 1 && Group(t)) || (n == 2 && Ipv4(t)) {
      j := 0;
    } else {
      j :| 0 < j < |t| && t[j] == COLON && Group(t[..j]) && Units(t[j + 1..], n - 1);
    }
  }

  lemma AheadCases(t: seq<uint8>, i: nat) returns (j: nat)
    requires Ahead(t, i)
    ensures j < |t| && t[j] == COLON
    ensures if j == 0 then Tail(t[1..], i + 1) else Group(t[..j]) && Ahead(t[j + 1..], i + 1)
  {
    if t != [] && t[0] == COLON && Tail(t[1..], i + 1) {
      j := 0;
    } else {
      j :| 0 < j < |t| && t[j] == COLON && Group(t[..j]) && Ahead(t[j + 1..], i + 1);
    }
  }

  lemma GroupsCons(t: seq<uint8>, j: nat, n: int)
    requires j < |t| && t[j] == COLON && Group(t[..j]) && Groups(t[j + 1..], n)
    ensures Groups(t, n + 1)
  {
  }

  lemma GroupsOne(t: seq<uint8>)
    requires Group(t)
    ensures Groups(t, 1)
  {
  }

  lemma AheadCons(t: seq<uint8>, j: nat, i: nat)
    requires j < |t| && t[j] == COLON && Group(t[..j]) && Ahead(t[j + 1..], i + 1)
    ensures Ahead(t, i)
  {
  }

  lemma AheadHere(t: seq<uint8>, i: nat)
    requires t != [] && t[0] == COLON && Tail(t[1..], i + 1)
    ensures Ahead(t, i)
  {
  }

  lemma {:induction false} UnitsShape(t: seq<uint8>, n: int)
    requires Units(t, n)
    ensures n >= 1 && t != [] && t[0] != COLON && t[|t| - 1] != COLON && |t| >= 2 * n - 1
    decreases |t|
  {
    hide Units, Dotted;
    var j := UnitsCases(t, n);
    if j > 0 {
      GroupPrefix(t, j);
      UnitsShape(t[j + 1..], n - 1);
    } else if n == 2 {
      DottedShort(t, 4);
    }
  }

  lemma {:induction false} GroupsShape(t: seq<uint8>, n: int)
    requires Groups(t, n)
    ensures n >= 1 && t != [] && t[0] != COLON && t[|t| - 1] != COLON
    decreases |t|
  {
    hide Groups;
    var j := GroupsCases(t, n);
    if j > 0 {
      GroupPrefix(t, j);
      GroupsShape(t[j + 1..], n - 1);
    }
  }

  // ---- Reading forward finds the one `::` ----

  lemma {:induction false} AheadToElided(t: seq<uint8>, i: nat) returns (k: nat, l: nat, r: nat)
    requires Ahead(t, i) && t != [] && t[0] != COLON
    ensures k > 0 && Elided(t, i, k, l, r)
    decreases |t|
  {
    hide Ahead, Groups, Units, Group;
    var j := AheadCases(t, i);
    var t' := t[j + 1..];
    var j' := AheadCases(t', i + 1);
    if j' == 0 {
      assert t'[1..] == t[j + 2..];
      k, l := j, 1;
      GroupsOne(t[..k]);
      if j + 2 == |t| {
        r := 0;
      } else {
        r :| Units(t'[1..], r) && i + 2 + r <= 8;
      }
    } else {
      GroupPrefix(t', j');
      var k', l';
      k', l', r := AheadToElided(t', i + 1);
      k, l := j + 1 + k', 1 + l';
      assert t[..k][j + 1..] == t'[..k'] && t[..k][..j] == t[..j];
      GroupsCons(t[..k], j, l');
      assert t'[k' + 2..] == t[k + 2..];
    }
  }

  lemma {:induction false} ElidedToAhead(t: seq<uint8>, i: nat, k: nat, l: nat, r: nat)
    requires Elided(t, i, k, l, r) && k > 0
    ensures Ahead(t, i)
    decreases |t|
  {
    hide Ahead, Groups, Units, Group;
    var j := GroupsCases(t[..k], l);
    if j == 0 {
      var t' := t[k + 1..];
      assert t'[1..] == t[k + 2..];
      assert Tail(t'[1..], i + 2);
      AheadHere(t', i + 1);
      AheadCons(t, k, i);
    } else {
      var t', k' := t[j + 1..], k - j - 1;
      assert t[..k][..j] == t[..j] && t[..k][j + 1..] == t'[..k'];
      GroupsShape(t'[..k'], l - 1);
      assert t'[k' + 2..] == t[k + 2..];
      ElidedToAhead(t', i + 1, k', l - 1, r);
      AheadCons(t, j, i);
    }
  }

  // ---- is_valid_ipv6 ----

  /** Up to seven groups cut off by a colon just behind the span: the loop reads that byte and
      then finds itself past the end. */
  ghost predicate CutOff(t: seq<uint8>, i: nat, next: uint8) {
    next == COLON && exists n :: 1 <= n && i + n <= 7 && Groups(t, n)
  }

  /** Whether the loop answers true when t is what it still has to read. */
  ghost predicate Left(t: seq<uint8>, i: nat, seen: bool, next: uint8) {
    if seen then Tail(t, i) else i <= 8 && (Units(t, 8 - i) || Ahead(t, i) || CutOff(t, i, next))
  }

  lemma LeftAtColon(t: seq<uint8>, i: nat, next: uint8)
    requires t != [] && t[0] == COLON && i <= 7
    ensures Left(t, i, false, next) == Tail(t[1..], i + 1)
    ensures i == 7 && |t| > 1 ==> !Left(t, i, false, next)
  {
    hide Units, Ahead, Groups;
    AheadStep(t, i, 0);
    UnitsStep(t, 8 - i, 0);
    forall n ensures !Groups(t, n) {
      GroupsStep(t, n, 0);
    }
    if |t| > 1 {
      NoRoom(t[1..]);
    }
  }

  lemma NoRoom(t: seq<uint8>)
    requires t != []
    ensures !Tail(t, 8)
  {
    hide Units;
    forall r: nat ensures Units(t, r) ==> r >= 1 {
      if Units(t, r) {
        UnitsShape(t, r);
      }
    }
  }

  /** A group and then a colon, a dot, or the end. */
  lemma LeftAtEnd(t: seq<uint8>, i: nat, seen: bool, next: uint8, j: nat)
    requires t != [] && i <= 7 && HexRun(t, j) && (t[0] == COLON ==> seen)
    requires j == 0 || j == |t| || (t[j] != COLON && t[j] != DOT)
    ensures Left(t, i, seen, next) == (j > 0 && j == |t| && (seen || i == 7 || next == COLON))
  {
    hide Units, Ahead, Groups;
    forall n ensures Units(t, n) == (n == 1 && j > 0 && j == |t|) && Groups(t, n) == (n == 1 && j > 0 && j == |t|) {
      UnitsStep(t, n, j);
      GroupsStep(t, n, j);
    }
    AheadStep(t, i, j);
    assert j > 0 && j == |t| ==> Groups(t, 1) && Units(t, 1);
  }

  lemma LeftAtDot(t: seq<uint8>, i: nat, seen: bool, next: uint8, j: nat)
    requires i <= 7 && HexRun(t, j) && 0 < j < |t| && t[j] == DOT
    ensures Left(t, i, seen, next) == (Ipv4(t) && if seen then i <= 6 else i == 6)
  {
    hide Units, Ahead, Groups;
    forall n ensures Units(t, n) == (n == 2 && Ipv4(t)) && !Groups(t, n) {
      UnitsStep(t, n, j);
      GroupsStep(t, n, j);
    }
    AheadStep(t, i, j);
    assert Ipv4(t) ==> Units(t, 2);
  }

  lemma LeftAfterGroup(t: seq<uint8>, i: nat, seen: bool, next: uint8, j: nat)
    requires i <= 7 && HexRun(t, j) && 0 < j < |t| - 1 && t[j] == COLON
    ensures Left(t, i, seen, next) == (i < 7 && Left(t[j + 1..], i + 1, seen, next))
  {
    hide Units, Ahead, Groups, Tail;
    AheadStep(t, i, j);
    UnitsStep(t, 8 - i, j);
    var t' := t[j + 1..];
    TailAfterGroup(t, i, j);
    CutOffAfterGroup(t, i, next, j);
    if i == 7 {
      if Units(t', 0) {
        UnitsShape(t', 0);
      }
      if Ahead(t', 8) {
        AheadBound(t', 8);
      }
      NoRoom(t');
    }
  }

  lemma TailAfterGroup(t: seq<uint8>, i: nat, j: nat)
    requires i <= 7 && HexRun(t, j) && 0 < j < |t| - 1 && t[j] == COLON
    ensures Tail(t, i) == Tail(t[j + 1..], i + 1)
  {
    hide Units;
    var t' := t[j + 1..];
    if Tail(t, i) {
      var r: nat :| Units(t, r) && i + r <= 8;
      UnitsStep(t, r, j);
      UnitsShape(t, r);
      assert Units(t', r - 1);
    }
    if Tail(t', i + 1) {
      var r: nat :| Units(t', r) && i + 1 + r <= 8;
      UnitsStep(t, r + 1, j);
      assert Units(t, r + 1);
    }
  }

  lemma CutOffAfterGroup(t: seq<uint8>, i: nat, next: uint8, j: nat)
    requires HexRun(t, j) && 0 < j < |t| - 1 && t[j] == COLON
    ensures CutOff(t, i, next) == CutOff(t[j + 1..], i + 1, next)
  {
    hide Groups;
    var t' := t[j + 1..];
    if CutOff(t, i, next) {
      var n :| 1 <= n && i + n <= 7 && Groups(t, n);
      GroupsStep(t, n, j);
      GroupsShape(t', n - 1);
    }
    if CutOff(t', i + 1, next) {
      var n :| 1 <= n && i + 1 + n <= 7 && Groups(t', n);
      GroupsStep(t, n + 1, j);
      assert Groups(t, n + 1);
    }
  }

  lemma {:induction false} AheadBound(t: seq<uint8>, i: nat)
    requires Ahead(t, i)
    ensures i <= 7
    decreases |t|
  {
    hide Ahead;
    var j := AheadCases(t, i);
    if j > 0 {
      AheadBound(t[j + 1..], i + 1);
    }
  }

  /** The tests before the loop refuse only what is not an address, and the loop starts behind
      the first colon of a leading `::`. */
  lemma Start(t: seq<uint8>, next: uint8)
    ensures var want := Ipv6(t) || (|t| >= 2 && CutOff(t, 0, next));
      if |t| < 2 || (t[0] == COLON && t[1] != COLON) || (t[|t| - 1] == COLON && t[|t| - 2] != COLON) then !want
      else want == if t[0] == COLON then Left(t[1..], 0, false, next) else Left(t, 0, false, next)
  {
    hide Units, Groups, Ahead;
    forall n ensures Units(t, n) ==> n >= 1 && |t| >= 2 * n - 1 && t[0] != COLON && t[|t| - 1] != COLON {
      if Units(t, n) {
        UnitsShape(t, n);
      }
    }
    forall n ensures Groups(t, n) ==> t != [] && t[0] != COLON && t[|t| - 1] != COLON {
      if Groups(t, n) {
        GroupsShape(t, n);
      }
    }
    forall k: nat, l: nat, r: nat | Elided(t, 0, k, l, r)
      ensures |t| >= 2 && (t[0] == COLON ==> k == 0 && t[1] == COLON)
      ensures t[|t| - 1] == COLON ==> t[|t| - 2] == COLON
      ensures k > 0 ==> Ahead(t, 0)
      ensures k == 0 ==> Tail(t[2..], 1)
    {
      ElidedEnds(t, k, l, r);
    }
    if |t| >= 2 && t[0] == COLON == t[1] {
      LeftAtColon(t[1..], 0, next);
      assert t[1..][1..] == t[2..];
      if Tail(t[2..], 1) {
        var r: nat :| if |t| == 2 then r == 0 else Units(t[2..], r) && 1 + r <= 8;
        assert Elided(t, 0, 0, 0, r);
      }
    } else if |t| >= 2 && t[0] != COLON && Ahead(t, 0) {
      var k, l, r := AheadToElided(t, 0);
    }
  }

  lemma ElidedEnds(t: seq<uint8>, k: nat, l: nat, r: nat)
    requires Elided(t, 0, k, l, r)
    ensures t[0] == COLON ==> k == 0
    ensures t[|t| - 1] == COLON ==> t[|t| - 2] == COLON
    ensures k > 0 ==> Ahead(t, 0)
    ensures k == 0 ==> Tail(t[2..], 1)
  {
    hide Units, Groups, Ahead;
    if k > 0 {
      GroupsShape(t[..k], l);
      ElidedToAhead(t, 0, k, l, r);
    }
    if k + 2 < |t| {
      UnitsShape(t[k + 2..], r);
    }
  }

  method CountHex(t: seq<uint8>, pos: nat) returns (j: nat)
    requires pos <= |t|
    ensures HexRun(t[pos..], j)
  {
    j := 0;
    while j < 4 && pos + j < |t| && Hexadecimal(t[pos + j])
      invariant j <= 4 && pos + j <= |t| && forall k :: 0 <= k < j ==> Hexadecimal(t[pos..][k])
    {
      j := j + 1;
    }
  }

  lemma RunBounds(t: seq<uint8>, j: nat)
    requires HexRun(t, j)
    ensures j <= |t| && forall k :: 0 <= k < j ==> t[k] != COLON
  {
  }

  lemma EmptyTail(i: nat)
    ensures Tail([], i) <==> i <= 8
  {
  }

  lemma TailIsLeft(t: seq<uint8>, i: nat, next: uint8)
    ensures Left(t, i, true, next) == Tail(t, i)
  {
  }

  /** Behind a span that no colon follows, exactly the addresses of RFC 4291; behind one that a
      colon follows, also what the colon cuts off. */
  method IsValidIpv6(t: seq<uint8>, next: uint8) returns (ok: bool)
    ensures ok == (Ipv6(t) || (|t| >= 2 && CutOff(t, 0, next)))
  {
    hide Left, HexRun, Ipv4, Tail;
    ghost var want := Ipv6(t) || (|t| >= 2 && CutOff(t, 0, next));
    Start(t, next);
    hide Ipv6, CutOff;
    var pos, seenColon := 0, false;
    if |t| < 2 {
      return false;
    }
    if t[pos] == COLON {
      pos := pos + 1;
      if t[pos] != COLON {
        return false;
      }
    }
    if t[|t| - 1] == COLON && t[|t| - 2] != COLON {
      return false;
    }
    var i := 0;
    assert t[0..] == t;
    while pos < |t|
      invariant 0 <= i <= 7 && 0 <= pos <= |t| + 1
      invariant want == if pos < |t| then Left(t[pos..], i, seenColon, next) else true
      decreases |t| + 1 - pos
    {
      ghost var rest := t[pos..];
      if t[pos] == COLON && !seenColon {
        LeftAtColon(rest, i, next);
        seenColon := true;
        pos := pos + 1;
        assert rest[1..] == t[pos..];
        if pos == |t| {
          EmptyTail(i + 1);
          assert rest[1..] == [] && want;
          break;
        }
        if i == 7 {
          return false;
        }
        TailIsLeft(rest[1..], i + 1, next);
        i := i + 1;
        continue;
      }
      var j := CountHex(t, pos);
      RunBounds(rest, j);
      if j == 0 || j == |rest| || (rest[j] != COLON && rest[j] != DOT) {
        LeftAtEnd(rest, i, seenColon, next, j);
      }
      if j == 0 {
        return false;
      }
      if pos + j == |t| && (seenColon || i == 7) {
        assert want;
        break;
      }
      if j < |rest| && rest[j] == COLON && j < |rest| - 1 {
        LeftAfterGroup(rest, i, seenColon, next, j);
      } else if j < |rest| && rest[j] == DOT {
        LeftAtDot(rest, i, seenColon, next, j);
      }
      if i == 7 {
        return false;
      }
      if At(t, next, pos + j) != COLON {
        if At(t, next, pos + j) != DOT || (i < 6 && !seenColon) {
          return false;
        }
        if Ipv4(rest) {
          QuadRun(rest, j);
        }
        ok := IsValidIpv4(t[pos..], next);
        return;
      }
      pos := pos + j + 1;
      i := i + 1;
    }
    ok := true;
  }

  /** The two differ on `1:2` in front of a colon. */
  lemma CutOffIsNoAddress()
    ensures var t := [49, COLON, 50]; CutOff(t, 0, COLON) && !Ipv6(t)
  {
    hide Units, Ahead;
    var t: seq<uint8> := [49, COLON, 50];
    assert t[..1] == [49] && t[2..] == [50];
    GroupsOne(t[2..]);
    GroupsCons(t, 1, 1);
    if Units(t, 8) {
      UnitsShape(t, 8);
    }
    forall k: nat, l: nat, r: nat ensures !Elided(t, 0, k, l, r) {
    }
  }
}
