/** The branch-free coders of tunnel/tools/wireguard-tools/src/encoding.c and
    tunnel/src/main/java/com/wireguard/crypto/Key.java, against the table. Both compute in 32-bit
    words; they differ in the shift (arithmetic in C, logical in Java) and in what a character is
    (one byte, signed or not, against 16 bits). */
module KeyCodecs {
  import opened Wrappers
  import opened KeyText

  // ---- Words ----

  function ShiftRight8(java: bool, x: bv32): bv32 {
    if !java && x >= 0x80000000 then (x >> 8) | 0xff000000 else x >> 8
  }

  /** A byte as an int, with or without its sign. */
  function Promote(signed: bool, b: bv8): bv32 {
    if signed && b >= 128 then (b as bv32) | 0xffffff00 else b as bv32
  }

  // ---- One character ----

  function EncodeChar(java: bool, v: bv32): bv8 {
    ((v + 65
      + (ShiftRight8(java, 25 - v) & 6)
      - (ShiftRight8(java, 51 - v) & 75)
      - (ShiftRight8(java, 61 - v) & 15)
      + (ShiftRight8(java, 62 - v) & 3)) & 255) as bv8
  }

  function DecodeChar(java: bool, c: bv32): bv32 {
    0xffffffff
    + (ShiftRight8(java, (64 - c) & (c - 91)) & (c - 64))
    + (ShiftRight8(java, (96 - c) & (c - 123)) & (c - 70))
    + (ShiftRight8(java, (47 - c) & (c - 58)) & (c + 5))
    + (ShiftRight8(java, (42 - c) & (c - 44)) & 63)
    + (ShiftRight8(java, (46 - c) & (c - 48)) & 64)
  }

  lemma EncodeCharIsSymbol(java: bool, v: bv8)
    requires v < 64
    ensures EncodeChar(java, v as bv32) == Symbol(v)
  {
  }

  /** In C, whether char is signed or not. */
  lemma DecodeCharC(signed: bool, c: bv8)
    ensures DecodeChar(false, Promote(signed, c)) == if InAlphabet(c) then Value(c) as bv32 else 0xffffffff
  {
    hide DecodeChar;
    if signed && c >= 128 {
      DecodeNegative(Promote(signed, c));
    } else {
      DecodeUnsigned(c);
    }
  }

  lemma DecodeUnsigned(c: bv8)
    ensures DecodeChar(false, c as bv32) == if InAlphabet(c) then Value(c) as bv32 else 0xffffffff
  {
  }

  lemma DecodeNegative(c: bv32)
    requires c >= 0xffffff80
    ensures DecodeChar(false, c) == 0xffffffff
  {
  }

  /** The low byte of a Java character. */
  function NarrowChar(c: bv16): bv8 { (c & 255) as bv8 }

  /** The bits below the lowest bit of the high byte: the ones the masks leave. All of them, if
      the high byte is zero. */
  function Left(c: bv16): bv32 {
    var h := (c >> 8) as bv32;
    (h & (0 - h)) - 1
  }

  /** The characters Java's masks let pass, and the value each passes for. */
  predicate Passes(c: bv16) { InAlphabet(NarrowChar(c)) && (Value(NarrowChar(c)) as bv32 + 1) & Left(c) != 0 }

  function PassesFor(c: bv16): bv8 { ((((Value(NarrowChar(c)) as bv32 + 1) & Left(c)) - 1) & 255) as bv8 }

  lemma DecodeCharJava(c: bv16)
    ensures DecodeChar(true, c as bv32) == if Passes(c) then PassesFor(c) as bv32 else 0xffffffff
  {
  }

  lemma PassesForRange(c: bv16)
    requires Passes(c)
    ensures PassesFor(c) < 64
  {
  }

  /** Below 256 exactly the alphabet passes, each character for itself. Above, only a character
      whose low byte is in the alphabet, and never for more than that byte. */
  lemma PassesWhat(c: bv16)
    ensures c < 256 ==> (Passes(c) <==> InAlphabet(NarrowChar(c)))
    ensures c < 256 && Passes(c) ==> PassesFor(c) == Value(NarrowChar(c))
    ensures Passes(c) ==> InAlphabet(NarrowChar(c)) && PassesFor(c) <= Value(NarrowChar(c))
  {
  }

  /** No odd page passes at all; U+022B passes for `A`. */
  lemma StrayCharacter(c: bv16)
    ensures (c >> 8) & 1 == 1 ==> !Passes(c)
    ensures Passes(0x22b) && PassesFor(0x22b) == Value(65)
  {
  }

  // ---- Four characters ----

  function Combine(p: bv32, q: bv32, r: bv32, s: bv32): bv32 { (p << 18) | (q << 12) | (r << 6) | s }

  predicate Code(v: bv32) { v < 64 || v == 0xffffffff }

  /** The sign bit tells whether some character was bad; if none was, the group is there. */
  lemma CombineCodes(p: bv32, q: bv32, r: bv32, s: bv32)
    requires Code(p) && Code(q) && Code(r) && Code(s)
    ensures Combine(p, q, r, s) >> 31 <= 1
    ensures Combine(p, q, r, s) >> 31 == 0 <==> p < 64 && q < 64 && r < 64 && s < 64
  {
  }

  function ReadChar(v: bv32): bv8 { if v < 64 then Symbol(v as bv8) else 0 }

  /** What was read, as text; a byte outside the alphabet where nothing was recognized. */
  function Read(codes: seq<bv32>): (s: Bits)
    requires |codes| == 43
    ensures |s| == 44
  {
    seq(44, k requires 0 <= k < 44 => if k == 43 then 61 else ReadChar(codes[k]))
  }

  lemma ReadValue(codes: seq<bv32>, k: nat)
    requires |codes| == 43 && k < 43
    ensures InAlphabet(Read(codes)[k]) <==> codes[k] < 64
    ensures codes[k] < 64 ==> Value(Read(codes)[k]) as bv32 == codes[k]
  {
    hide Symbol, Value, InAlphabet;
    if codes[k] < 64 {
      ValueOfSymbol(codes[k] as bv8);
      NarrowCode(codes[k]);
    }
    NoSymbol();
  }

  lemma NoSymbol()
    ensures !InAlphabet(0)
  {
  }

  lemma NarrowCode(v: bv32)
    requires v < 64
    ensures (v as bv8) as bv32 == v && v as bv8 < 64
  {
  }

  lemma ReadGroup(codes: seq<bv32>, i: nat)
    requires |codes| == 43 && i <= 10 && codes[4 * i] < 64 && codes[4 * i + 1] < 64 && codes[4 * i + 2] < 64
    requires i < 10 ==> codes[4 * i + 3] < 64
    ensures TextGroup(Read(codes), i)
         == Combine(codes[4 * i], codes[4 * i + 1], codes[4 * i + 2], if i < 10 then codes[4 * i + 3] else 0)
  {
    hide Symbol, Value, InAlphabet, Read, Group4, Combine;
    var s := Read(codes);
    ReadValue(codes, 4 * i);
    ReadValue(codes, 4 * i + 1);
    ReadValue(codes, 4 * i + 2);
    if i < 10 {
      ReadValue(codes, 4 * i + 3);
      CombineIsGroup(Value(s[4 * i]), Value(s[4 * i + 1]), Value(s[4 * i + 2]), Value(s[4 * i + 3]));
    } else {
      CombineIsGroup(Value(s[4 * i]), Value(s[4 * i + 1]), Value(s[4 * i + 2]), 0);
    }
  }

  lemma CombineIsGroup(p: bv8, q: bv8, r: bv8, s: bv8)
    ensures Group4(p, q, r, s) == Combine(p as bv32, q as bv32, r as bv32, s as bv32)
  {
  }

  lemma Accumulate(ret: bv32, val: bv32)
    ensures ret | (val >> 31) == 0 <==> ret == 0 && val >> 31 == 0
    ensures ret | ((val >> 31) | (val & 0xff)) == 0 <==> ret == 0 && val >> 31 == 0 && val & 0xff == 0
    ensures ret < 256 ==> ret | ((val >> 31) | (val & 0xff)) < 256 && ret | (val >> 31) < 256
  {
  }

  /** The loop over the groups, with the accumulated error. The last character of the last group
      is taken to be `A`. */
  method DecodeCodes(codes: seq<bv32>) returns (ret: bv32, key: Bits)
    requires |codes| == 43 && forall k :: 0 <= k < 43 ==> Code(codes[k])
    ensures |key| == 32 && ret < 256
    ensures ret == 0 <==> IsKeyText(Read(codes))
    ensures ret == 0 ==> key == FromText(Read(codes))
  {
    hide Combine, Octet, FromText, Read, TextGroup, IsKeyText;
    ghost var want := FromText(Read(codes));
    ret, key := 0, [];
    var i := 0;
    while i < 10
      invariant 0 <= i <= 10 && |key| == 3 * i && ret < 256
      invariant ret == 0 <==> forall k :: 0 <= k < 4 * i ==> codes[k] < 64
      invariant ret == 0 ==> forall j :: 0 <= j < 3 * i ==> key[j] == want[j]
    {
      var val := Combine(codes[4 * i], codes[4 * i + 1], codes[4 * i + 2], codes[4 * i + 3]);
      CombineCodes(codes[4 * i], codes[4 * i + 1], codes[4 * i + 2], codes[4 * i + 3]);
      Accumulate(ret, val);
      if ret | (val >> 31) == 0 {
        ReadGroup(codes, i);
        KeyAt(Read(codes), i);
      }
      ret := ret | (val >> 31);
      key := key + [Octet(val, 0), Octet(val, 1), Octet(val, 2)];
      i := i + 1;
    }
    var val := Combine(codes[40], codes[41], codes[42], 0);
    CombineCodes(codes[40], codes[41], codes[42], 0);
    Accumulate(ret, val);
    LastCodes(codes, val);
    if ret | ((val >> 31) | (val & 0xff)) == 0 {
      ReadGroup(codes, 10);
      KeyAt(Read(codes), 10);
    }
    ret := ret | ((val >> 31) | (val & 0xff));
    key := key + [Octet(val, 0), Octet(val, 1)];
  }

  lemma LastCodes(codes: seq<bv32>, val: bv32)
    requires |codes| == 43 && val == Combine(codes[40], codes[41], codes[42], 0)
    ensures IsKeyText(Read(codes)) <==> (forall k :: 0 <= k < 43 ==> codes[k] < 64) && val & 0xff == 0
  {
    hide Symbol, Value, InAlphabet, Read, Combine;
    forall k | 0 <= k < 43 ensures InAlphabet(Read(codes)[k]) <==> codes[k] < 64 {
      ReadValue(codes, k);
    }
    if codes[40] < 64 && codes[41] < 64 && codes[42] < 64 {
      ReadValue(codes, 42);
      LowByte(codes[40], codes[41], codes[42], Value(Read(codes)[42]));
    }
    assert Read(codes)[43] == 61 by {
      PadChar(codes);
    }
  }

  lemma PadChar(codes: seq<bv32>)
    requires |codes| == 43
    ensures Read(codes)[43] == 61
  {
  }

  lemma LowByte(p: bv32, q: bv32, r: bv32, v: bv8)
    requires p < 64 && q < 64 && r < 64 && v as bv32 == r
    ensures Combine(p, q, r, 0) & 0xff == 0 <==> v & 3 == 0
  {
  }

  // ---- key_from_base64 and fromBase64 ----

  /** 1 & ((ret - 1) >> 8) tests for zero. */
  lemma ZeroTest(ret: bv32)
    requires ret < 256
    ensures ShiftRight8(false, ret - 1) & 1 == 1 <==> ret == 0
  {
  }

  method KeyFromBase64(signed: bool, base64: Bits) returns (ok: bool, key: Bits)
    ensures ok <==> IsKeyText(base64)
    ensures ok ==> key == FromText(base64)
  {
    hide Read, FromText, InAlphabet, Value, DecodeChar, Promote;
    if |base64| != 44 || base64[43] != 61 {
      return false, [];
    }
    var codes := seq(43, k requires 0 <= k < 43 => DecodeChar(false, Promote(signed, base64[k])));
    forall k | 0 <= k < 43
      ensures Code(codes[k]) && ReadChar(codes[k]) == (if InAlphabet(base64[k]) then base64[k] else 0)
    {
      DecodeCharC(signed, base64[k]);
      ReadBack(base64[k]);
    }
    NoSymbol();
    ReadSame(codes, base64);
    var ret;
    ret, key := DecodeCodes(codes);
    ZeroTest(ret);
    ok := ShiftRight8(false, ret - 1) & 1 == 1;
  }

  lemma ReadBack(c: bv8)
    ensures InAlphabet(c) ==> Value(c) < 64 && ReadChar(Value(c) as bv32) == c
    ensures ReadChar(0xffffffff) == 0
  {
    if InAlphabet(c) {
      SymbolOfValue(c);
    }
  }

  lemma ReadSame(codes: seq<bv32>, s: Bits)
    requires |codes| == 43 && |s| == 44 && s[43] == 61 && !InAlphabet(0)
    requires forall k :: 0 <= k < 43 ==> ReadChar(codes[k]) == if InAlphabet(s[k]) then s[k] else 0
    ensures IsKeyText(s) <==> IsKeyText(Read(codes))
    ensures IsKeyText(s) ==> Read(codes) == s
  {
    hide InAlphabet, Value, ReadChar;
    var t := Read(codes);
    forall k | 0 <= k < 43 ensures InAlphabet(t[k]) <==> InAlphabet(s[k]) {
    }
    if forall k :: 0 <= k < 43 ==> InAlphabet(s[k]) {
      assert t == s;
    }
  }

  /** A Java string's characters, where they are below 256. */
  predicate Latin(str: seq<bv16>) { forall k :: 0 <= k < |str| ==> str[k] < 256 }

  function Narrow(str: seq<bv16>): (s: Bits)
    ensures |s| == |str|
  {
    seq(|str|, k requires 0 <= k < |str| => NarrowChar(str[k]))
  }

  function JavaCode(c: bv16): bv32 { DecodeChar(true, c as bv32) }

  /** What fromBase64 accepts, and the text it takes that for. */
  predicate JavaAccepts(str: seq<bv16>) {
    |str| == 44 && str[43] == 61 && PassesFor(str[42]) & 3 == 0 && forall k :: 0 <= k < 43 ==> Passes(str[k])
  }

  function TakenChar(c: bv16): bv8 { if Passes(c) then Symbol(PassesFor(c)) else 0 }

  function Taken(str: seq<bv16>): (s: Bits)
    requires |str| == 44
    ensures |s| == 44
  {
    seq(44, k requires 0 <= k < 44 => if k == 43 then 61 else TakenChar(str[k]))
  }

  method FromBase64(str: seq<bv16>) returns (ok: bool, key: Bits)
    ensures ok <==> JavaAccepts(str)
    ensures ok ==> key == FromText(Taken(str))
  {
    hide Read, FromText, IsKeyText, JavaCode, JavaAccepts, Taken;
    if |str| != 44 || str[43] != 61 {
      NotKeyLength(str);
      return false, [];
    }
    var codes := seq(43, k requires 0 <= k < 43 => JavaCode(str[k]));
    forall k | 0 <= k < 43 ensures Code(codes[k]) && ReadChar(codes[k]) == TakenChar(str[k]) {
      JavaReadsChar(str[k]);
    }
    TakenIsRead(codes, str);
    AcceptsTaken(str);
    var ret;
    ret, key := DecodeCodes(codes);
    ok := ret == 0;
  }

  lemma NotKeyLength(str: seq<bv16>)
    requires |str| != 44 || str[43] != 61
    ensures !JavaAccepts(str)
  {
  }

  lemma JavaReadsChar(c: bv16)
    ensures Code(JavaCode(c)) && ReadChar(JavaCode(c)) == TakenChar(c)
  {
    hide DecodeChar, Passes, PassesFor, Symbol;
    DecodeCharJava(c);
    if Passes(c) {
      PassesForRange(c);
      NarrowCode(PassesFor(c) as bv32);
    }
    WideCode(PassesFor(c));
  }

  lemma WideCode(v: bv8)
    ensures (v as bv32) as bv8 == v && (v < 64 <==> v as bv32 < 64)
  {
  }

  lemma TakenIsRead(codes: seq<bv32>, str: seq<bv16>)
    requires |codes| == 43 && |str| == 44 && forall k :: 0 <= k < 43 ==> ReadChar(codes[k]) == TakenChar(str[k])
    ensures Read(codes) == Taken(str)
  {
    hide ReadChar, TakenChar;
  }

  lemma TakenValue(c: bv16)
    ensures InAlphabet(TakenChar(c)) <==> Passes(c)
    ensures Passes(c) ==> Value(TakenChar(c)) == PassesFor(c)
  {
    hide Passes, PassesFor, Symbol, Value, InAlphabet;
    NoSymbol();
    if Passes(c) {
      PassesForRange(c);
      ValueOfSymbol(PassesFor(c));
    }
  }

  lemma AcceptsTaken(str: seq<bv16>)
    requires |str| == 44 && str[43] == 61
    ensures JavaAccepts(str) <==> IsKeyText(Taken(str))
  {
    hide Passes, PassesFor, InAlphabet, Value, TakenChar;
    forall k | 0 <= k < 43 ensures InAlphabet(Taken(str)[k]) <==> Passes(str[k]) {
      TakenValue(str[k]);
    }
    TakenValue(str[42]);
  }

  // ---- When Java and the table differ ----

  /** The key that section 4 of RFC 4648 gives a Java string, and the one fromBase64 gives it. */
  function TableKey(str: seq<bv16>): Option<Bits> {
    if Latin(str) && IsKeyText(Narrow(str)) then Some(FromText(Narrow(str))) else None
  }

  function JavaKey(str: seq<bv16>): Option<Bits> { if JavaAccepts(str) then Some(FromText(Taken(str))) else None }

  lemma EqualsSign(c: bv16)
    requires c < 256
    ensures c == 61 <==> NarrowChar(c) == 61
  {
  }

  lemma TakenLatin(c: bv16)
    requires c < 256
    ensures TakenChar(c) == if InAlphabet(NarrowChar(c)) then NarrowChar(c) else 0
  {
    hide Passes, PassesFor, Symbol, Value, InAlphabet, NarrowChar;
    PassesWhat(c);
    if Passes(c) {
      SymbolOfValue(NarrowChar(c));
    }
  }

  /** Java and C accept the same strings of characters below 256, and read the same key. */
  lemma JavaReads(str: seq<bv16>)
    requires Latin(str)
    ensures JavaAccepts(str) <==> IsKeyText(Narrow(str))
    ensures JavaAccepts(str) ==> Taken(str) == Narrow(str)
  {
    hide Passes, PassesFor, InAlphabet, Value, TakenChar, NarrowChar, Symbol;
    if |str| == 44 {
      EqualsSign(str[43]);
      forall k | 0 <= k < 43
        ensures Passes(str[k]) <==> InAlphabet(Narrow(str)[k])
        ensures Passes(str[k]) ==> PassesFor(str[k]) == Value(Narrow(str)[k]) && TakenChar(str[k]) == Narrow(str)[k]
      {
        PassesWhat(str[k]);
        TakenLatin(str[k]);
      }
    }
  }

  /** fromBase64 differs from the table exactly on the strings it accepts that have a character of
      256 or more; then the table has no key for the string. */
  lemma DiffersIffStray(str: seq<bv16>)
    ensures JavaKey(str) != TableKey(str) <==> JavaAccepts(str) && !Latin(str)
    ensures JavaKey(str) != TableKey(str) ==> JavaKey(str).Some? && TableKey(str).None?
  {
    hide JavaAccepts, IsKeyText, Taken, Narrow, FromText;
    if Latin(str) {
      JavaReads(str);
    }
  }

  /** There are such strings: forty-three times U+022B and an equals sign is the key of zeros. */
  lemma StrayKey()
    ensures var str := seq(43, _ => 0x22b as bv16) + [61];
      JavaKey(str) == JavaKey(seq(43, _ => 65 as bv16) + [61]) != None && TableKey(str).None?
  {
    hide Passes, PassesFor, FromText, Symbol;
    var str, plain := seq(43, _ => 0x22b as bv16) + [61], seq(43, _ => 65 as bv16) + [61];
    StrayCharacter(0x22b);
    PassesWhat(65);
    PlainA();
    assert str[0] == 0x22b && plain[0] == 65;
    assert Taken(str) == Taken(plain);
  }

  lemma PlainA()
    ensures NarrowChar(65) == 65 && InAlphabet(65) && Value(65) == 0
  {
  }

  // ---- key_to_base64 and toBase64 ----

  /** The m-th six-bit input; Java's bytes are signed. */
  function Input(java: bool, a: bv8, b: bv8, c: bv8, m: nat): bv32 {
    (if m == 0 then Promote(java, a) >> 2
     else if m == 1 then (Promote(java, a) << 4) | ((b as bv32) >> 4)
     else if m == 2 then (Promote(java, b) << 2) | ((c as bv32) >> 6)
     else Promote(java, c)) & 63
  }

  lemma InputIsSextet(java: bool, a: bv8, b: bv8, c: bv8, m: nat)
    requires m < 4
    ensures Input(java, a, b, c, m) == Sextet(Group3(a, b, c), m) as bv32
  {
    hide Input, Sextet, Group3;
    if m == 0 {
      Input0(java, a, b, c);
    } else if m == 1 {
      Input1(java, a, b, c);
    } else if m == 2 {
      Input2(java, a, b, c);
    } else {
      Input3(java, a, b, c);
    }
  }

  lemma Input0(java: bool, a: bv8, b: bv8, c: bv8)
    ensures Input(java, a, b, c, 0) == Sextet(Group3(a, b, c), 0) as bv32
  {
  }

  lemma Input1(java: bool, a: bv8, b: bv8, c: bv8)
    ensures Input(java, a, b, c, 1) == Sextet(Group3(a, b, c), 1) as bv32
  {
  }

  lemma Input2(java: bool, a: bv8, b: bv8, c: bv8)
    ensures Input(java, a, b, c, 2) == Sextet(Group3(a, b, c), 2) as bv32
  {
  }

  lemma Input3(java: bool, a: bv8, b: bv8, c: bv8)
    ensures Input(java, a, b, c, 3) == Sextet(Group3(a, b, c), 3) as bv32
  {
  }

  lemma EncodedInput(java: bool, a: bv8, b: bv8, c: bv8, m: nat)
    requires m < 4
    ensures EncodeChar(java, Input(java, a, b, c, m)) == Symbol(Sextet(Group3(a, b, c), m))
  {
    hide Symbol, Sextet, Group3, Input, EncodeChar;
    InputIsSextet(java, a, b, c, m);
    SextetRange(Group3(a, b, c), m);
    EncodeCharIsSymbol(java, Sextet(Group3(a, b, c), m));
  }

  method EncodeBase64(java: bool, a: bv8, b: bv8, c: bv8) returns (dest: Bits)
    ensures var n := Group3(a, b, c);
      dest == [Symbol(Sextet(n, 0)), Symbol(Sextet(n, 1)), Symbol(Sextet(n, 2)), Symbol(Sextet(n, 3))]
  {
    hide Symbol, Sextet, Group3, Input, EncodeChar;
    dest := [];
    for i := 0 to 4
      invariant |dest| == i && forall m :: 0 <= m < i ==> dest[m] == Symbol(Sextet(Group3(a, b, c), m))
    {
      EncodedInput(java, a, b, c, i);
      dest := dest + [EncodeChar(java, Input(java, a, b, c, i))];
    }
  }

  /** Both encoders, up to C's terminating zero. */
  method KeyToBase64(java: bool, key: Bits) returns (base64: Bits)
    requires |key| == 32
    ensures base64 == ToText(key)
  {
    hide Symbol, Sextet, Group3, ToText;
    base64 := [];
    var i := 0;
    while i < 10
      invariant 0 <= i <= 10 && |base64| == 4 * i && forall k :: 0 <= k < 4 * i ==> base64[k] == ToText(key)[k]
    {
      var dest := EncodeBase64(java, key[3 * i], key[3 * i + 1], key[3 * i + 2]);
      TextAt(key, i);
      base64 := base64 + dest;
      i := i + 1;
    }
    var dest := EncodeBase64(java, key[30], key[31], 0);
    TextAt(key, 10);
    base64 := base64 + dest;
    base64 := base64[43 := 61];
  }

  // ---- is_valid_key of contrib/highlighter/highlighter.c ----

  predicate LastSymbol(c: bv8) {
    || c == 65 || c == 69 || c == 73 || c == 77 || c == 81 || c == 85 || c == 89 || c == 99 || c == 103
    || c == 107 || c == 111 || c == 115 || c == 119 || c == 52 || c == 56 || c == 48
  }

  predicate KeySymbol(c: bv8) { 48 <= c <= 57 || 97 <= c | 32 <= 122 || c == 47 || c == 43 }

  lemma KeySymbols(c: bv8)
    ensures KeySymbol(c) <==> InAlphabet(c)
    ensures LastSymbol(c) <==> InAlphabet(c) && Value(c) & 3 == 0
  {
  }

  /** The highlighter accepts what the decoders accept. */
  method IsValidKey(s: Bits) returns (ok: bool)
    ensures ok <==> IsKeyText(s)
  {
    hide InAlphabet, Value, KeySymbol, LastSymbol;
    if |s| != 44 || s[43] != 61 {
      return false;
    }
    var i := 0;
    while i < 42
      invariant 0 <= i <= 42 && forall k :: 0 <= k < i ==> InAlphabet(s[k])
    {
      KeySymbols(s[i]);
      if !KeySymbol(s[i]) {
        return false;
      }
      i := i + 1;
    }
    KeySymbols(s[42]);
    ok := LastSymbol(s[42]);
  }
}
