/** The hexadecimal halves of tunnel/tools/wireguard-tools/src/encoding.c and
    tunnel/src/main/java/com/wireguard/crypto/Key.java. */
module HexCodecs {
  import opened Wrappers
  import opened KeyText
  import opened KeyCodecs

  // ---- By table ----

  function HexDigit(v: bv8): bv8 { if v < 10 then v + 48 else v + 87 }

  predicate IsHexDigit(c: bv8) { 48 <= c <= 57 || 65 <= c <= 70 || 97 <= c <= 102 }

  function HexValue(c: bv8): bv8 { if c < 65 then c - 48 else if c < 97 then c - 55 else c - 87 }

  function HighNibble(b: bv8): bv8 { b >> 4 }

  function LowNibble(b: bv8): bv8 { b & 15 }

  function Byte(high: bv8, low: bv8): bv8 { (high << 4) | low }

  function ToHex(key: Bits): (s: Bits)
    requires |key| == 32
    ensures |s| == 64
  {
    seq(64, k requires 0 <= k < 64 => HexDigit(if k % 2 == 0 then HighNibble(key[k / 2]) else LowNibble(key[k / 2])))
  }

  predicate IsHex(s: Bits) { |s| == 64 && forall k :: 0 <= k < 64 ==> IsHexDigit(s[k]) }

  function FromHex(s: Bits): (key: Bits)
    requires |s| == 64
    ensures |key| == 32
  {
    seq(32, j requires 0 <= j < 32 => Byte(HexValue(s[2 * j]), HexValue(s[2 * j + 1])))
  }

  /** Letters in lower case. */
  function LowerCase(c: bv8): bv8 { if 65 <= c <= 70 then c + 32 else c }

  lemma NibbleRoundTrip(b: bv8)
    ensures IsHexDigit(HexDigit(HighNibble(b))) && IsHexDigit(HexDigit(LowNibble(b)))
    ensures Byte(HexValue(HexDigit(HighNibble(b))), HexValue(HexDigit(LowNibble(b)))) == b
  {
  }

  lemma DigitRoundTrip(c: bv8, d: bv8)
    requires IsHexDigit(c) && IsHexDigit(d)
    ensures var b := Byte(HexValue(c), HexValue(d));
      HexDigit(HighNibble(b)) == LowerCase(c) && HexDigit(LowNibble(b)) == LowerCase(d)
  {
  }

  /** Decoding undoes encoding; encoding undoes decoding up to the case of letters. */
  lemma DecodeEncodeHex(key: Bits)
    requires |key| == 32
    ensures IsHex(ToHex(key)) && FromHex(ToHex(key)) == key
  {
    hide HexDigit, HexValue, Byte, IsHexDigit, HighNibble, LowNibble;
    var s := ToHex(key);
    forall k | 0 <= k < 64 ensures IsHexDigit(s[k]) {
      NibbleRoundTrip(key[k / 2]);
    }
    forall j | 0 <= j < 32 ensures FromHex(s)[j] == key[j] {
      HexAt(key, j);
      NibbleRoundTrip(key[j]);
    }
  }

  lemma HexAt(key: Bits, j: nat)
    requires |key| == 32 && j < 32
    ensures ToHex(key)[2 * j] == HexDigit(HighNibble(key[j])) && ToHex(key)[2 * j + 1] == HexDigit(LowNibble(key[j]))
  {
    hide HexDigit, HighNibble, LowNibble;
    assert (2 * j) / 2 == j && (2 * j + 1) / 2 == j;
  }

  lemma EncodeDecodeHex(s: Bits)
    requires IsHex(s)
    ensures forall k :: 0 <= k < 64 ==> ToHex(FromHex(s))[k] == LowerCase(s[k])
  {
    hide HexDigit, HexValue, Byte, IsHexDigit, HighNibble, LowNibble, LowerCase, ToHex;
    forall k | 0 <= k < 64 ensures ToHex(FromHex(s))[k] == LowerCase(s[k]) {
      var j := k / 2;
      HexAt(FromHex(s), j);
      DigitRoundTrip(s[2 * j], s[2 * j + 1]);
      assert k == 2 * j || k == 2 * j + 1;
    }
  }

  // ---- Without branches ----

  /** 87 + v + (((v - 10) >> 8) & ~38), in an unsigned word in C and a signed one in Java. */
  function EncodeNibble(java: bool, v: bv32): bv8 {
    ((87 + v + (ShiftRight8(!java, v - 10) & 0xffffffd9)) & 255) as bv8
  }

  lemma EncodeNibbleIsDigit(java: bool, v: bv8)
    requires v < 16
    ensures EncodeNibble(java, v as bv32) == HexDigit(v)
  {
  }

  method KeyToHex(java: bool, key: Bits) returns (hex: Bits)
    requires |key| == 32
    ensures hex == ToHex(key)
  {
    hide EncodeNibble, HexDigit, HighNibble, LowNibble, ToHex;
    hex := [];
    var i := 0;
    while i < 32
      invariant 0 <= i <= 32 && |hex| == 2 * i && forall k :: 0 <= k < 2 * i ==> hex[k] == ToHex(key)[k]
    {
      Nibbles(key[i]);
      EncodeNibbleIsDigit(java, HighNibble(key[i]));
      EncodeNibbleIsDigit(java, LowNibble(key[i]));
      HexAt(key, i);
      hex := hex + [EncodeNibble(java, HighNibble(key[i]) as bv32), EncodeNibble(java, LowNibble(key[i]) as bv32)];
      i := i + 1;
    }
  }

  lemma Nibbles(b: bv8)
    ensures HighNibble(b) < 16 && LowNibble(b) < 16
  {
  }

  /** c_alpha; a byte in C and an int in Java. */
  function AlphaPart(java: bool, c: bv32): bv32 {
    if java then (c & 0xffffffdf) - 55 else ((c & 0xffffffdf) - 55) & 255
  }

  function NumberMask(c: bv32): bv32 { (((c ^ 48) - 10) >> 8) & 255 }

  function AlphaMask(java: bool, c: bv32): bv32 {
    (((AlphaPart(java, c) - 10) ^ (AlphaPart(java, c) - 16)) >> 8) & 255
  }

  /** What is or-ed into ret, and c_val. */
  function NibbleError(java: bool, c: bv32): bv32 {
    ShiftRight8(true, (NumberMask(c) | AlphaMask(java, c)) - 1) & if java then 0xffffffff else 255
  }

  function NibbleValue(java: bool, c: bv32): bv32 {
    (NumberMask(c) & (c ^ 48)) | (AlphaMask(java, c) & AlphaPart(java, c))
  }

  lemma NibbleDecodes(java: bool, c: bv8)
    ensures NibbleError(java, c as bv32) == 0 <==> IsHexDigit(c)
    ensures IsHexDigit(c) ==> NibbleValue(java, c as bv32) == HexValue(c) as bv32
  {
  }

  function Packed(high: bv32, low: bv32): bv8 { (((high * 16) | low) & 255) as bv8 }

  lemma PackedIsByte(a: bv8, b: bv8)
    ensures Packed(a as bv32, b as bv32) == Byte(a, b)
  {
  }

  /** Two characters: their errors, and the byte. */
  function PairError(c: bv8, d: bv8): bv32 { NibbleError(false, c as bv32) | NibbleError(false, d as bv32) }

  function PairByte(c: bv8, d: bv8): bv8 { Packed(NibbleValue(false, c as bv32), NibbleValue(false, d as bv32)) }

  lemma PairDecodes(c: bv8, d: bv8, ret: bv32)
    ensures ret | PairError(c, d) == 0 <==> ret == 0 && IsHexDigit(c) && IsHexDigit(d)
    ensures IsHexDigit(c) && IsHexDigit(d) ==> PairByte(c, d) == Byte(HexValue(c), HexValue(d))
  {
    hide NibbleError, NibbleValue, Byte, Packed, HexValue, IsHexDigit;
    NibbleDecodes(false, c);
    NibbleDecodes(false, d);
    OrZero(ret, NibbleError(false, c as bv32), NibbleError(false, d as bv32));
    PackedIsByte(HexValue(c), HexValue(d));
  }

  lemma OrZero(ret: bv32, a: bv32, b: bv32)
    ensures ret | (a | b) == 0 <==> ret == 0 && a == 0 && b == 0
  {
  }

  // ---- key_from_hex ----

  method KeyFromHex(hex: Bits) returns (ok: bool, key: Bits)
    ensures ok <==> IsHex(hex)
    ensures ok ==> key == FromHex(hex)
  {
    hide PairError, PairByte, Byte, HexValue, IsHexDigit, FromHex;
    if |hex| != 64 {
      return false, [];
    }
    var ret: bv32 := 0;
    key := [];
    var i := 0;
    while i < 32
      invariant 0 <= i <= 32 && |key| == i
      invariant ret == 0 <==> forall k :: 0 <= k < 2 * i ==> IsHexDigit(hex[k])
      invariant ret == 0 ==> forall j :: 0 <= j < i ==> key[j] == FromHex(hex)[j]
    {
      PairDecodes(hex[2 * i], hex[2 * i + 1], ret);
      HexByte(hex, i);
      ret := ret | PairError(hex[2 * i], hex[2 * i + 1]);
      key := key + [PairByte(hex[2 * i], hex[2 * i + 1])];
      i := i + 1;
    }
    ok := ret == 0;
  }

  lemma HexByte(s: Bits, j: nat)
    requires |s| == 64 && j < 32
    ensures FromHex(s)[j] == Byte(HexValue(s[2 * j]), HexValue(s[2 * j + 1]))
  {
  }

  // ---- fromHex: characters of 16 bits ----

  predicate IsDecimal(c: bv8) { 48 <= c <= 57 }

  /** The characters Java's masks let pass: from 256 on, all but U+0130 to U+0139. */
  predicate PassesHex(c: bv16) { if c < 256 then IsHexDigit(NarrowChar(c)) else !(0x130 <= c <= 0x139) }

  /** What such a character is read as: its low byte the way a digit is read, through the mask
      that its high byte makes. */
  function HexPassesFor(c: bv16): bv8 {
    var h, l := (c >> 8) as bv8, NarrowChar(c);
    if IsDecimal(l) then (h - 1) & (l - 48)
    else if IsHexDigit(l) then (h & (l ^ 48)) | ((h ^ (h - 1)) & HexValue(l))
    else h & (l ^ 48)
  }

  lemma NibbleDecodesJava(c: bv16)
    ensures NibbleError(true, c as bv32) == 0 <==> PassesHex(c)
    ensures PassesHex(c) ==> NibbleValue(true, c as bv32) == HexPassesFor(c) as bv32
  {
  }

  lemma PassesHexBelow(c: bv16)
    requires c < 256
    ensures PassesHex(c) <==> IsHexDigit(NarrowChar(c))
    ensures PassesHex(c) ==> HexPassesFor(c) == HexValue(NarrowChar(c))
  {
  }

  predicate JavaAcceptsHex(str: seq<bv16>) { |str| == 64 && forall k :: 0 <= k < 64 ==> PassesHex(str[k]) }

  function HexTaken(str: seq<bv16>): (key: Bits)
    requires |str| == 64
    ensures |key| == 32
  {
    seq(32, j requires 0 <= j < 32 => Byte(HexPassesFor(str[2 * j]), HexPassesFor(str[2 * j + 1])))
  }

  function JavaPairError(c: bv16, d: bv16): bv32 { NibbleError(true, c as bv32) | NibbleError(true, d as bv32) }

  function JavaPairByte(c: bv16, d: bv16): bv8 {
    Packed(NibbleValue(true, c as bv32), NibbleValue(true, d as bv32))
  }

  lemma PairDecodesJava(c: bv16, d: bv16, ret: bv32)
    ensures ret | JavaPairError(c, d) == 0 <==> ret == 0 && PassesHex(c) && PassesHex(d)
    ensures PassesHex(c) && PassesHex(d) ==> JavaPairByte(c, d) == Byte(HexPassesFor(c), HexPassesFor(d))
  {
    hide NibbleError, NibbleValue, Byte, Packed, HexPassesFor, PassesHex;
    NibbleDecodesJava(c);
    NibbleDecodesJava(d);
    OrZero(ret, NibbleError(true, c as bv32), NibbleError(true, d as bv32));
    PackedIsByte(HexPassesFor(c), HexPassesFor(d));
  }

  method FromHexString(str: seq<bv16>) returns (ok: bool, key: Bits)
    ensures ok <==> JavaAcceptsHex(str)
    ensures ok ==> key == HexTaken(str)
  {
    hide JavaPairError, JavaPairByte, Byte, HexPassesFor, PassesHex, HexTaken;
    if |str| != 64 {
      return false, [];
    }
    var ret: bv32 := 0;
    key := [];
    var i := 0;
    while i < 32
      invariant 0 <= i <= 32 && |key| == i
      invariant ret == 0 <==> forall k :: 0 <= k < 2 * i ==> PassesHex(str[k])
      invariant ret == 0 ==> forall j :: 0 <= j < i ==> key[j] == HexTaken(str)[j]
    {
      PairDecodesJava(str[2 * i], str[2 * i + 1], ret);
      TakenByte(str, i);
      ret := ret | JavaPairError(str[2 * i], str[2 * i + 1]);
      key := key + [JavaPairByte(str[2 * i], str[2 * i + 1])];
      i := i + 1;
    }
    ok := ret == 0;
  }

  lemma TakenByte(str: seq<bv16>, j: nat)
    requires |str| == 64 && j < 32
    ensures HexTaken(str)[j] == Byte(HexPassesFor(str[2 * j]), HexPassesFor(str[2 * j + 1]))
  {
  }

  // ---- When Java and the table differ ----

  function TableHexKey(str: seq<bv16>): Option<Bits> {
    if Latin(str) && IsHex(Narrow(str)) then Some(FromHex(Narrow(str))) else None
  }

  function JavaHexKey(str: seq<bv16>): Option<Bits> { if JavaAcceptsHex(str) then Some(HexTaken(str)) else None }

  /** Below 256 Java reads what C reads. */
  lemma JavaReadsHex(str: seq<bv16>)
    requires Latin(str)
    ensures JavaAcceptsHex(str) <==> IsHex(Narrow(str))
    ensures JavaAcceptsHex(str) ==> HexTaken(str) == FromHex(Narrow(str))
  {
    hide PassesHex, HexPassesFor, IsHexDigit, HexValue, NarrowChar, Byte;
    forall k | 0 <= k < |str|
      ensures PassesHex(str[k]) <==> IsHexDigit(Narrow(str)[k])
      ensures PassesHex(str[k]) ==> HexPassesFor(str[k]) == HexValue(Narrow(str)[k])
    {
      PassesHexBelow(str[k]);
    }
  }

  /** fromHex differs from the table exactly on the strings of 64 characters that pass and of which
      one is 256 or more; then the table has no key for the string. */
  lemma HexDiffersIffStray(str: seq<bv16>)
    ensures JavaHexKey(str) != TableHexKey(str) <==> JavaAcceptsHex(str) && !Latin(str)
    ensures JavaHexKey(str) != TableHexKey(str) ==> JavaHexKey(str).Some? && TableHexKey(str).None?
  {
    hide JavaAcceptsHex, IsHex, HexTaken, Narrow, FromHex;
    if Latin(str) {
      JavaReadsHex(str);
    }
  }

  /** In particular: 64 characters of 256 or more are a key unless one of them is U+0130 to U+0139. */
  lemma StrayHexKey(str: seq<bv16>)
    requires |str| == 64 && forall k :: 0 <= k < 64 ==> str[k] >= 256
    ensures JavaHexKey(str) != TableHexKey(str) <==> forall k :: 0 <= k < 64 ==> !(0x130 <= str[k] <= 0x139)
  {
    hide HexTaken, FromHex, Narrow;
    assert str[0] >= 256;
    HexDiffersIffStray(str);
  }
}
