/** Keys as text: the base64 of section 4 of RFC 4648 by table, for 32-byte keys. Bytes and
    characters are bit-vectors here. */
module KeyText {
  type Bits = seq<bv8>

  // ---- The alphabet ----

  predicate InAlphabet(c: bv8) {
    65 <= c <= 90 || 97 <= c <= 122 || 48 <= c <= 57 || c == 43 || c == 47
  }

  /** The character for a six-bit value. */
  function Symbol(v: bv8): bv8 {
    if v < 26 then v + 65 else if v < 52 then v + 71 else if v < 62 then v - 4 else if v == 62 then 43 else 47
  }

  /** The value of a character, meaningful only in the alphabet. */
  function Value(c: bv8): bv8 {
    if c == 43 then 62 else if c == 47 then 63 else if c < 65 then c + 4 else if c < 97 then c - 65 else c - 71
  }

  lemma SymbolOfValue(c: bv8)
    requires InAlphabet(c)
    ensures Value(c) < 64 && Symbol(Value(c)) == c
  {
  }

  lemma ValueOfSymbol(v: bv8)
    requires v < 64
    ensures InAlphabet(Symbol(v)) && Value(Symbol(v)) == v
  {
  }

  // ---- Groups of 24 bits ----

  function Group3(a: bv8, b: bv8, c: bv8): bv32 { ((a as bv32) << 16) | ((b as bv32) << 8) | (c as bv32) }

  function Group4(p: bv8, q: bv8, r: bv8, s: bv8): bv32 {
    ((p as bv32) << 18) | ((q as bv32) << 12) | ((r as bv32) << 6) | (s as bv32)
  }

  /** The m-th sextet and the m-th byte of a group. */
  function Sextet(n: bv32, m: nat): bv8 {
    (if m == 0 then (n >> 18) & 63 else if m == 1 then (n >> 12) & 63 else if m == 2 then (n >> 6) & 63
     else n & 63) as bv8
  }

  function Octet(n: bv32, m: nat): bv8 {
    (if m == 0 then (n >> 16) & 255 else if m == 1 then (n >> 8) & 255 else n & 255) as bv8
  }

  lemma GroupOfOctets(a: bv8, b: bv8, c: bv8)
    ensures var n := Group3(a, b, c);
      n < 0x1000000 && Octet(n, 0) == a && Octet(n, 1) == b && Octet(n, 2) == c
  {
  }

  lemma SextetsOfGroup(n: bv32)
    requires n < 0x1000000
    ensures Sextet(n, 0) < 64 && Sextet(n, 1) < 64 && Sextet(n, 2) < 64 && Sextet(n, 3) < 64
    ensures Group4(Sextet(n, 0), Sextet(n, 1), Sextet(n, 2), Sextet(n, 3)) == n
  {
  }

  lemma GroupOfSextets(p: bv8, q: bv8, r: bv8, s: bv8)
    requires p < 64 && q < 64 && r < 64 && s < 64
    ensures var n := Group4(p, q, r, s);
      n < 0x1000000 && Sextet(n, 0) == p && Sextet(n, 1) == q && Sextet(n, 2) == r && Sextet(n, 3) == s
  {
  }

  lemma OctetsOfGroup(n: bv32)
    requires n < 0x1000000
    ensures Group3(Octet(n, 0), Octet(n, 1), Octet(n, 2)) == n
  {
  }

  /** The low byte of the last group is zero when the last character's two low bits are. */
  lemma LastGroup(p: bv8, q: bv8, r: bv8)
    requires p < 64 && q < 64 && r < 64
    ensures Octet(Group4(p, q, r, 0), 2) == 0 <==> r & 3 == 0
  {
  }

  // ---- Whole keys: ten groups, and one of two bytes padded with a zero byte ----

  function KeyGroup(key: Bits, i: nat): bv32
    requires |key| == 32 && i <= 10
  {
    Group3(key[3 * i], key[3 * i + 1], if i < 10 then key[3 * i + 2] else 0)
  }

  function ToText(key: Bits): (s: Bits)
    requires |key| == 32
    ensures |s| == 44
  {
    seq(44, k requires 0 <= k < 44 => if k == 43 then 61 else Symbol(Sextet(KeyGroup(key, k / 4), k % 4)))
  }

  /** Section 3.5 of RFC 4648: the pad bits are zero, so every key has one text. */
  predicate IsKeyText(s: Bits) {
    && |s| == 44 && s[43] == 61 && Value(s[42]) & 3 == 0
    && forall k :: 0 <= k < 43 ==> InAlphabet(s[k])
  }

  function TextGroup(s: Bits, i: nat): bv32
    requires |s| == 44 && i <= 10
  {
    Group4(Value(s[4 * i]), Value(s[4 * i + 1]), Value(s[4 * i + 2]), if i < 10 then Value(s[4 * i + 3]) else 0)
  }

  function FromText(s: Bits): (key: Bits)
    requires |s| == 44
    ensures |key| == 32
  {
    seq(32, j requires 0 <= j < 32 => Octet(TextGroup(s, j / 3), j % 3))
  }

  /** The characters of group i, and the bytes of group i. */
  lemma TextAt(key: Bits, i: nat)
    requires |key| == 32 && i <= 10
    ensures var s, n := ToText(key), KeyGroup(key, i);
      && s[4 * i] == Symbol(Sextet(n, 0)) && s[4 * i + 1] == Symbol(Sextet(n, 1))
      && s[4 * i + 2] == Symbol(Sextet(n, 2))
      && s[4 * i + 3] == if i < 10 then Symbol(Sextet(n, 3)) else 61
  {
    hide Symbol, Sextet, KeyGroup;
    assert (4 * i + 0) / 4 == i && (4 * i + 1) / 4 == i && (4 * i + 2) / 4 == i && (4 * i + 3) / 4 == i;
  }

  lemma KeyAt(s: Bits, i: nat)
    requires |s| == 44 && i <= 10
    ensures var key, n := FromText(s), TextGroup(s, i);
      key[3 * i] == Octet(n, 0) && key[3 * i + 1] == Octet(n, 1) && (i < 10 ==> key[3 * i + 2] == Octet(n, 2))
  {
    hide Octet, TextGroup;
    assert (3 * i + 0) / 3 == i && (3 * i + 1) / 3 == i && (3 * i + 2) / 3 == i;
  }

  lemma GroupThere(key: Bits, i: nat)
    requires |key| == 32 && i <= 10
    ensures TextGroup(ToText(key), i) == KeyGroup(key, i) < 0x1000000
  {
    hide Symbol, Value, Sextet, Octet, Group3, Group4;
    var n := KeyGroup(key, i);
    GroupOfOctets(key[3 * i], key[3 * i + 1], if i < 10 then key[3 * i + 2] else 0);
    SextetsOfGroup(n);
    TextAt(key, i);
    ValueOfSymbol(Sextet(n, 0));
    ValueOfSymbol(Sextet(n, 1));
    ValueOfSymbol(Sextet(n, 2));
    ValueOfSymbol(Sextet(n, 3));
    if i == 10 {
      LastSextet(key[30], key[31]);
    }
  }

  lemma LastSextet(a: bv8, b: bv8)
    ensures Sextet(Group3(a, b, 0), 3) == 0 && Sextet(Group3(a, b, 0), 2) & 3 == 0
  {
  }

  lemma TextThere(key: Bits)
    requires |key| == 32
    ensures IsKeyText(ToText(key))
  {
    hide Symbol, Value, Sextet, InAlphabet, Group3;
    var s := ToText(key);
    forall k | 0 <= k < 43 ensures InAlphabet(s[k]) {
      SymbolHere(key, k);
    }
    TextAt(key, 10);
    LastSextet(key[30], key[31]);
    GroupOfOctets(key[30], key[31], 0);
    SextetsOfGroup(KeyGroup(key, 10));
    ValueOfSymbol(Sextet(KeyGroup(key, 10), 2));
  }

  lemma SymbolHere(key: Bits, k: nat)
    requires |key| == 32 && k < 43
    ensures InAlphabet(ToText(key)[k])
  {
    hide Symbol, Value, InAlphabet, Group3, Sextet;
    var i := k / 4;
    GroupOfOctets(key[3 * i], key[3 * i + 1], if i < 10 then key[3 * i + 2] else 0);
    SextetsOfGroup(KeyGroup(key, i));
    SextetRange(KeyGroup(key, i), k % 4);
    ValueOfSymbol(Sextet(KeyGroup(key, i), k % 4));
  }

  lemma SextetRange(n: bv32, m: nat)
    ensures Sextet(n, m) < 64
  {
  }

  lemma BytesThere(key: Bits, i: nat)
    requires |key| == 32 && i <= 10
    ensures var k := FromText(ToText(key));
      k[3 * i] == key[3 * i] && k[3 * i + 1] == key[3 * i + 1] && (i < 10 ==> k[3 * i + 2] == key[3 * i + 2])
  {
    hide Symbol, Value, Sextet, Octet, Group3, Group4, ToText, FromText;
    GroupThere(key, i);
    KeyAt(ToText(key), i);
    GroupOfOctets(key[3 * i], key[3 * i + 1], if i < 10 then key[3 * i + 2] else 0);
  }

  /** Decoding undoes encoding. */
  lemma DecodeEncode(key: Bits)
    requires |key| == 32
    ensures IsKeyText(ToText(key)) && FromText(ToText(key)) == key
  {
    hide Symbol, Value, ToText, FromText, IsKeyText;
    TextThere(key);
    var k := FromText(ToText(key));
    forall j | 0 <= j < 32 ensures k[j] == key[j] {
      BytesThere(key, j / 3);
      assert j == 3 * (j / 3) || j == 3 * (j / 3) + 1 || j == 3 * (j / 3) + 2;
    }
  }

  lemma GroupBack(s: Bits, i: nat)
    requires IsKeyText(s) && i <= 10
    ensures KeyGroup(FromText(s), i) == TextGroup(s, i)
    ensures Sextet(TextGroup(s, i), 0) == Value(s[4 * i]) && Sextet(TextGroup(s, i), 1) == Value(s[4 * i + 1])
    ensures Sextet(TextGroup(s, i), 2) == Value(s[4 * i + 2])
    ensures i < 10 ==> Sextet(TextGroup(s, i), 3) == Value(s[4 * i + 3])
  {
    hide Symbol, Value, Sextet, Octet, Group3, Group4, InAlphabet, FromText;
    var n := TextGroup(s, i);
    KeyAt(s, i);
    SymbolOfValue(s[4 * i]);
    SymbolOfValue(s[4 * i + 1]);
    SymbolOfValue(s[4 * i + 2]);
    if i < 10 {
      SymbolOfValue(s[4 * i + 3]);
    } else {
      LastGroup(Value(s[40]), Value(s[41]), Value(s[42]));
    }
    GroupOfSextets(Value(s[4 * i]), Value(s[4 * i + 1]), Value(s[4 * i + 2]),
                   if i < 10 then Value(s[4 * i + 3]) else 0);
    OctetsOfGroup(n);
  }

  /** Encoding undoes decoding. With DecodeEncode: a bijection between keys and key texts. */
  lemma EncodeDecode(s: Bits)
    requires IsKeyText(s)
    ensures ToText(FromText(s)) == s
  {
    hide Symbol, Value, Sextet, Octet, Group3, Group4, InAlphabet, ToText, FromText, KeyGroup, TextGroup;
    var key := FromText(s);
    forall k | 0 <= k < 44 ensures ToText(key)[k] == s[k] {
      var i := k / 4;
      TextAt(key, i);
      GroupBack(s, i);
      if k < 43 {
        SymbolOfValue(s[k]);
      }
      assert k == 4 * i || k == 4 * i + 1 || k == 4 * i + 2 || k == 4 * i + 3;
    }
  }
}
