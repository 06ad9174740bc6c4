/** Bytes of configuration text, and the character tests of
    tunnel/tools/wireguard-tools/contrib/highlighter/highlighter.c. */
module Characters {
  import opened Numbers

  const TAB: uint8 := 9
  const NEWLINE: uint8 := 10
  const SPACE: uint8 := 32
  const HASH: uint8 := 35
  const PERCENT: uint8 := 37
  const PLUS: uint8 := 43
  const COMMA: uint8 := 44
  const DASH: uint8 := 45
  const DOT: uint8 := 46
  const SLASH: uint8 := 47
  const ZERO: uint8 := 48
  const COLON: uint8 := 58
  const EQUALS: uint8 := 61
  const OPEN: uint8 := 91
  const CLOSE: uint8 := 93
  const UNDERSCORE: uint8 := 95

  /** c | 32. */
  function Lower(c: uint8): uint8 { if c / 32 % 2 == 0 then c + 32 else c }

  predicate Decimal(c: uint8) { 48 <= c <= 57 }

  predicate Hexadecimal(c: uint8) { Decimal(c) || 97 <= Lower(c) <= 102 }

  predicate Alphabet(c: uint8) { 97 <= Lower(c) <= 122 }

  predicate AllDecimal(t: seq<uint8>) { forall k :: 0 <= k < |t| ==> Decimal(t[k]) }

  predicate AllHex(t: seq<uint8>) { forall k :: 0 <= k < |t| ==> Hexadecimal(t[k]) }

  /** Setting bit 5 recognizes exactly the letters of both cases. */
  lemma CharacterClasses(c: uint8)
    ensures Hexadecimal(c) <==> 48 <= c <= 57 || 65 <= c <= 70 || 97 <= c <= 102
    ensures Alphabet(c) <==> 65 <= c <= 90 || 97 <= c <= 122
  {
  }

  /** The value of a string of digits. */
  function Number(t: seq<uint8>): int {
    if t == [] then 0 else 10 * Number(t[..|t| - 1]) + t[|t| - 1] - ZERO
  }

  lemma NumberSnoc(t: seq<uint8>, k: nat)
    requires k < |t|
    ensures Number(t[..k + 1]) == 10 * Number(t[..k]) + t[k] - ZERO
  {
    assert t[..k + 1][..k] == t[..k];
  }

  /** The byte at k of a span whose text is t and which `next` follows in the buffer. */
  function At(t: seq<uint8>, next: uint8, k: nat): uint8
    requires k <= |t|
  {
    if k < |t| then t[k] else next
  }
}
