/** The Android application derives public keys with the Java code and the embeddable C library
    with its own; both are X25519 of the same clamped scalar and the base point 9. */
module PublicKeyAgreement {
  import opened Numbers
  import opened Wrappers
  import opened Ladder
  import opened JavaLimbs
  import JavaCurve
  import EmbeddedCurve

  /** The base point, as the 32 bytes of section 4.1 of RFC 7748. */
  function BasePoint(): Bytes32 { seq(32, i => if i == 0 then 9 else 0) }

  lemma BasePointIsNine()
    ensures DecodeU(BasePoint()) % P == 9
  {
    hide Val, Pow;
    var zero := seq(32, i => 0);
    ValZero(256, zero);
    ValUpdate(256, zero, 0, 9);
    ValEmpty(256);
    assert BasePoint()[31 := BasePoint()[31] % 128] == zero[0 := 9];
    ModSmall(9, P);
  }

  /** Key.generatePublicKey and wg_generate_public_key on the same private key. */
  method PublicKeys(privateKey: seq<int8>) returns (java: seq<uint8>, embedded: seq<uint8>)
    requires |privateKey| == 32
    ensures java == embedded == X25519(Unsigned(privateKey), BasePoint())
  {
    hide Val, Pow, ScalarMult, DecodeScalar, ToDigits;
    BasePointIsNine();
    var out := new int8[32](_ => 0);
    JavaCurve.Curve25519.Eval(out, 0, privateKey, None);
    java := Unsigned(out[..]);
    assert out[0..0 + 32] == out[..];
    var key := new uint8[32](_ => 0);
    EmbeddedCurve.WgGeneratePublicKey(key, Unsigned(privateKey));
    embedded := key[..];
  }

  /** Curve25519.eval for a peer's point whose unused top bit is clear. */
  method SharedSecret(privateKey: seq<int8>, publicKey: seq<int8>) returns (secret: seq<uint8>)
    requires |privateKey| == 32 && |publicKey| == 32 && 0 <= publicKey[31]
    ensures secret == X25519(Unsigned(privateKey), Unsigned(publicKey))
  {
    hide Val, Pow, ScalarMult, DecodeScalar, ToDigits;
    var out := new int8[32](_ => 0);
    var u := Unsigned(publicKey);
    UnmaskedU(u);
    TopBitClear(u);
    JavaCurve.Curve25519.Eval(out, 0, privateKey, Some(publicKey));
    secret := Unsigned(out[..]);
    assert out[0..0 + 32] == out[..];
  }

  lemma TopBitClear(u: Bytes32)
    requires u[31] < 128
    ensures Val(256, u) < TWO255
  {
    hide Val, Pow;
    ValNext(256, u, 31);
    assert u[..32] == u;
    ValBound(256, u[..31]);
    Bytes32Bound();
    PowNext(256, 31);
  }
}
