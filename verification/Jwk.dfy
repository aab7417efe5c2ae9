/** The JWK form of an RSA public key (section 6.3.1 of RFC 7518). */
module Jwk {
  import opened Prelude
  import opened Bytes
  import Base64

  datatype JwkKey = JwkKey(kty: string, usage: string, alg: string, kid: string, n: string, e: string)

  /** n.to_bytes(length, "big"), url-safe encoded without padding; None: OverflowError. */
  function B64Url(n: nat, length: nat): Option<string> {
    if n < Pow256(length) then Some(Base64.UrlEncodeUnpadded(ToBytes(n, length))) else None
  }

  /** The modulus in as many octets as it needs, the exponent always in three. */
  function RsaPubToJwk(n: nat, e: nat, kid: string): Option<JwkKey> {
    match B64Url(n, ByteLength(n))
    case None => None
    case Some(nText) =>
      match B64Url(e, 3)
      case None => None
      case Some(eText) => Some(JwkKey("RSA", "sig", "RS256", kid, nText, eText))
  }

  /** The minimal big-endian form: right value, no leading zero octet. */
  predicate Minimal(b: seq<byte>, n: nat) {
    FromBytes(b) == n && (b == [] || b[0] != 0)
  }

  lemma LeadingOctet(b: seq<byte>)
    requires b != [] && FromBytes(b) >= Pow256(|b| - 1)
    ensures b[0] != 0
  {
    if b[0] == 0 {
      assert b == [0] + b[1..];
      FromBytesLeadingZero(b[1..]);
      FromBytesBound(b[1..]);
      assert false;
    }
  }

  lemma ThreeOctets()
    ensures Pow256(3) == 0x100_0000
  {
    assert Pow256(1) == 256 * Pow256(0);
    assert Pow256(2) == 256 * Pow256(1);
  }

  /**
   * Serialization succeeds exactly for e < 2^24; then "n" decodes to the minimal big-endian
   * form of the modulus and "e" to three octets of value e, of a signing key under the given id.
   */
  lemma JwkRoundTrip(n: nat, e: nat, kid: string)
    requires n >= 1
    ensures RsaPubToJwk(n, e, kid).Some? <==> e < 0x100_0000
    ensures e < 0x100_0000 ==>
      var jwk := RsaPubToJwk(n, e, kid).value;
      var nOctets, eOctets := Base64.UrlDecodeUnpadded(jwk.n), Base64.UrlDecodeUnpadded(jwk.e);
      && nOctets.Some? && Minimal(nOctets.value, n)
      && eOctets.Some? && FromBytes(eOctets.value) == e && |eOctets.value| == 3
      && (jwk.kty, jwk.usage, jwk.alg, jwk.kid) == ("RSA", "sig", "RS256", kid)
  {
    var k := ByteLength(n);
    ByteLengthBounds(n);
    ThreeOctets();
    FromToBytes(n, k);
    LeadingOctet(ToBytes(n, k));
    Base64.UrlDecodeEncodeUnpadded(ToBytes(n, k));
    FromToBytes(e, 3);
    Base64.UrlDecodeEncodeUnpadded(ToBytes(e, 3));
  }

  /** The three-octet exponent is the minimal form RFC 7518 asks for only from 2^16 on. */
  lemma ExponentMinimalIff(e: nat)
    requires e < 0x100_0000
    ensures Minimal(ToBytes(e, 3), e) <==> e >= 0x1_0000
  {
    FromToBytes(e, 3);
    assert Pow256(1) == 256 * Pow256(0);
    assert Pow256(2) == 256 * Pow256(1);
    assert Pow256(3) == 256 * Pow256(2);
    assert ToBytes(e, 3)[0] == ToBytes(e / 256, 2)[0] == ToBytes(e / 256 / 256, 1)[0] == e / 256 / 256;
  }
}
