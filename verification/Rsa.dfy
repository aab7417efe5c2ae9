/**
 * RS256 verification as the Vertex stub performs it: RSASSA-PKCS1-v1_5 by modular
 * exponentiation (sections 8.2 and 9.2 of RFC 8017), and the compact-token check around it.
 */
module Rsa {
  import opened Prelude
  import opened Bytes
  import opened ModularPower
  import opened Text
  import Base64
  import Der

  datatype PublicKey = PublicKey(n: nat, e: nat)

  /** The DER prefix of a SHA-256 DigestInfo. */
  const DIGEST_INFO_PREFIX: seq<byte> :=
    [0x30, 0x31, 0x30, 0x0d, 0x06, 0x09, 0x60, 0x86, 0x48, 0x01, 0x65, 0x03, 0x04, 0x02, 0x01, 0x05, 0x00, 0x04, 0x20]

  /** 00 01 FF..FF 00 DigestInfo, k octets long. */
  function EncodedMessage(k: nat, digestInfo: seq<byte>): (em: seq<byte>)
    requires k >= |digestInfo| + 3
    ensures |em| == k
  {
    var pad: seq<byte> := Repeat(0xff as byte, k - 3 - |digestInfo|);
    [0x00, 0x01] + pad + [0x00] + digestInfo
  }

  /** The arithmetic part of the verification: the checks in the order the code makes them. */
  predicate VerifyDigest(key: PublicKey, signature: seq<byte>, digest: seq<byte>) {
    var k := ByteLength(key.n);
    if |signature| != k then false else
    var s := FromBytes(signature);
    if s >= key.n then false else
    var m := ModPow(s, key.e, key.n);
    var em := ToBytes(m, k);
    var digestInfo := DIGEST_INFO_PREFIX + digest;
    if k - 3 - |digestInfo| < 8 then false else
    em == EncodedMessage(k, digestInfo)
  }

  /** The conversion of pow(s, e, n) to k octets never overflows. */
  lemma ResidueFits(key: PublicKey, s: nat)
    requires s < key.n
    ensures ModPow(s, key.e, key.n) < Pow256(ByteLength(key.n))
  {
    ByteLengthBounds(key.n);
  }

  /** The encoded message starts with a zero octet, so its value is below 256^(k-1). */
  lemma EncodedMessageSmall(k: nat, digestInfo: seq<byte>)
    requires k >= |digestInfo| + 3
    ensures FromBytes(EncodedMessage(k, digestInfo)) < Pow256(k - 1)
  {
    var em := EncodedMessage(k, digestInfo);
    assert em == [0] + em[1..];
    FromBytesLeadingZero(em[1..]);
    FromBytesBound(em[1..]);
  }

  /** The encoded message always represents an integer below the modulus. */
  lemma EncodedMessageBelowModulus(n: nat, digestInfo: seq<byte>)
    requires ByteLength(n) >= |digestInfo| + 3
    ensures FromBytes(EncodedMessage(ByteLength(n), digestInfo)) < n
  {
    ByteLengthBounds(n);
    EncodedMessageSmall(ByteLength(n), digestInfo);
  }

  /**
   * Exactness: for a 32-octet digest the check passes iff the signature has k >= 62 octets, its
   * integer is below n, and its e-th power modulo n is the integer of the encoded message.
   */
  lemma {:induction false} VerifyExact(key: PublicKey, signature: seq<byte>, digest: seq<byte>)
    requires |digest| == 32
    ensures VerifyDigest(key, signature, digest) <==>
      && |signature| == ByteLength(key.n) && 62 <= |signature|
      && FromBytes(signature) < key.n
      && Power(FromBytes(signature), key.e) % key.n
         == FromBytes(EncodedMessage(|signature|, DIGEST_INFO_PREFIX + digest))
  {
    var k := ByteLength(key.n);
    if |signature| == k && 62 <= k && FromBytes(signature) < key.n {
      var s := FromBytes(signature);
      var m := ModPow(s, key.e, key.n);
      var expected := EncodedMessage(k, DIGEST_INFO_PREFIX + digest);
      ResidueFits(key, s);
      FromToBytes(m, k);
      ToFromBytes(expected);
    }
  }

  /** id-sha256, 2.16.840.1.101.3.4.2.1. */
  function Sha256Identifier(): seq<byte> {
    Der.ObjectIdentifier(2, 16,
      Der.Arc(840) + Der.Arc(1) + Der.Arc(101) + Der.Arc(3) + Der.Arc(4) + Der.Arc(2) + Der.Arc(1))
  }

  /** The DigestInfo of a SHA-256 digest (appendix A.2.4 of RFC 8017): id-sha256 with NULL, and the octets. */
  function DigestInfo(digest: seq<byte>): seq<byte> {
    Der.Tlv(0x30, Der.Tlv(0x30, Sha256Identifier() + Der.Tlv(0x05, [])) + Der.Tlv(0x04, digest))
  }

  lemma Sha256Arcs()
    ensures Der.Arc(96) == [0x60] && Der.Arc(840) == [0x86, 0x48] && Der.Arc(1) == [0x01] && Der.Arc(101) == [0x65]
    ensures Der.Arc(2) == [0x02] && Der.Arc(3) == [0x03] && Der.Arc(4) == [0x04]
  {
    assert Der.Continued(0) == [] && Der.Continued(6) == [0x86];
  }

  /** A short element: tag, one length octet, value. */
  lemma ShortTlv(tag: byte, value: seq<byte>, n: nat)
    requires |value| == n < 0x80
    ensures Der.Tlv(tag, value) == [tag, n] + value
  {
  }

  lemma Sha256IdentifierIs()
    ensures Sha256Identifier() == [0x06, 0x09, 0x60, 0x86, 0x48, 0x01, 0x65, 0x03, 0x04, 0x02, 0x01]
  {
    Sha256Arcs();
    ShortTlv(0x06, [0x60, 0x86, 0x48, 0x01, 0x65, 0x03, 0x04, 0x02, 0x01], 9);
  }

  lemma Sha256Algorithm()
    ensures Der.Tlv(0x30, Sha256Identifier() + Der.Tlv(0x05, []))
      == [0x30, 0x0d, 0x06, 0x09, 0x60, 0x86, 0x48, 0x01, 0x65, 0x03, 0x04, 0x02, 0x01, 0x05, 0x00]
  {
    var nothing: seq<byte> := [];
    Sha256IdentifierIs();
    ShortTlv(0x05, nothing, 0);
    ShortTlv(0x30, Sha256Identifier() + ([0x05, 0x00] + nothing), 13);
  }

  lemma DigestInfoOf(algorithm: seq<byte>, digest: seq<byte>)
    requires |algorithm| == 15 && |digest| == 32
    ensures Der.Tlv(0x30, algorithm + Der.Tlv(0x04, digest)) == [0x30, 0x31] + algorithm + [0x04, 0x20] + digest
  {
    ShortTlv(0x04, digest, 32);
    ShortTlv(0x30, algorithm + ([0x04, 0x20] + digest), 49);
    PrefixFlat([0x30, 0x31], algorithm, [0x04, 0x20], digest);
  }

  lemma PrefixFlat(a: seq<byte>, b: seq<byte>, c: seq<byte>, d: seq<byte>)
    ensures a + b + c + d == a + (b + (c + d))
  {
  }

  /** The constant prefix is what the encoding rules give, and the digest stands behind it. */
  lemma DigestInfoIs(digest: seq<byte>)
    requires |digest| == 32
    ensures DIGEST_INFO_PREFIX + digest == DigestInfo(digest)
  {
    Sha256Algorithm();
    PrefixIs(digest);
  }

  lemma PrefixIs(digest: seq<byte>)
    requires |digest| == 32
    ensures DIGEST_INFO_PREFIX + digest == Der.Tlv(0x30,
      [0x30, 0x0d, 0x06, 0x09, 0x60, 0x86, 0x48, 0x01, 0x65, 0x03, 0x04, 0x02, 0x01, 0x05, 0x00]
      + Der.Tlv(0x04, digest))
  {
    var algorithm: seq<byte> :=
      [0x30, 0x0d, 0x06, 0x09, 0x60, 0x86, 0x48, 0x01, 0x65, 0x03, 0x04, 0x02, 0x01, 0x05, 0x00];
    DigestInfoOf(algorithm, digest);
    assert DIGEST_INFO_PREFIX == [0x30, 0x31] + algorithm + [0x04, 0x20];
  }

  lemma OpensIff(key: PublicKey, signature: seq<byte>, digest: seq<byte>, info: seq<byte>)
    requires |digest| == 32 && info == DIGEST_INFO_PREFIX + digest
    ensures VerifyDigest(key, signature, digest) <==>
      && |signature| == ByteLength(key.n) && 62 <= |signature| && FromBytes(signature) < key.n
      && var k, em := |signature|, ToBytes(Power(FromBytes(signature), key.e) % key.n, |signature|);
      && em[0] == 0 && em[1] == 1
      && (forall i :: 2 <= i < k - 52 ==> em[i] == 0xff)
      && em[k - 52] == 0
      && em[k - 51..] == info
  {
    var k := |signature|;
    if k == ByteLength(key.n) && 62 <= k && FromBytes(signature) < key.n {
      OctetsOf(ToBytes(ModPow(FromBytes(signature), key.e, key.n), k), info);
    }
  }

  /**
   * The octets a signature has to open to (section 9.2 of RFC 8017), one by one: the block type 01,
   * FF up to the separator, and the encoded DigestInfo, which ends in the digest.
   */
  lemma {:induction false} VerifyOctets(key: PublicKey, signature: seq<byte>, digest: seq<byte>)
    requires |digest| == 32
    ensures VerifyDigest(key, signature, digest) <==>
      && |signature| == ByteLength(key.n) && 62 <= |signature| && FromBytes(signature) < key.n
      && var k, em := |signature|, ToBytes(Power(FromBytes(signature), key.e) % key.n, |signature|);
      && em[0] == 0 && em[1] == 1
      && (forall i :: 2 <= i < k - 52 ==> em[i] == 0xff)
      && em[k - 52] == 0
      && em[k - 51..] == DigestInfo(digest)
    ensures |DigestInfo(digest)| == 51 && DigestInfo(digest)[19..] == digest
  {
    DigestInfoIs(digest);
    OpensIff(key, signature, digest, DIGEST_INFO_PREFIX + digest);
  }

  lemma OctetsOf(em: seq<byte>, digestInfo: seq<byte>)
    requires |em| >= 62 && |digestInfo| == 51
    ensures em == EncodedMessage(|em|, digestInfo) <==>
      && em[0] == 0 && em[1] == 1
      && (forall i :: 2 <= i < |em| - 52 ==> em[i] == 0xff)
      && em[|em| - 52] == 0
      && em[|em| - 51..] == digestInfo
  {
    var k := |em|;
    var want := EncodedMessage(k, digestInfo);
    assert want[k - 51..] == digestInfo;
    assert forall i :: k - 51 <= i < k ==> em[i] == em[k - 51..][i - (k - 51)];
    assert forall i :: k - 51 <= i < k ==> want[i] == want[k - 51..][i - (k - 51)];
  }

  /** d inverts e as an exponent modulo n. */
  ghost predicate Inverse(key: PublicKey, d: nat) {
    forall x: nat :: x < key.n ==> Power(x, key.e * d) % key.n == x
  }

  /** The signature RSASP1 makes with the private exponent d. */
  function Sign(key: PublicKey, d: nat, digest: seq<byte>): (sig: seq<byte>)
    requires key.n > 0 && ByteLength(key.n) >= |digest| + 22
    ensures |sig| == ByteLength(key.n)
  {
    var k := ByteLength(key.n);
    ToBytes(ModPow(FromBytes(EncodedMessage(k, DIGEST_INFO_PREFIX + digest)), d, key.n), k)
  }

  lemma SignValue(key: PublicKey, d: nat, digest: seq<byte>)
    requires |digest| == 32 && ByteLength(key.n) >= 62
    ensures FromBytes(Sign(key, d, digest))
         == ModPow(FromBytes(EncodedMessage(ByteLength(key.n), DIGEST_INFO_PREFIX + digest)), d, key.n)
  {
    ByteLengthBounds(key.n);
    var k := ByteLength(key.n);
    FromToBytes(ModPow(FromBytes(EncodedMessage(k, DIGEST_INFO_PREFIX + digest)), d, key.n), k);
  }

  /** With a matching private exponent, the accepted signature is the honest one and no other. */
  lemma {:induction false} AcceptsExactlyTheHonestSignature(
      key: PublicKey, d: nat, signature: seq<byte>, digest: seq<byte>)
    requires |digest| == 32 && ByteLength(key.n) >= 62 && Inverse(key, d)
    ensures VerifyDigest(key, signature, digest) <==> signature == Sign(key, d, digest)
  {
    var k := ByteLength(key.n);
    var em := FromBytes(EncodedMessage(k, DIGEST_INFO_PREFIX + digest));
    var honest := Sign(key, d, digest);
    SignValue(key, d, digest);
    EncodedMessageBelowModulus(key.n, DIGEST_INFO_PREFIX + digest);
    VerifyExact(key, signature, digest);
    ModPowCompose(em, d, key.e, key.n);
    assert d * key.e == key.e * d;
    if VerifyDigest(key, signature, digest) {
      var s := FromBytes(signature);
      ModPowCompose(s, key.e, d, key.n);
      FromBytesInjective(signature, honest);
    }
  }

  // ---------------------------------------------------------------------------
  // The compact token
  // ---------------------------------------------------------------------------

  /** A decoded JSON value, as far as the stub looks into it. Python counts a boolean as an Int. */
  datatype Json = Object(fields: map<string, Json>) | Text(text: string) | Int(number: int) | Null | OtherJson(id: nat)

  /** The library functions the verifier calls: SHA-256 and json.loads (None: it raises ValueError). */
  datatype Library = Library(sha256: seq<byte> -> seq<byte>, loads: seq<byte> -> Option<Json>) {
    ghost predicate Valid() {
      forall x :: |sha256(x)| == 32
    }
  }

  /**
   * Raised is the AttributeError of asking a non-object header for its "alg". A payload of null
   * is None in Python, the very value that stands for rejection.
   */
  datatype Verdict = Accepted(payload: Json) | Rejected | Raised

  function AsciiBytes(s: string): (b: seq<byte>)
    requires Base64.IsAscii(s)
    ensures |b| == |s|
  {
    seq(|s|, i requires 0 <= i < |s| => s[i] as int)
  }

  function SigningInput(header: string, payload: string): string {
    header + "." + payload
  }

  /** The three segments decoded: header and payload as JSON, the signature as octets. */
  function DecodeSegments(lib: Library, parts: seq<string>): Option<(Json, Json, seq<byte>)>
    requires |parts| == 3
  {
    match Base64.UrlDecodeUnpadded(parts[0])
    case None => None
    case Some(h) =>
      match lib.loads(h)
      case None => None
      case Some(header) =>
        match Base64.UrlDecodeUnpadded(parts[1])
        case None => None
        case Some(p) =>
          match lib.loads(p)
          case None => None
          case Some(payload) =>
            match Base64.UrlDecodeUnpadded(parts[2])
            case None => None
            case Some(signature) => Some((header, payload, signature))
  }

  /** Only ASCII text survives base64 decoding, so encoding the signing input cannot fail. */
  lemma DecodedSegmentIsAscii(segment: string)
    requires Base64.UrlDecodeUnpadded(segment).Some?
    ensures Base64.IsAscii(segment)
  {
    var u := segment + Repeat('=', (4 - |segment| % 4) % 4);
    var t := seq(|u|, i requires 0 <= i < |u| => Base64.FromUrlChar(u[i]));
    forall i | 0 <= i < |segment|
      ensures segment[i] as int < 128
    {
      assert t[i] == Base64.FromUrlChar(segment[i]);
    }
  }

  function VerifyRs256Jwt(lib: Library, token: string, key: PublicKey): Verdict {
    var parts := Split(token, '.');
    if |parts| != 3 then Rejected else
    match DecodeSegments(lib, parts)
    case None => Rejected
    case Some((header, payload, signature)) =>
      if !header.Object? then Raised
      else if "alg" !in header.fields || header.fields["alg"] != Text("RS256") then Rejected
      else
        DecodedSegmentIsAscii(parts[0]);
        DecodedSegmentIsAscii(parts[1]);
        var digest := lib.sha256(AsciiBytes(SigningInput(parts[0], parts[1])));
        if VerifyDigest(key, signature, digest) && payload != Null then Accepted(payload) else Rejected
  }

  /** base64url without padding never holds the segment separator. */
  lemma UnpaddedHasNoDot(b: seq<byte>)
    ensures '.' !in Base64.UrlEncodeUnpadded(b)
  {
    Base64.UnpaddedShape(b);
    var s := Base64.UrlEncodeUnpadded(b);
    forall i | 0 <= i < |s|
      ensures s[i] != '.'
    {
      Base64.SextetCharFacts(Base64.Sextets(b)[i], Base64.UrlSafe);
    }
  }

  /** The compact serialization of three octet strings. */
  function Compact(header: seq<byte>, payload: seq<byte>, signature: seq<byte>): string {
    SigningInput(Base64.UrlEncodeUnpadded(header), Base64.UrlEncodeUnpadded(payload))
    + "." + Base64.UrlEncodeUnpadded(signature)
  }

  lemma SigningInputIsAscii(header: string, payload: string)
    requires Base64.IsAscii(header) && Base64.IsAscii(payload)
    ensures Base64.IsAscii(SigningInput(header, payload))
  {
  }

  /** The octets a signer hashes. */
  function CompactInput(header: seq<byte>, payload: seq<byte>): seq<byte> {
    UnpaddedIsAscii(header);
    UnpaddedIsAscii(payload);
    SigningInputIsAscii(Base64.UrlEncodeUnpadded(header), Base64.UrlEncodeUnpadded(payload));
    AsciiBytes(SigningInput(Base64.UrlEncodeUnpadded(header), Base64.UrlEncodeUnpadded(payload)))
  }

  lemma UnpaddedIsAscii(b: seq<byte>)
    ensures Base64.IsAscii(Base64.UrlEncodeUnpadded(b))
  {
    Base64.EncodeAscii(b, Base64.UrlSafe);
  }

  lemma CompactSplits(header: seq<byte>, payload: seq<byte>, signature: seq<byte>)
    ensures Split(Compact(header, payload, signature), '.')
         == [Base64.UrlEncodeUnpadded(header), Base64.UrlEncodeUnpadded(payload), Base64.UrlEncodeUnpadded(signature)]
  {
    var h, p, s :=
      Base64.UrlEncodeUnpadded(header), Base64.UrlEncodeUnpadded(payload), Base64.UrlEncodeUnpadded(signature);
    UnpaddedHasNoDot(header);
    UnpaddedHasNoDot(payload);
    UnpaddedHasNoDot(signature);
    IsTokenSplits(Compact(header, payload, signature), h, p, s);
  }

  /** The segments of a compact token decode to what was serialized. */
  lemma CompactSegments(lib: Library, header: seq<byte>, payload: seq<byte>, signature: seq<byte>)
    ensures DecodeSegments(lib,
        [Base64.UrlEncodeUnpadded(header), Base64.UrlEncodeUnpadded(payload), Base64.UrlEncodeUnpadded(signature)])
         == if lib.loads(header).Some? && lib.loads(payload).Some?
            then Some((lib.loads(header).value, lib.loads(payload).value, signature)) else None
  {
    Base64.UrlDecodeEncodeUnpadded(header);
    Base64.UrlDecodeEncodeUnpadded(payload);
    Base64.UrlDecodeEncodeUnpadded(signature);
  }

  /**
   * End to end: a compact token over any header and payload is accepted, with exactly that
   * payload, iff both parse, the header is an RS256 object, the payload is not null and the
   * signature is the honest one.
   */
  lemma {:induction false} CompactTokenVerdict(
      lib: Library, key: PublicKey, d: nat, header: seq<byte>, payload: seq<byte>, signature: seq<byte>)
    requires lib.Valid() && ByteLength(key.n) >= 62 && Inverse(key, d)
    ensures var v := VerifyRs256Jwt(lib, Compact(header, payload, signature), key);
      && (v.Accepted? <==>
           && lib.loads(header).Some? && lib.loads(payload).Some? && lib.loads(header).value.Object?
           && "alg" in lib.loads(header).value.fields
           && lib.loads(header).value.fields["alg"] == Text("RS256")
           && lib.loads(payload).value != Null
           && signature == Sign(key, d, lib.sha256(CompactInput(header, payload))))
      && (v.Accepted? ==> v.payload == lib.loads(payload).value)
  {
    CompactSplits(header, payload, signature);
    CompactSegments(lib, header, payload, signature);
    AcceptsExactlyTheHonestSignature(key, d, signature, lib.sha256(CompactInput(header, payload)));
  }

  /** What the segment holds: base64url of JSON text. */
  function Held(lib: Library, segment: string): Option<Json> {
    match Base64.UrlDecodeUnpadded(segment)
    case None => None
    case Some(text) => lib.loads(text)
  }

  /** All three segments are readable, and the header is no object. */
  predicate BadHeader(lib: Library, header: string, payload: string, signature: string) {
    && Held(lib, header).Some? && !Held(lib, header).value.Object?
    && Held(lib, payload).Some? && Base64.UrlDecodeUnpadded(signature).Some?
  }

  lemma RaisedParts(lib: Library, token: string, key: PublicKey)
    ensures VerifyRs256Jwt(lib, token, key).Raised? <==>
      var parts := Split(token, '.'); |parts| == 3 && BadHeader(lib, parts[0], parts[1], parts[2])
  {
  }

  /** The text of three segments. */
  predicate IsToken(token: string, header: string, payload: string, signature: string) {
    && '.' !in header && '.' !in payload && '.' !in signature
    && token == SigningInput(header, payload) + "." + signature
  }

  lemma IsTokenSplits(token: string, header: string, payload: string, signature: string)
    requires IsToken(token, header, payload, signature)
    ensures Split(token, '.') == [header, payload, signature]
  {
    JoinThree(header, payload, signature, ".");
    SplitJoin([header, payload, signature], '.');
  }

  lemma SplitIsToken(token: string)
    requires |Split(token, '.')| == 3
    ensures var parts := Split(token, '.'); IsToken(token, parts[0], parts[1], parts[2])
  {
    var parts := Split(token, '.');
    JoinSplit(token, '.');
    JoinThree(parts[0], parts[1], parts[2], ".");
    assert parts == [parts[0], parts[1], parts[2]];
  }

  /**
   * For every text and every key: the verifier raises iff the text is three segments, the first
   * two hold JSON, the third is base64, and the header is no object.
   */
  lemma {:induction false} RaisesIff(lib: Library, token: string, key: PublicKey)
    ensures VerifyRs256Jwt(lib, token, key).Raised? <==>
      exists header, payload, signature ::
        IsToken(token, header, payload, signature) && BadHeader(lib, header, payload, signature)
  {
    RaisedParts(lib, token, key);
    if VerifyRs256Jwt(lib, token, key).Raised? {
      SplitIsToken(token);
    }
    if header, payload, signature :|
      IsToken(token, header, payload, signature) && BadHeader(lib, header, payload, signature)
    {
      IsTokenSplits(token, header, payload, signature);
    }
  }

  /** json.loads of the text "1" and of nothing else. */
  function LoadsOne(text: seq<byte>): Option<Json> {
    if text == [49] then Some(Int(1)) else None
  }

  /** Any readable segments with a header that is no object make the verifier raise. */
  lemma CompactRaises(
      lib: Library, key: PublicKey, header: seq<byte>, payload: seq<byte>, signature: seq<byte>)
    requires lib.loads(header).Some? && !lib.loads(header).value.Object? && lib.loads(payload).Some?
    ensures VerifyRs256Jwt(lib, Compact(header, payload, signature), key).Raised?
  {
    CompactSplits(header, payload, signature);
    CompactSegments(lib, header, payload, signature);
  }

  /** The token whose three segments are the base64 of "1" makes the verifier raise, under any key. */
  lemma {:induction false} NumberHeaderRaises(sha256: seq<byte> -> seq<byte>, key: PublicKey)
    ensures VerifyRs256Jwt(Library(sha256, LoadsOne), Compact([49], [49], [49]), key).Raised?
  {
    CompactRaises(Library(sha256, LoadsOne), key, [49], [49], [49]);
  }

  /** Whatever the token, acceptance means its third segment is the honest signature over the first two. */
  lemma {:induction false} AcceptedIsSigned(lib: Library, key: PublicKey, d: nat, token: string)
    requires lib.Valid() && Inverse(key, d) && VerifyRs256Jwt(lib, token, key).Accepted?
    ensures var parts := Split(token, '.');
      && |parts| == 3 && ByteLength(key.n) >= 62
      && Base64.IsAscii(SigningInput(parts[0], parts[1]))
      && Base64.UrlDecodeUnpadded(parts[2])
         == Some(Sign(key, d, lib.sha256(AsciiBytes(SigningInput(parts[0], parts[1])))))
  {
    var parts := Split(token, '.');
    var signature := DecodeSegments(lib, parts).value.2;
    DecodedSegmentIsAscii(parts[0]);
    DecodedSegmentIsAscii(parts[1]);
    var digest := lib.sha256(AsciiBytes(SigningInput(parts[0], parts[1])));
    VerifyExact(key, signature, digest);
    AcceptsExactlyTheHonestSignature(key, d, signature, digest);
  }

  /** The value of a member, when there is one. */
  function Member(json: Json, name: string): Option<Json>
    requires json.Object?
  {
    if name in json.fields then Some(json.fields[name]) else None
  }

  /**
   * The verdict on any text of three segments, over the octets that are hashed: the codes of the
   * characters up to the second dot.
   */
  lemma {:induction false} SegmentsVerdict(
      lib: Library, key: PublicKey, header: string, payload: string, signature: string, input: seq<byte>)
    requires '.' !in header && '.' !in payload && '.' !in signature
    requires |input| == |header| + 1 + |payload|
    requires forall i :: 0 <= i < |input| ==> input[i] == (header + "." + payload)[i] as int
    ensures VerifyRs256Jwt(lib, header + "." + payload + "." + signature, key) ==
      var h, p, s := Held(lib, header), Held(lib, payload), Base64.UrlDecodeUnpadded(signature);
      if h.None? || p.None? || s.None? then Rejected
      else if !h.value.Object? then Raised
      else if Member(h.value, "alg") == Some(Json.Text("RS256")) && VerifyDigest(key, s.value, lib.sha256(input))
          && p.value != Null
      then Accepted(p.value) else Rejected
  {
    IsTokenSplits(header + "." + payload + "." + signature, header, payload, signature);
    if Held(lib, header).Some? && Held(lib, payload).Some? {
      DecodedSegmentIsAscii(header);
      DecodedSegmentIsAscii(payload);
      assert AsciiBytes(SigningInput(header, payload)) == input;
    }
  }

  /** And any other number of segments is rejected. */
  lemma OtherSegments(lib: Library, key: PublicKey, parts: seq<string>)
    requires parts != [] && |parts| != 3 && forall i :: 0 <= i < |parts| ==> '.' !in parts[i]
    ensures VerifyRs256Jwt(lib, Join(parts, "."), key) == Rejected
  {
    SplitJoin(parts, '.');
  }
}
