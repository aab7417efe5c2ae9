/**
 * The Vertex stub's hand-written DER reader (sections 8.1.3 and 8.3 of X.690) and its use on
 * an RSA SubjectPublicKeyInfo (appendix A.1.1 of RFC 8017).
 */
module Der {
  import opened Prelude
  import opened Bytes

  /** One tag-length-value; None stands for the IndexError of reading past the data. */
  function ReadTlv(data: seq<byte>, start: nat): Option<(byte, seq<byte>, nat)> {
    if start + 1 >= |data| then None else
    var tag, lengthByte := data[start], data[start + 1];
    var pos := start + 2;
    if lengthByte < 0x80 then
      Some((tag, Slice(data, pos, pos + lengthByte), pos + lengthByte))
    else
      var numBytes := lengthByte - 0x80;
      var length := FromBytes(Slice(data, pos, pos + numBytes));
      Some((tag, Slice(data, pos + numBytes, pos + numBytes + length), pos + numBytes + length))
  }

  datatype KeyError = OutOfData | NotASequence | NotABitString | NotAKeySequence | NotIntegers

  /** Modulus and exponent of a SubjectPublicKeyInfo, with the checks in the code's order. */
  function ParseSpki(der: seq<byte>): Result<(nat, nat), KeyError> {
    match ReadTlv(der, 0)
    case None => Err(OutOfData)
    case Some((tag, spki, _)) =>
      if tag != 0x30 then Err(NotASequence) else
      match ReadTlv(spki, 0)
      case None => Err(OutOfData)
      case Some((_, _, pos)) =>
        match ReadTlv(spki, pos)
        case None => Err(OutOfData)
        case Some((bsTag, bsValue, _)) =>
          if bsTag != 0x03 then Err(NotABitString) else ParseKey(Slice(bsValue, 1, |bsValue|))
  }

  /** The RSAPublicKey inside the bit string. */
  function ParseKey(rsaPub: seq<byte>): Result<(nat, nat), KeyError> {
    match ReadTlv(rsaPub, 0)
    case None => Err(OutOfData)
    case Some((rkTag, rk, _)) =>
      if rkTag != 0x30 then Err(NotAKeySequence) else
      match ReadTlv(rk, 0)
      case None => Err(OutOfData)
      case Some((nTag, nValue, next)) =>
        match ReadTlv(rk, next)
        case None => Err(OutOfData)
        case Some((eTag, eValue, _)) =>
          if nTag != 0x02 || eTag != 0x02 then Err(NotIntegers)
          else Ok((FromBytes(nValue), FromBytes(eValue)))
  }

  // ---------------------------------------------------------------------------
  // What an encoding is
  // ---------------------------------------------------------------------------

  /** The definite forms of a length: one octet below 128, or a count and that many octets. */
  predicate IsLength(octets: seq<byte>, n: nat) {
    || (n < 0x80 && octets == [n])
    || (2 <= |octets| <= 0x80 && octets[0] == 0x7f + |octets| && FromBytes(octets[1..]) == n)
  }

  /** `enc` is a tag, some definite-form length (not necessarily the shortest), and the value. */
  ghost predicate IsTlv(enc: seq<byte>, tag: byte, value: seq<byte>) {
    exists i :: 2 <= i <= |enc| && enc[0] == tag && IsLength(enc[1..i], |value|) && enc[i..] == value
  }

  /** An encoded element is read back wherever it stands. */
  lemma ReadTlvAt(pre: seq<byte>, enc: seq<byte>, post: seq<byte>, tag: byte, value: seq<byte>)
    requires IsTlv(enc, tag, value)
    ensures ReadTlv(pre + enc + post, |pre|) == Some((tag, value, |pre| + |enc|))
  {
    var i :| 2 <= i <= |enc| && enc[0] == tag && IsLength(enc[1..i], |value|) && enc[i..] == value;
    assert enc == [tag] + enc[1..i] + value;
    ReadTlvParts(pre, tag, enc[1..i], value, post);
  }

  lemma ReadTlvParts(pre: seq<byte>, tag: byte, octets: seq<byte>, value: seq<byte>, post: seq<byte>)
    requires IsLength(octets, |value|)
    ensures var data := pre + ([tag] + octets + value) + post;
      ReadTlv(data, |pre|) == Some((tag, value, |pre| + 1 + |octets| + |value|))
  {
    var data := pre + ([tag] + octets + value) + post;
    var at := |pre|;
    assert data[at] == tag && data[at + 1] == octets[0];
    var valueAt := at + 1 + |octets|;
    assert Slice(data, valueAt, valueAt + |value|) == value;
    if octets[0] >= 0x80 {
      assert Slice(data, at + 2, valueAt) == octets[1..];
    }
  }

  /** The nested elements of one SubjectPublicKeyInfo encoding. */
  datatype SpkiParts = SpkiParts(
    algorithmTag: byte, algorithmValue: seq<byte>, algorithm: seq<byte>,
    unusedBits: byte, bitString: seq<byte>, keySequence: seq<byte>,
    nBody: seq<byte>, nInteger: seq<byte>, eBody: seq<byte>, eInteger: seq<byte>)

  /** `der` encodes the key (n, e): any algorithm element, any length forms, any zero padding. */
  ghost predicate Encodes(der: seq<byte>, p: SpkiParts, n: nat, e: nat) {
    && IsTlv(der, 0x30, p.algorithm + p.bitString)
    && IsTlv(p.algorithm, p.algorithmTag, p.algorithmValue)
    && IsTlv(p.bitString, 0x03, [p.unusedBits] + p.keySequence)
    && IsTlv(p.keySequence, 0x30, p.nInteger + p.eInteger)
    && IsTlv(p.nInteger, 0x02, p.nBody) && FromBytes(p.nBody) == n
    && IsTlv(p.eInteger, 0x02, p.eBody) && FromBytes(p.eBody) == e
  }

  /** Every encoding of a key parses to exactly that key. */
  lemma ParseEncoding(der: seq<byte>, p: SpkiParts, n: nat, e: nat)
    requires Encodes(der, p, n, e)
    ensures ParseSpki(der) == Ok((n, e))
  {
    var bits := [p.unusedBits] + p.keySequence;
    ReadTlvAlone(der, 0x30, p.algorithm + p.bitString);
    ReadTlvPair(p.algorithm, p.algorithmTag, p.algorithmValue, p.bitString, 0x03, bits);
    BehindFirst(p.unusedBits, p.keySequence);
    ParseKeyEncoding(p, n, e);
  }

  lemma BehindFirst(first: byte, rest: seq<byte>)
    ensures Slice([first] + rest, 1, |[first] + rest|) == rest
  {
  }

  lemma ParseKeyEncoding(p: SpkiParts, n: nat, e: nat)
    requires IsTlv(p.keySequence, 0x30, p.nInteger + p.eInteger)
    requires IsTlv(p.nInteger, 0x02, p.nBody) && FromBytes(p.nBody) == n
    requires IsTlv(p.eInteger, 0x02, p.eBody) && FromBytes(p.eBody) == e
    ensures ParseKey(p.keySequence) == Ok((n, e))
  {
    ReadTlvAlone(p.keySequence, 0x30, p.nInteger + p.eInteger);
    ReadTlvPair(p.nInteger, 0x02, p.nBody, p.eInteger, 0x02, p.eBody);
  }

  lemma ReadTlvAlone(enc: seq<byte>, tag: byte, value: seq<byte>)
    requires IsTlv(enc, tag, value)
    ensures ReadTlv(enc, 0) == Some((tag, value, |enc|))
  {
    ReadTlvFirst(enc, tag, value, []);
    assert enc + [] == enc;
  }

  /** Two elements in a row are read one after the other. */
  lemma ReadTlvPair(a: seq<byte>, aTag: byte, aValue: seq<byte>, b: seq<byte>, bTag: byte, bValue: seq<byte>)
    requires IsTlv(a, aTag, aValue) && IsTlv(b, bTag, bValue)
    ensures ReadTlv(a + b, 0) == Some((aTag, aValue, |a|))
    ensures ReadTlv(a + b, |a|) == Some((bTag, bValue, |a| + |b|))
  {
    ReadTlvFirst(a, aTag, aValue, b);
    ReadTlvLast(a, b, bTag, bValue);
  }

  lemma ReadTlvFirst(enc: seq<byte>, tag: byte, value: seq<byte>, post: seq<byte>)
    requires IsTlv(enc, tag, value)
    ensures ReadTlv(enc + post, 0) == Some((tag, value, |enc|))
  {
    ReadTlvAt([], enc, post, tag, value);
    assert [] + enc + post == enc + post;
  }

  lemma ReadTlvLast(pre: seq<byte>, enc: seq<byte>, tag: byte, value: seq<byte>)
    requires IsTlv(enc, tag, value)
    ensures ReadTlv(pre + enc, |pre|) == Some((tag, value, |pre| + |enc|))
  {
    ReadTlvAt(pre, enc, [], tag, value);
    assert pre + enc + [] == pre + enc;
  }

  // ---------------------------------------------------------------------------
  // The distinguished encoding is one of them
  // ---------------------------------------------------------------------------

  /** A count and that many octets. */
  function LongLength(n: nat, k: nat): seq<byte> {
    [(0x80 + k) % 256] + ToBytes(n, k)
  }

  /** The shortest length form. */
  function DerLength(n: nat): seq<byte> {
    if n < 0x80 then [n] else LongLength(n, ByteLength(n))
  }

  /** The length fits the definite form: a count octet holds up to 126 length octets. */
  predicate Sized(value: seq<byte>) {
    ByteLength(|value|) <= 126
  }

  lemma SizedPart(part: seq<byte>, whole: seq<byte>)
    requires Sized(whole) && |part| <= |whole|
    ensures Sized(part)
  {
    ByteLengthMonotone(|part|, |whole|);
  }

  function Tlv(tag: byte, value: seq<byte>): seq<byte> {
    [tag] + DerLength(|value|) + value
  }

  /** Two's-complement body of a positive integer: a zero octet in front of a high top bit. */
  function IntegerBody(n: nat): seq<byte> {
    var b := ToBytes(n, ByteLength(n));
    if b != [] && b[0] >= 0x80 then [0] + b else b
  }

  function DerSpki(n: nat, e: nat, algorithm: seq<byte>): seq<byte> {
    var key := Tlv(0x30, Tlv(0x02, IntegerBody(n)) + Tlv(0x02, IntegerBody(e)));
    Tlv(0x30, algorithm + Tlv(0x03, [0] + key))
  }

  lemma DerLengthIs(n: nat)
    requires ByteLength(n) <= 126
    ensures IsLength(DerLength(n), n)
  {
    if n >= 0x80 {
      ByteLengthBounds(n);
      LongLengthIs(n, ByteLength(n));
    }
  }

  lemma LongLengthIs(n: nat, k: nat)
    requires 1 <= k <= 126 && n < Pow256(k)
    ensures IsLength(LongLength(n, k), n)
  {
    FromToBytes(n, k);
    assert LongLength(n, k)[1..] == ToBytes(n, k);
  }

  lemma TlvIs(tag: byte, value: seq<byte>)
    requires Sized(value)
    ensures IsTlv(Tlv(tag, value), tag, value)
  {
    DerLengthIs(|value|);
    var enc := Tlv(tag, value);
    var i := 1 + |DerLength(|value|)|;
    assert enc[1..i] == DerLength(|value|);
    assert enc[i..] == value;
  }

  lemma IntegerBodyIs(n: nat)
    requires n > 0
    ensures FromBytes(IntegerBody(n)) == n && IntegerBody(n) != [] && IntegerBody(n)[0] < 0x80
  {
    ByteLengthBounds(n);
    FromToBytes(n, ByteLength(n));
    FromBytesLeadingZero(ToBytes(n, ByteLength(n)));
  }

  /** The parts of the distinguished encoding. */
  function DerParts(n: nat, e: nat, algorithmTag: byte, algorithmValue: seq<byte>): SpkiParts {
    var nInt, eInt := Tlv(0x02, IntegerBody(n)), Tlv(0x02, IntegerBody(e));
    var key := Tlv(0x30, nInt + eInt);
    SpkiParts(algorithmTag, algorithmValue, Tlv(algorithmTag, algorithmValue), 0, Tlv(0x03, [0] + key), key,
      IntegerBody(n), nInt, IntegerBody(e), eInt)
  }

  lemma DerSpkiEncodes(n: nat, e: nat, algorithmTag: byte, algorithmValue: seq<byte>)
    requires n > 0 && e > 0
    requires Sized(DerSpki(n, e, Tlv(algorithmTag, algorithmValue)))
    ensures Encodes(DerSpki(n, e, Tlv(algorithmTag, algorithmValue)),
      DerParts(n, e, algorithmTag, algorithmValue), n, e)
  {
    var p := DerParts(n, e, algorithmTag, algorithmValue);
    IntegerBodyIs(n);
    IntegerBodyIs(e);
    var der := DerSpki(n, e, p.algorithm);
    SizedPart(p.nBody, der);
    SizedPart(p.eBody, der);
    SizedPart(p.nInteger + p.eInteger, der);
    SizedPart([0] + p.keySequence, der);
    SizedPart(algorithmValue, der);
    SizedPart(p.algorithm + p.bitString, der);
    TlvIs(0x02, p.nBody);
    TlvIs(0x02, p.eBody);
    TlvIs(0x30, p.nInteger + p.eInteger);
    TlvIs(0x03, [0] + p.keySequence);
    TlvIs(algorithmTag, algorithmValue);
    TlvIs(0x30, p.algorithm + p.bitString);
  }

  /** DER round trip for all positive n and e and any algorithm element. */
  lemma {:induction false} DerRoundTrip(n: nat, e: nat, algorithmTag: byte, algorithmValue: seq<byte>)
    requires n > 0 && e > 0
    requires Sized(DerSpki(n, e, Tlv(algorithmTag, algorithmValue)))
    ensures ParseSpki(DerSpki(n, e, Tlv(algorithmTag, algorithmValue))) == Ok((n, e))
  {
    DerSpkiEncodes(n, e, algorithmTag, algorithmValue);
    ParseEncoding(DerSpki(n, e, Tlv(algorithmTag, algorithmValue)),
      DerParts(n, e, algorithmTag, algorithmValue), n, e);
  }

  // ---------------------------------------------------------------------------
  // Other tags, and too few octets
  // ---------------------------------------------------------------------------

  /** The nesting of a key with any tags in the five places the parser looks at. */
  ghost predicate Nested(der: seq<byte>, p: SpkiParts, tags: seq<byte>) {
    && |tags| == 5
    && IsTlv(der, tags[0], p.algorithm + p.bitString)
    && IsTlv(p.algorithm, p.algorithmTag, p.algorithmValue)
    && IsTlv(p.bitString, tags[1], [p.unusedBits] + p.keySequence)
    && IsTlv(p.keySequence, tags[2], p.nInteger + p.eInteger)
    && IsTlv(p.nInteger, tags[3], p.nBody) && IsTlv(p.eInteger, tags[4], p.eBody)
  }

  /** Each tag is checked, from the outside in, and the first wrong one names the error. */
  lemma {:induction false} TagsDecide(der: seq<byte>, p: SpkiParts, tags: seq<byte>)
    requires Nested(der, p, tags)
    ensures ParseSpki(der) ==
      if tags[0] != 0x30 then Err(NotASequence)
      else if tags[1] != 0x03 then Err(NotABitString)
      else if tags[2] != 0x30 then Err(NotAKeySequence)
      else if tags[3] != 0x02 || tags[4] != 0x02 then Err(NotIntegers)
      else Ok((FromBytes(p.nBody), FromBytes(p.eBody)))
  {
    var bits := [p.unusedBits] + p.keySequence;
    ReadTlvAlone(der, tags[0], p.algorithm + p.bitString);
    ReadTlvPair(p.algorithm, p.algorithmTag, p.algorithmValue, p.bitString, tags[1], bits);
    BehindFirst(p.unusedBits, p.keySequence);
    ReadTlvAlone(p.keySequence, tags[2], p.nInteger + p.eInteger);
    ReadTlvPair(p.nInteger, tags[3], p.nBody, p.eInteger, tags[4], p.eBody);
  }

  /** A sequence that ends where an element has to start: reading it runs out of data. */
  lemma {:induction false} ElementMissing(
      der: seq<byte>, first: seq<byte>, tag: byte, value: seq<byte>, rest: seq<byte>)
    requires IsTlv(der, 0x30, first + rest) && IsTlv(first, tag, value)
    requires |rest| < 2
    ensures ParseSpki(der) == Err(OutOfData)
    ensures ParseKey(der) == Err(OutOfData)
  {
    ReadTlvAlone(der, 0x30, first + rest);
    ReadTlvFirst(first, tag, value, rest);
  }

  /** So does reading less than a tag and a length. */
  lemma {:induction false} TooShort(der: seq<byte>)
    ensures |der| < 2 ==> ParseSpki(der) == Err(OutOfData) && ParseKey(der) == Err(OutOfData)
    ensures IsTlv(der, 0x30, []) ==> ParseSpki(der) == Err(OutOfData) && ParseKey(der) == Err(OutOfData)
  {
    if IsTlv(der, 0x30, []) {
      ReadTlvAlone(der, 0x30, []);
    }
  }

  // ---------------------------------------------------------------------------
  // Object identifiers
  // ---------------------------------------------------------------------------

  /** The leading base-128 digits of an arc, each marked as continued. */
  function Continued(n: nat): seq<byte> {
    if n == 0 then [] else Continued(n / 128) + [0x80 + n % 128]
  }

  /** One arc (section 8.19.2 of X.690). */
  function Arc(n: nat): seq<byte> {
    Continued(n / 128) + [n % 128]
  }

  /** An object identifier: its first two arcs share one number (section 8.19.4 of X.690). */
  function ObjectIdentifier(first: nat, second: nat, arcs: seq<byte>): seq<byte> {
    Tlv(0x06, Arc(40 * first + second) + arcs)
  }
}
