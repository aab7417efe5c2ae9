/**
 * What losing octets does to an encoded key: the reader clips values instead of checking lengths,
 * so it may accept what is left, but never as the same key once the tail or enough octets are gone.
 */
module DerLoss {
  import opened Prelude
  import opened Bytes
  import opened Der

  // ---------------------------------------------------------------------------
  // The least octets a key takes
  // ---------------------------------------------------------------------------

  /** Octets of an element with an m-octet value in its shortest form. */
  function TlvSize(m: nat): nat {
    if m < 0x80 then m + 2 else m + 2 + ByteLength(m)
  }

  lemma TlvIsSize(tag: byte, value: seq<byte>)
    ensures |Tlv(tag, value)| == TlvSize(|value|)
  {
  }

  lemma TlvSizeMonotone(i: nat, j: nat)
    requires i <= j
    ensures TlvSize(i) <= TlvSize(j)
  {
    ByteLengthMonotone(i, j);
  }

  /** A little more value takes at most one more length octet. */
  lemma TlvSizeGrows(m: nat, k: nat)
    requires k <= 100
    ensures TlvSize(m + k) <= TlvSize(m) + k + 1
  {
    if m >= 0x80 {
      ByteLengthShift(m);
      ByteLengthMonotone(m + k, 256 * m);
    } else if m + k >= 0x80 {
      ByteLengthIsOne(m + k);
    }
  }

  lemma ByteLengthShift(m: nat)
    requires m > 0
    ensures ByteLength(256 * m) == ByteLength(m) + 1
  {
    BitLengthStep(256 * m);
  }

  lemma ByteLengthIsOne(m: nat)
    requires 0 < m < 256
    ensures ByteLength(m) == 1
  {
    BitLengthSmall(m);
  }

  /** A value below 256^k needs at most k octets. */
  lemma ByteLengthWithin(m: nat, k: nat)
    requires m < Pow256(k)
    ensures ByteLength(m) <= k
  {
    if m > 0 {
      ByteLengthBounds(m);
      if ByteLength(m) > k {
        Pow256Monotone(k, ByteLength(m) - 1);
      }
    }
  }

  /** An element read holds no more value than the data has room for, length octets included. */
  lemma ReadTlvSize(data: seq<byte>, at: nat)
    requires ReadTlv(data, at).Some?
    ensures at + TlvSize(|ReadTlv(data, at).value.1|) <= |data|
    ensures ReadTlv(data, at).value.2 <= |data| ==>
      at + TlvSize(|ReadTlv(data, at).value.1|) <= ReadTlv(data, at).value.2
    ensures at + 2 <= ReadTlv(data, at).value.2
  {
    var (_, value, _) := ReadTlv(data, at).value;
    if data[at + 1] >= 0x80 && |value| >= 0x80 {
      var count := data[at + 1] - 0x80;
      var octets := Slice(data, at + 2, at + 2 + count);
      FromBytesBound(octets);
      ByteLengthWithin(FromBytes(octets), |octets|);
      ByteLengthMonotone(|value|, FromBytes(octets));
    }
  }

  /** The least octets the integer, key and outer elements of a key take. */
  function IntegersSize(n: nat, e: nat): nat {
    TlvSize(ByteLength(n)) + TlvSize(ByteLength(e))
  }

  function KeySize(n: nat, e: nat): nat {
    TlvSize(2 + TlvSize(1 + TlvSize(IntegersSize(n, e))))
  }

  lemma ValueTakes(value: seq<byte>, n: nat)
    requires FromBytes(value) == n
    ensures TlvSize(ByteLength(n)) <= TlvSize(|value|)
  {
    FromBytesBound(value);
    ByteLengthWithin(n, |value|);
    TlvSizeMonotone(ByteLength(n), |value|);
  }

  lemma ParseKeyTakes(rsaPub: seq<byte>, n: nat, e: nat)
    requires ParseKey(rsaPub) == Ok((n, e))
    ensures TlvSize(IntegersSize(n, e)) <= |rsaPub|
  {
    var rk := ReadTlv(rsaPub, 0).value.1;
    var (_, nValue, next) := ReadTlv(rk, 0).value;
    var eValue := ReadTlv(rk, next).value.1;
    ReadTlvSize(rsaPub, 0);
    ReadTlvSize(rk, 0);
    ReadTlvSize(rk, next);
    ValueTakes(nValue, n);
    ValueTakes(eValue, e);
    TlvSizeMonotone(IntegersSize(n, e), |rk|);
  }

  /** Nothing shorter than this parses to the key. */
  lemma ParseTakes(der: seq<byte>, n: nat, e: nat)
    requires ParseSpki(der) == Ok((n, e))
    ensures KeySize(n, e) <= |der|
  {
    var spki := ReadTlv(der, 0).value.1;
    var at := ReadTlv(spki, 0).value.2;
    var bits := ReadTlv(spki, at).value.1;
    ReadTlvSize(der, 0);
    ReadTlvSize(spki, 0);
    ReadTlvSize(spki, at);
    ParseKeyTakes(Slice(bits, 1, |bits|), n, e);
    TlvSizeMonotone(1 + TlvSize(IntegersSize(n, e)), |bits|);
    TlvSizeMonotone(2 + TlvSize(1 + TlvSize(IntegersSize(n, e))), |spki|);
  }

  lemma IntegerTakes(n: nat)
    ensures TlvSize(|IntegerBody(n)|) <= TlvSize(ByteLength(n)) + 2
  {
    TlvSizeGrows(ByteLength(n), 1);
  }

  lemma IntegersTake(n: nat, e: nat)
    ensures |Tlv(0x30, Tlv(0x02, IntegerBody(n)) + Tlv(0x02, IntegerBody(e)))| <= TlvSize(IntegersSize(n, e)) + 5
  {
    var nInt, eInt := Tlv(0x02, IntegerBody(n)), Tlv(0x02, IntegerBody(e));
    TlvIsSize(0x02, IntegerBody(n));
    TlvIsSize(0x02, IntegerBody(e));
    IntegerTakes(n);
    IntegerTakes(e);
    WrapTakes(0x30, nInt + eInt, IntegersSize(n, e), 4);
  }

  lemma WrapTakes(tag: byte, value: seq<byte>, m: nat, k: nat)
    requires |value| <= m + k && k <= 100
    ensures |Tlv(tag, value)| <= TlvSize(m) + k + 1
  {
    TlvIsSize(tag, value);
    TlvSizeMonotone(|value|, m + k);
    TlvSizeGrows(m, k);
  }

  /** The distinguished encoding is not much longer than that. */
  lemma EncodingTakes(n: nat, e: nat, algorithm: seq<byte>)
    requires |algorithm| <= 40
    ensures |DerSpki(n, e, algorithm)| <= KeySize(n, e) + 45
  {
    var key := Tlv(0x30, Tlv(0x02, IntegerBody(n)) + Tlv(0x02, IntegerBody(e)));
    var t := TlvSize(IntegersSize(n, e));
    IntegersTake(n, e);
    WrapTakes(0x03, [0] + key, 1 + t, 5);
    WrapTakes(0x30, algorithm + Tlv(0x03, [0] + key), 2 + TlvSize(1 + t), 44);
  }

  // ---------------------------------------------------------------------------
  // Truncation
  // ---------------------------------------------------------------------------

  predicate ProperPrefix(v: seq<byte>, value: seq<byte>) {
    |v| < |value| && v == value[..|v|]
  }

  /** Reading a cut element gives nothing or a cut value, and a position behind all the data. */
  lemma ReadCut(pre: seq<byte>, enc: seq<byte>, tag: byte, value: seq<byte>, m: nat)
    requires IsTlv(enc, tag, value) && m < |enc|
    ensures var r := ReadTlv(pre + enc[..m], |pre|);
      r.Some? ==> r.value.2 > |pre| + m && (value != [] ==> ProperPrefix(r.value.1, value))
  {
    var i :| 2 <= i <= |enc| && enc[0] == tag && IsLength(enc[1..i], |value|) && enc[i..] == value;
    assert enc == [tag] + enc[1..i] + value;
    if m >= 2 {
      ReadCutParts(pre, enc, enc[1..i], value, m);
    }
  }

  lemma ReadCutParts(pre: seq<byte>, enc: seq<byte>, octets: seq<byte>, value: seq<byte>, m: nat)
    requires IsLength(octets, |value|) && |enc| == 1 + |octets| + |value| && 2 <= m < |enc|
    requires enc[1..1 + |octets|] == octets && enc[1 + |octets|..] == value
    ensures var r := ReadTlv(pre + enc[..m], |pre|);
      r.Some? && r.value.2 > |pre| + m && (value != [] ==> ProperPrefix(r.value.1, value))
  {
    var data, at := pre + enc[..m], |pre|;
    var valueAt := at + 1 + |octets|;
    assert data[at + 1] == enc[1] == octets[0];
    if valueAt <= |data| {
      LengthOctets(pre, enc, octets, m);
      assert data[valueAt..] == value[..|data| - valueAt];
      CutValue(data, valueAt, value, |data| - valueAt);
    }
  }

  lemma LengthOctets(pre: seq<byte>, enc: seq<byte>, octets: seq<byte>, m: nat)
    requires octets != [] && 1 + |octets| <= m <= |enc| && enc[1..1 + |octets|] == octets
    ensures Slice(pre + enc[..m], |pre| + 2, |pre| + 1 + |octets|) == octets[1..]
  {
    assert octets[1..] == enc[2..1 + |octets|];
  }

  lemma CutValue(data: seq<byte>, at: nat, value: seq<byte>, k: nat)
    requires at + k == |data| && k < |value| && data[at..] == value[..k]
    ensures ProperPrefix(Slice(data, at, at + |value|), value)
  {
  }

  lemma AppendingRaises(x: nat, q: nat, y: nat)
    requires q >= 256 && x * q + y > 0
    ensures x < x * q + y
  {
    if x > 0 {
      assert x * q >= x * 256;
    }
  }

  /** A cut value of a positive integer is a smaller one. */
  lemma CutInteger(v: seq<byte>, body: seq<byte>)
    requires ProperPrefix(v, body) && FromBytes(body) > 0
    ensures FromBytes(v) < FromBytes(body)
  {
    var rest := body[|v|..];
    assert body == v + rest;
    FromBytesAppend(v, rest);
    Pow256Monotone(1, |rest|);
    assert Pow256(1) == 256 * Pow256(0);
    AppendingRaises(FromBytes(v), Pow256(|rest|), FromBytes(rest));
  }

  /** The second of two elements in a row. */
  function Second(v: seq<byte>): Option<(byte, seq<byte>, nat)> {
    match ReadTlv(v, 0)
    case None => None
    case Some((_, _, next)) => ReadTlv(v, next)
  }

  lemma CutInFirst(a: seq<byte>, aTag: byte, aValue: seq<byte>, v: seq<byte>)
    requires IsTlv(a, aTag, aValue) && |v| < |a| && v == a[..|v|]
    ensures Second(v).None?
  {
    assert [] + a[..|v|] == v;
    ReadCut([], a, aTag, aValue, |v|);
  }

  lemma CutInSecond(
      a: seq<byte>, aTag: byte, aValue: seq<byte>, b: seq<byte>, bTag: byte, bValue: seq<byte>, v: seq<byte>, m: nat)
    requires IsTlv(a, aTag, aValue) && IsTlv(b, bTag, bValue) && bValue != [] && m < |b| && v == a + b[..m]
    ensures Second(v).Some? ==> ProperPrefix(Second(v).value.1, bValue)
  {
    ReadTlvFirst(a, aTag, aValue, b[..m]);
    ReadCut(a, b, bTag, bValue, m);
  }

  lemma CutWhere(a: seq<byte>, b: seq<byte>, v: seq<byte>)
    requires ProperPrefix(v, a + b)
    ensures if |v| < |a| then v == a[..|v|] else |v| - |a| < |b| && v == a + b[..|v| - |a|]
  {
  }

  /** Two elements in a row, cut: the second is missing, or it is what was cut. */
  lemma ReadCutPair(
      a: seq<byte>, aTag: byte, aValue: seq<byte>, b: seq<byte>, bTag: byte, bValue: seq<byte>, v: seq<byte>)
    requires IsTlv(a, aTag, aValue) && IsTlv(b, bTag, bValue) && bValue != [] && ProperPrefix(v, a + b)
    ensures Second(v).Some? ==> ProperPrefix(Second(v).value.1, bValue)
  {
    CutWhere(a, b, v);
    if |v| < |a| {
      CutInFirst(a, aTag, aValue, v);
    } else {
      CutInSecond(a, aTag, aValue, b, bTag, bValue, v, |v| - |a|);
    }
  }

  lemma CutKey(p: SpkiParts, n: nat, e: nat, v: seq<byte>)
    requires IsTlv(p.keySequence, 0x30, p.nInteger + p.eInteger)
    requires IsTlv(p.nInteger, 0x02, p.nBody)
    requires IsTlv(p.eInteger, 0x02, p.eBody) && FromBytes(p.eBody) == e && e > 0
    requires ProperPrefix(v, p.keySequence)
    ensures ParseKey(v) != Ok((n, e))
  {
    assert v == [] + p.keySequence[..|v|];
    ReadCut([], p.keySequence, 0x30, p.nInteger + p.eInteger, |v|);
    if ParseKey(v).Ok? {
      var rk := ReadTlv(v, 0).value.1;
      ReadCutPair(p.nInteger, 0x02, p.nBody, p.eInteger, 0x02, p.eBody, rk);
      CutInteger(Second(rk).value.1, p.eBody);
    }
  }

  lemma CutBits(v: seq<byte>, unusedBits: byte, key: seq<byte>)
    requires ProperPrefix(v, [unusedBits] + key) && key != []
    ensures ProperPrefix(Slice(v, 1, |v|), key)
  {
    if v != [] {
      assert ([unusedBits] + key)[..|v|][1..] == key[..|v| - 1];
    }
  }

  /** No encoding of a key still parses to it when any of its last octets are cut off. */
  lemma {:induction false} CutLosesKey(der: seq<byte>, p: SpkiParts, n: nat, e: nat, j: nat)
    requires Encodes(der, p, n, e) && e > 0 && j < |der|
    ensures ParseSpki(der[..j]) != Ok((n, e))
  {
    var bits := [p.unusedBits] + p.keySequence;
    assert der[..j] == [] + der[..j];
    ReadCut([], der, 0x30, p.algorithm + p.bitString, j);
    if ParseSpki(der[..j]).Ok? {
      var spki := ReadTlv(der[..j], 0).value.1;
      ReadCutPair(p.algorithm, p.algorithmTag, p.algorithmValue, p.bitString, 0x03, bits, spki);
      var v := Second(spki).value.1;
      CutBits(v, p.unusedBits, p.keySequence);
      CutKey(p, n, e, Slice(v, 1, |v|));
    }
  }

  /** Octets behind the outermost element are not looked at. */
  lemma TrailingIgnored(der: seq<byte>, tag: byte, value: seq<byte>, post: seq<byte>)
    requires IsTlv(der, tag, value)
    ensures ParseSpki(der + post) == ParseSpki(der)
  {
    ReadTlvFirst(der, tag, value, post);
    ReadTlvAlone(der, tag, value);
  }
}
