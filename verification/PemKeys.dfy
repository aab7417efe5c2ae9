/**
 * When a whole key, and not only its octets, survives the line filter of the PEM reader: on the
 * texts encoders write, exactly when no line holds a marker; on other wrappings, not always so.
 */
module PemKeys {
  import opened Prelude
  import opened Bytes
  import opened Text
  import opened Der
  import opened DerLoss
  import opened Pem
  import Base64

  /** Lines of 64 characters and a last one of at most 64 (section 2 of RFC 7468). */
  predicate Standard(lines: seq<string>, der: seq<byte>) {
    && Wraps(lines, der)
    && (forall i :: 0 <= i < |lines| - 1 ==> |lines[i]| == 64)
    && (lines != [] ==> |lines[|lines| - 1]| <= 64)
  }

  // ---------------------------------------------------------------------------
  // A long line lost
  // ---------------------------------------------------------------------------

  lemma {:induction false} DataWithin(s: string)
    ensures Base64.DataCount(s) <= |s|
  {
    if s != "" {
      DataWithin(s[1..]);
    }
  }

  /** Alphabet characters, and padding, line by line. */
  function LineData(lines: seq<string>): nat {
    if lines == [] then 0 else Base64.DataCount(lines[0]) + LineData(lines[1..])
  }

  function KeptData(lines: seq<string>): nat {
    if lines == [] then 0
    else (if HasMarker(lines[0]) then 0 else Base64.DataCount(lines[0])) + KeptData(lines[1..])
  }

  function Padding(lines: seq<string>): nat {
    if lines == [] then 0
    else
      DataWithin(lines[0]);
      |lines[0]| - Base64.DataCount(lines[0]) + Padding(lines[1..])
  }

  lemma {:induction false} LineDataIs(lines: seq<string>)
    ensures Base64.DataCount(Flatten(lines)) == LineData(lines)
    ensures |Flatten(lines)| == LineData(lines) + Padding(lines)
  {
    if lines != [] {
      LineDataIs(lines[1..]);
      Base64.DataCountAppend(lines[0], Flatten(lines[1..]));
    }
  }

  lemma {:induction false} KeptDataIs(lines: seq<string>)
    requires forall j :: 0 <= j < |lines| ==> Plain(lines[j]) && lines[j] != ""
    ensures Base64.DataCount(KeptText(lines)) == KeptData(lines)
  {
    if lines != [] {
      KeptDataIs(lines[1..]);
      PlainIsTrimmed(lines[0]);
      Base64.DataCountAppend(lines[0], KeptText(lines[1..]));
    }
  }

  /** A dropped line takes its alphabet characters with it; and it has no more padding than the whole text. */
  lemma {:induction false} DroppedLine(lines: seq<string>, i: nat)
    requires i < |lines|
    ensures HasMarker(lines[i]) ==> KeptData(lines) + Base64.DataCount(lines[i]) <= LineData(lines)
    ensures KeptData(lines) <= LineData(lines)
    ensures |lines[i]| - Base64.DataCount(lines[i]) <= Padding(lines)
  {
    DataWithin(lines[0]);
    if i > 0 {
      DroppedLine(lines[1..], i - 1);
    } else if |lines| > 1 {
      DroppedLine(lines[1..], 0);
    }
  }

  lemma SizeArithmetic(n: nat)
    ensures (4 * n + 2) / 3 + (3 - n % 3) % 3 == (n + 2) / 3 * 4
  {
    var q, r := n / 3, n % 3;
    assert n == 3 * q + r;
  }

  lemma EncodeSize(der: seq<byte>)
    ensures |Base64.Encode(der, Base64.Standard)| == (|der| + 2) / 3 * 4
    ensures |Base64.Encode(der, Base64.Standard)| - Base64.DataCount(Base64.Encode(der, Base64.Standard)) <= 2
  {
    Base64.SextetCount(der);
    Base64.DataCountEncode(der);
    SizeArithmetic(|der|);
  }

  lemma KeptLines(lines: seq<string>, der: seq<byte>)
    requires Wraps(lines, der)
    ensures forall i :: 0 <= i < |lines| ==> Plain(lines[i])
    ensures PemToDer(Armor(lines)) == Base64.Decode(KeptText(lines))
  {
    Base64.EncodeAscii(der, Base64.Standard);
    WrappedLinesPlain(lines);
    ArmorText(lines);
  }

  /** Losing a line of 64 characters loses at least 46 octets. */
  lemma LongLineOctets(lines: seq<string>, der: seq<byte>, i: nat)
    requires Wraps(lines, der) && i < |lines| && HasMarker(lines[i]) && |lines[i]| >= 64
    ensures PemToDer(Armor(lines)).Some? ==> |PemToDer(Armor(lines)).value| + 46 <= |der|
  {
    KeptLines(lines, der);
    LineDataIs(lines);
    KeptDataIs(lines);
    DroppedLine(lines, i);
    EncodeSize(der);
    Base64.DataCountEncode(der);
    FewOctets(KeptText(lines), |der|);
  }

  lemma FewOctets(text: string, n: nat)
    requires Base64.DataCount(text) + 62 <= (4 * n + 2) / 3
    ensures Base64.Decode(text).Some? ==> |Base64.Decode(text).value| + 46 <= n
  {
    Base64.ScanLength(text, 0, 0, 0);
  }

  /** However the text is wrapped, a key is lost with any marked line of 64 characters. */
  lemma LongLineLost(der: seq<byte>, n: nat, e: nat, lines: seq<string>, i: nat)
    requires |der| <= KeySize(n, e) + 45 && Wraps(lines, der)
    requires i < |lines| && HasMarker(lines[i]) && |lines[i]| >= 64
    ensures ParsePem(Armor(lines)) != Ok((n, e))
  {
    LongLineOctets(lines, der, i);
    if ParsePem(Armor(lines)) == Ok((n, e)) {
      ParseTakes(PemToDer(Armor(lines)).value, n, e);
    }
  }

  // ---------------------------------------------------------------------------
  // The last line lost
  // ---------------------------------------------------------------------------

  /** Whole groups of characters are the encoding of whole groups of octets. */
  lemma {:induction false} EncodePrefix(b: seq<byte>, m: nat)
    requires 3 * m <= |b|
    ensures 4 * m <= |Base64.Encode(b, Base64.Standard)|
    ensures Base64.Encode(b, Base64.Standard)[..4 * m] == Base64.Encode(b[..3 * m], Base64.Standard)
    decreases m
  {
    if m == 0 {
      assert b[..0] == [];
    } else {
      EncodePrefix(b[3..], m - 1);
      Base64.EncodeGroup(b, Base64.Standard);
      Base64.EncodeGroup(b[..3 * m], Base64.Standard);
      assert b[..3 * m][3..] == b[3..][..3 * (m - 1)];
      var group := Base64.Chars(Base64.GroupOf(b[0], b[1], b[2]), Base64.Standard);
      var rest := Base64.Encode(b[3..], Base64.Standard);
      assert (group + rest)[..4 * m] == group + rest[..4 * (m - 1)];
    }
  }

  lemma {:induction false} FlattenSize(lines: seq<string>)
    requires forall i :: 0 <= i < |lines| ==> |lines[i]| == 64
    ensures |Flatten(lines)| == 64 * |lines|
  {
    if lines != [] {
      FlattenSize(lines[1..]);
    }
  }

  lemma OnlyLine(line: string)
    ensures Flatten([line]) == line
    ensures HasMarker(line) ==> KeptText([line]) == ""
  {
    assert [line][1..] == [];
  }

  lemma KeptBefore(init: seq<string>, last: string)
    requires forall i :: 0 <= i < |init| ==> Plain(init[i]) && init[i] != "" && !HasMarker(init[i])
    requires HasMarker(last)
    ensures KeptText(init + [last]) == Flatten(init)
  {
    KeptTextAppend(init, [last]);
    AllKept(init);
    OnlyLine(last);
    assert Flatten(init) + "" == Flatten(init);
  }

  lemma FlattenBefore(init: seq<string>, last: string)
    ensures Flatten(init + [last]) == Flatten(init) + last
  {
    FlattenAppend(init, [last]);
    OnlyLine(last);
  }

  /** 64k characters with more behind them encode 48k octets with more behind them. */
  lemma GroupsBefore(der: seq<byte>, text: string, last: string, k: nat)
    requires Base64.Encode(der, Base64.Standard) == text + last && |text| == 64 * k && last != ""
    ensures 48 * k < |der| && text == Base64.Encode(der[..48 * k], Base64.Standard)
  {
    EncodeSize(der);
    EncodePrefix(der, 16 * k);
    assert (text + last)[..64 * k] == text;
  }

  /** What is left is the encoding of the octets before the last line. */
  lemma LastLineOctets(init: seq<string>, last: string, der: seq<byte>)
    requires Wraps(init + [last], der) && HasMarker(last)
    requires forall i :: 0 <= i < |init| ==> |init[i]| == 64 && !HasMarker(init[i])
    ensures 48 * |init| < |der|
    ensures PemToDer(Armor(init + [last])) == Some(der[..48 * |init|])
  {
    var lines := init + [last];
    KeptLines(lines, der);
    assert forall i :: 0 <= i < |init| ==> lines[i] == init[i];
    assert lines[|init|] == last;
    KeptBefore(init, last);
    FlattenBefore(init, last);
    FlattenSize(init);
    GroupsBefore(der, Flatten(init), last, |init|);
    Base64.DecodeEncode(der[..48 * |init|]);
  }

  lemma LastLineLost(der: seq<byte>, p: SpkiParts, n: nat, e: nat, init: seq<string>, last: string)
    requires Encodes(der, p, n, e) && e > 0
    requires Wraps(init + [last], der) && HasMarker(last)
    requires forall i :: 0 <= i < |init| ==> |init[i]| == 64 && !HasMarker(init[i])
    ensures ParsePem(Armor(init + [last])) != Ok((n, e))
  {
    LastLineOctets(init, last, der);
    CutLosesKey(der, p, n, e, 48 * |init|);
  }

  // ---------------------------------------------------------------------------
  // Keys as encoders write them
  // ---------------------------------------------------------------------------

  lemma MarkedLost(der: seq<byte>, p: SpkiParts, n: nat, e: nat, lines: seq<string>, i: nat)
    requires Encodes(der, p, n, e) && e > 0 && |der| <= KeySize(n, e) + 45 && Standard(lines, der)
    requires i < |lines| && HasMarker(lines[i])
    requires forall j :: 0 <= j < i ==> !HasMarker(lines[j])
    ensures ParsePem(Armor(lines)) != Ok((n, e))
  {
    if i < |lines| - 1 {
      LongLineLost(der, n, e, lines, i);
    } else {
      var init, last := lines[..i], lines[i];
      assert lines == init + [last];
      LastLineLost(der, p, n, e, init, last);
    }
  }

  lemma {:induction false} FirstMarked(lines: seq<string>, i: nat) returns (first: nat)
    requires i < |lines| && HasMarker(lines[i])
    ensures first <= i && HasMarker(lines[first]) && forall j :: 0 <= j < first ==> !HasMarker(lines[j])
  {
    if j :| 0 <= j < i && HasMarker(lines[j]) {
      first := FirstMarked(lines, j);
    } else {
      first := i;
    }
  }

  /**
   * A key encoded with no more than 45 octets beyond the least it needs, and wrapped as RFC 7468
   * has it, comes back iff no line holds a marker.
   */
  lemma {:induction false} KeyReturnsIff(der: seq<byte>, p: SpkiParts, n: nat, e: nat, lines: seq<string>)
    requires Encodes(der, p, n, e) && e > 0 && |der| <= KeySize(n, e) + 45 && Standard(lines, der)
    ensures ParsePem(Armor(lines)) == Ok((n, e)) <==> forall i :: 0 <= i < |lines| ==> !HasMarker(lines[i])
  {
    if i :| 0 <= i < |lines| && HasMarker(lines[i]) {
      var first := FirstMarked(lines, i);
      MarkedLost(der, p, n, e, lines, first);
    } else {
      PemRoundTrip(n, e, p, der, lines);
    }
  }

  /** So does every distinguished encoding with an algorithm element of up to 40 octets; RSA's has 15. */
  lemma {:induction false} DistinguishedKeyReturnsIff(
      n: nat, e: nat, algorithmTag: byte, algorithmValue: seq<byte>, lines: seq<string>)
    requires n > 0 && e > 0 && |Tlv(algorithmTag, algorithmValue)| <= 40
    requires Sized(DerSpki(n, e, Tlv(algorithmTag, algorithmValue)))
    requires Standard(lines, DerSpki(n, e, Tlv(algorithmTag, algorithmValue)))
    ensures ParsePem(Armor(lines)) == Ok((n, e)) <==> forall i :: 0 <= i < |lines| ==> !HasMarker(lines[i])
  {
    DerSpkiEncodes(n, e, algorithmTag, algorithmValue);
    EncodingTakes(n, e, Tlv(algorithmTag, algorithmValue));
    KeyReturnsIff(DerSpki(n, e, Tlv(algorithmTag, algorithmValue)),
      DerParts(n, e, algorithmTag, algorithmValue), n, e, lines);
  }

  // ---------------------------------------------------------------------------
  // A key that is lost, and one that is not
  // ---------------------------------------------------------------------------

  /** The m-th group of characters encodes the m-th three octets. */
  lemma {:induction false} GroupAt(b: seq<byte>, m: nat)
    requires 3 * m + 3 <= |b|
    ensures |Base64.Encode(b, Base64.Standard)| >= 4 * m + 4
    ensures Base64.Encode(b, Base64.Standard)[4 * m..4 * m + 4]
      == Base64.Chars(Base64.GroupOf(b[3 * m], b[3 * m + 1], b[3 * m + 2]), Base64.Standard)
    decreases m
  {
    Base64.EncodeGroup(b, Base64.Standard);
    if m > 0 {
      GroupAt(b[3..], m - 1);
      ShiftFour(Base64.Encode(b, Base64.Standard), Base64.Encode(b[3..], Base64.Standard), m - 1);
    }
  }

  lemma ShiftFour(text: string, rest: string, m: nat)
    requires |text| == |rest| + 4 && text[4..] == rest && 4 * m + 4 <= |rest|
    ensures text[4 * (m + 1)..4 * (m + 1) + 4] == rest[4 * m..4 * m + 4]
  {
  }

  /** The octets 10 d0 and one from c0 on, in step with the groups, are "END" and one character. */
  lemma EndOctets(b: seq<byte>, m: nat)
    requires 3 * m + 3 <= |b| && b[3 * m] == 0x10 && b[3 * m + 1] == 0xd0 && b[3 * m + 2] >= 0xc0
    ensures HasMarker(Base64.Encode(b, Base64.Standard))
  {
    GroupAt(b, m);
    var text := Base64.Encode(b, Base64.Standard);
    assert Base64.GroupOf(0x10, 0xd0, b[3 * m + 2])[..3] == [4, 13, 3];
    assert text[4 * m..4 * m + 3] == text[4 * m..4 * m + 4][..3] == "END";
    assert OccursAt(text, "END", 4 * m);
  }

  /** rsaEncryption with its null parameters. */
  const RSA: seq<byte> := [0x06, 0x09, 0x2a, 0x86, 0x48, 0x86, 0xf7, 0x0d, 0x01, 0x01, 0x01, 0x05, 0x00]

  lemma RsaArcs()
    ensures Arc(42) == [0x2a] && Arc(840) == [0x86, 0x48] && Arc(113549) == [0x86, 0xf7, 0x0d] && Arc(1) == [0x01]
  {
    assert Continued(0) == [] && Continued(6) == [0x86] && Continued(887) == [0x86, 0xf7];
  }

  /** That is the identifier 1.2.840.113549.1.1.1 and NULL. */
  lemma RsaIs()
    ensures RSA == ObjectIdentifier(1, 2, Arc(840) + Arc(113549) + Arc(1) + Arc(1) + Arc(1)) + Tlv(0x05, [])
  {
    RsaArcs();
    NineOctets([0x2a] + [0x86, 0x48, 0x86, 0xf7, 0x0d, 0x01, 0x01, 0x01]);
  }

  lemma NineOctets(value: seq<byte>)
    requires |value| == 9
    ensures Tlv(0x06, value) + Tlv(0x05, []) == [0x06, 0x09] + value + [0x05, 0x00]
  {
  }

  /** A key of modulus 10d0c1 and exponent 3. */
  const LostParts: SpkiParts := SpkiParts(
    0x30, RSA, [0x30, 0x0d] + RSA,
    0, [0x03, 0x0b, 0x00, 0x30, 0x08, 0x02, 0x03, 0x10, 0xd0, 0xc1, 0x02, 0x01, 0x03],
    [0x30, 0x08, 0x02, 0x03, 0x10, 0xd0, 0xc1, 0x02, 0x01, 0x03],
    [0x10, 0xd0, 0xc1], [0x02, 0x03, 0x10, 0xd0, 0xc1], [0x03], [0x02, 0x01, 0x03])

  const LostDer: seq<byte> := [0x30, 0x1c] + (LostParts.algorithm + LostParts.bitString)

  /** A tag, a short length and the value. */
  lemma ShortTlv(enc: seq<byte>, tag: byte, value: seq<byte>)
    requires |value| < 0x80 && enc == [tag, |value|] + value
    ensures IsTlv(enc, tag, value)
  {
    assert enc[1..2] == [|value|] && enc[2..] == value;
  }

  lemma LostEncodes()
    ensures Encodes(LostDer, LostParts, 0x10d0c1, 3)
  {
    var p := LostParts;
    ShortTlv(LostDer, 0x30, p.algorithm + p.bitString);
    ShortTlv(p.algorithm, 0x30, RSA);
    ShortTlv(p.bitString, 0x03, [0] + p.keySequence);
    ShortTlv(p.keySequence, 0x30, p.nInteger + p.eInteger);
    ShortTlv(p.nInteger, 0x02, p.nBody);
    ShortTlv(p.eInteger, 0x02, p.eBody);
    FromBytesAppend([0x10, 0xd0], [0xc1]);
    FromBytesAppend([0x10], [0xd0]);
    assert p.nBody == [0x10, 0xd0] + [0xc1] && [0x10 as byte] + [0xd0] == [0x10, 0xd0];
  }

  lemma OneLine(der: seq<byte>)
    requires 0 < |der| <= 48
    ensures Standard([Base64.Encode(der, Base64.Standard)], der)
  {
    EncodeSize(der);
    var line := Base64.Encode(der, Base64.Standard);
    assert [line][1..] == [];
    assert Flatten([line]) == line + "" == line;
    assert 0 < |line| <= 64;
  }

  lemma LostOctets()
    ensures |LostDer| == 30 && LostDer[24] == 0x10 && LostDer[25] == 0xd0 && LostDer[26] == 0xc1
  {
  }

  /** This RSA key, in the form encoders write, does not come back. */
  lemma LostKey()
    ensures var lines := [Base64.Encode(LostDer, Base64.Standard)];
      && Encodes(LostDer, LostParts, 0x10d0c1, 3) && Standard(lines, LostDer)
      && ParsePem(Armor(lines)) != Ok((0x10d0c1, 3))
  {
    LostEncodes();
    LostOctets();
    OneLine(LostDer);
    EndOctets(LostDer, 8);
    KeyReturnsIff(LostDer, LostParts, 0x10d0c1, 3, [Base64.Encode(LostDer, Base64.Standard)]);
  }

  /** A key of modulus 64 and exponent 64, twice: the second one inside the first one's algorithm element. */
  const InnerParts: SpkiParts := SpkiParts(
    0x05, [], [0x05, 0x00],
    0, [0x03, 0x09, 0x00, 0x30, 0x06, 0x02, 0x01, 0x40, 0x02, 0x01, 0x40],
    [0x30, 0x06, 0x02, 0x01, 0x40, 0x02, 0x01, 0x40],
    [0x40], [0x02, 0x01, 0x40], [0x40], [0x02, 0x01, 0x40])

  const InnerDer: seq<byte> := [0x30, 0x0d] + (InnerParts.algorithm + InnerParts.bitString)

  const OuterParts: SpkiParts := InnerParts.(
    algorithmTag := 0x04,
    algorithmValue := [0x00, 0x00, 0x10, 0xd0, 0xc0] + InnerDer,
    algorithm := [0x04, 0x14] + ([0x00, 0x00, 0x10, 0xd0, 0xc0] + InnerDer))

  const OuterDer: seq<byte> := [0x30, 0x21] + (OuterParts.algorithm + OuterParts.bitString)

  lemma InnerOuterElements()
    ensures IsTlv(InnerDer, 0x30, InnerParts.algorithm + InnerParts.bitString)
    ensures IsTlv(InnerParts.algorithm, InnerParts.algorithmTag, InnerParts.algorithmValue)
    ensures IsTlv(InnerParts.bitString, 0x03, [InnerParts.unusedBits] + InnerParts.keySequence)
  {
    var p := InnerParts;
    ShortTlv(InnerDer, 0x30, p.algorithm + p.bitString);
    ShortTlv(p.algorithm, 0x05, []);
    ShortTlv(p.bitString, 0x03, [0] + p.keySequence);
  }

  lemma InnerEncodes()
    ensures Encodes(InnerDer, InnerParts, 64, 64)
  {
    var p := InnerParts;
    InnerOuterElements();
    ShortTlv(p.keySequence, 0x30, p.nInteger + p.eInteger);
    ShortTlv(p.nInteger, 0x02, p.nBody);
  }

  lemma OuterEncodes()
    ensures Encodes(OuterDer, OuterParts, 64, 64)
  {
    var p := OuterParts;
    InnerEncodes();
    ShortTlv(OuterDer, 0x30, p.algorithm + p.bitString);
    ShortTlv(p.algorithm, 0x04, p.algorithmValue);
  }

  /** Sextet 13 is the letter N, without which there is no marker. */
  predicate NoN(b: seq<byte>) {
    13 !in Base64.Sextets(b)
  }

  predicate NoNAt(b: seq<byte>, m: nat)
    requires 3 * m + 3 <= |b|
  {
    13 !in Base64.GroupOf(b[3 * m], b[3 * m + 1], b[3 * m + 2])
  }

  lemma {:induction false} NoNByGroups(b: seq<byte>, k: nat)
    requires 3 * k <= |b| && NoN(b[3 * k..])
    requires forall m :: 0 <= m < k ==> NoNAt(b, m)
    ensures NoN(b)
    decreases k
  {
    if k == 0 {
      assert b[0..] == b;
    } else {
      var rest := b[3..];
      assert rest[3 * (k - 1)..] == b[3 * k..];
      forall m | 0 <= m < k - 1
        ensures NoNAt(rest, m)
      {
        assert NoNAt(b, m + 1);
      }
      NoNByGroups(rest, k - 1);
      assert NoNAt(b, 0);
      assert Base64.Sextets(b) == Base64.GroupOf(b[0], b[1], b[2]) + Base64.Sextets(rest);
    }
  }

  lemma MarkerNeedsN(text: string)
    requires HasMarker(text)
    ensures 'N' in text
  {
    if i :| 0 <= i <= |text| && OccursAt(text, "END", i) {
      assert text[i + 1] == text[i..i + 3][1] == 'N';
    } else {
      var i :| 0 <= i <= |text| && OccursAt(text, "BEGIN", i);
      assert text[i + 4] == text[i..i + 5][4] == 'N';
    }
  }

  lemma NoNNoMarker(b: seq<byte>)
    requires NoN(b)
    ensures !HasMarker(Base64.Encode(b, Base64.Standard))
  {
    var text, vs := Base64.Encode(b, Base64.Standard), Base64.Sextets(b);
    forall i | 0 <= i < |text|
      ensures text[i] != 'N'
    {
      if i < |vs| {
        assert vs[i] != 13;
      }
    }
    if HasMarker(text) {
      MarkerNeedsN(text);
    }
  }

  /** What follows the first nine octets: the inner encoding, and the rest of the outer one. */
  const SecondOctets: seq<byte> := [
    0x30, 0x0d, 0x05, 0x00, 0x03, 0x09, 0x00, 0x30, 0x06, 0x02, 0x01, 0x40, 0x02, 0x01, 0x40,
    0x03, 0x09, 0x00, 0x30, 0x06, 0x02, 0x01, 0x40, 0x02, 0x01, 0x40]

  lemma Behind(a: seq<byte>, b: seq<byte>, c: seq<byte>, inner: seq<byte>, post: seq<byte>)
    ensures (a + ((b + (c + inner)) + post))[|a| + |b| + |c|..] == inner + post
  {
  }

  lemma SecondIs()
    ensures OuterDer[9..] == SecondOctets == InnerDer + OuterParts.bitString
  {
    Behind([0x30, 0x21], [0x04, 0x14], [0x00, 0x00, 0x10, 0xd0, 0xc0], InnerDer, OuterParts.bitString);
    InnerAndRest();
  }

  lemma InnerAndRest()
    ensures InnerDer + OuterParts.bitString == SecondOctets
  {
  }

  lemma FirstGroupsUnmarked()
    ensures forall m :: 0 <= m < 4 ==> NoNAt(SecondOctets, m)
  {
  }

  lemma LastGroupsUnmarked()
    ensures forall m :: 4 <= m < 8 ==> NoNAt(SecondOctets, m)
  {
  }

  lemma TailUnmarked()
    ensures NoN(SecondOctets[24..])
  {
    assert SecondOctets[24..] == [0x01, 0x40];
    assert Base64.Sextets([0x01, 0x40]) == [0, 20, 0];
  }

  lemma SecondUnmarked()
    ensures NoN(SecondOctets)
  {
    FirstGroupsUnmarked();
    LastGroupsUnmarked();
    TailUnmarked();
    NoNByGroups(SecondOctets, 8);
  }

  lemma FirstOctets()
    ensures OuterDer[..9] == [0x30, 0x21, 0x04, 0x14, 0x00, 0x00, 0x10, 0xd0, 0xc0]
  {
  }

  lemma FirstMarkedLine()
    ensures HasMarker(Base64.Encode(OuterDer[..9], Base64.Standard))
  {
    FirstOctets();
    EndOctets([0x30, 0x21, 0x04, 0x14, 0x00, 0x00, 0x10, 0xd0, 0xc0], 2);
  }

  /** The two lines: nine octets with a marker among them, and the rest. */
  function TwoLines(): seq<string> {
    [Base64.Encode(OuterDer[..9], Base64.Standard), Base64.Encode(OuterDer[9..], Base64.Standard)]
  }

  /** Wrapped otherwise a key can come back though a line of it is dropped: what is left encodes it too. */
  lemma SurvivingKey()
    ensures Encodes(OuterDer, OuterParts, 64, 64) && Wraps(TwoLines(), OuterDer)
    ensures HasMarker(TwoLines()[0]) && ParsePem(Armor(TwoLines())) == Ok((64, 64))
  {
    OuterEncodes();
    InnerEncodes();
    FirstMarkedLine();
    SecondIs();
    SecondUnmarked();
    NoNNoMarker(SecondOctets);
    TwoLinesWrap(OuterDer);
    KeptLines(TwoLines(), OuterDer);
    KeptSecond(TwoLines()[0], TwoLines()[1]);
    Base64.DecodeEncode(OuterDer[9..]);
    ParseEncoding(InnerDer, InnerParts, 64, 64);
    TrailingIgnored(InnerDer, 0x30, InnerParts.algorithm + InnerParts.bitString, OuterParts.bitString);
  }

  lemma TwoLinesWrap(b: seq<byte>)
    requires |b| > 9
    ensures Wraps([Base64.Encode(b[..9], Base64.Standard), Base64.Encode(b[9..], Base64.Standard)], b)
  {
    EncodeSplit(b, 3);
    EncodeSize(b[..9]);
    EncodeSize(b[9..]);
    var first, second := Base64.Encode(b[..9], Base64.Standard), Base64.Encode(b[9..], Base64.Standard);
    assert [first, second][1..] == [second] && [second][1..] == [];
    assert Flatten([second]) == second;
  }

  lemma {:induction false} EncodeSplit(b: seq<byte>, m: nat)
    requires 3 * m <= |b|
    ensures Base64.Encode(b, Base64.Standard)
      == Base64.Encode(b[..3 * m], Base64.Standard) + Base64.Encode(b[3 * m..], Base64.Standard)
  {
    EncodePrefix(b, m);
    EncodeSuffix(b, m);
    var text := Base64.Encode(b, Base64.Standard);
    assert text == text[..4 * m] + text[4 * m..];
  }

  lemma {:induction false} EncodeSuffix(b: seq<byte>, m: nat)
    requires 3 * m <= |b|
    ensures 4 * m <= |Base64.Encode(b, Base64.Standard)|
    ensures Base64.Encode(b, Base64.Standard)[4 * m..] == Base64.Encode(b[3 * m..], Base64.Standard)
    decreases m
  {
    if m == 0 {
      assert b[0..] == b;
    } else {
      EncodeSuffix(b[3..], m - 1);
      Base64.EncodeGroup(b, Base64.Standard);
      assert b[3..][3 * (m - 1)..] == b[3 * m..];
      var rest := Base64.Encode(b[3..], Base64.Standard);
      assert Base64.Encode(b, Base64.Standard)[4 * m..] == rest[4 * (m - 1)..];
    }
  }

  lemma KeptSecond(first: string, second: string)
    requires HasMarker(first) && !HasMarker(second) && Plain(second) && second != ""
    ensures KeptText([first, second]) == second
  {
    PlainIsTrimmed(second);
    assert [first, second][1..] == [second] && [second][1..] == [];
    assert KeptText([second]) == second + "" == second;
  }
}
