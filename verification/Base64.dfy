/**
 * Base64 (sections 4 and 5 of RFC 4648). Encoding follows the specification; decoding follows
 * the character automaton of Python's non-strict `binascii.a2b_base64`, which skips characters
 * outside the alphabet and stops at a complete padding.
 */
module Base64 {
  import opened Prelude
  import opened Bytes

  type sextet = x: int | 0 <= x < 64

  datatype Alphabet = Standard | UrlSafe

  function SextetChar(v: sextet, alphabet: Alphabet): char {
    if v < 26 then (65 + v) as char
    else if v < 52 then (71 + v) as char
    else if v < 62 then (v - 4) as char
    else if v == 62 then (if alphabet == Standard then '+' else '-')
    else if alphabet == Standard then '/' else '_'
  }

  /** The standard decoding table. */
  function CharSextet(c: char): Option<sextet> {
    if 'A' <= c <= 'Z' then Some(c as int - 65)
    else if 'a' <= c <= 'z' then Some(c as int - 71)
    else if '0' <= c <= '9' then Some(c as int + 4)
    else if c == '+' then Some(62)
    else if c == '/' then Some(63)
    else None
  }

  /** The 6-bit groups of an octet string, the last group padded with zero bits. */
  function Sextets(b: seq<byte>): seq<sextet> {
    if |b| == 0 then []
    else if |b| == 1 then [b[0] / 4, b[0] % 4 * 16]
    else if |b| == 2 then [b[0] / 4, b[0] % 4 * 16 + b[1] / 16, b[1] % 16 * 4]
    else GroupOf(b[0], b[1], b[2]) + Sextets(b[3..])
  }

  function Chars(vs: seq<sextet>, alphabet: Alphabet): (s: string)
    ensures |s| == |vs|
    ensures forall i :: 0 <= i < |vs| ==> s[i] == SextetChar(vs[i], alphabet)
  {
    seq(|vs|, i requires 0 <= i < |vs| => SextetChar(vs[i], alphabet))
  }

  /** The four sextets of three octets. */
  function GroupOf(x: byte, y: byte, z: byte): seq<sextet> {
    [x / 4, x % 4 * 16 + y / 16, y % 16 * 4 + z / 64, z % 64]
  }

  function PadCount(b: seq<byte>): nat {
    (3 - |b| % 3) % 3
  }

  /** base64.b64encode and base64.urlsafe_b64encode. */
  function Encode(b: seq<byte>, alphabet: Alphabet): string {
    Chars(Sextets(b), alphabet) + Repeat('=', PadCount(b))
  }

  /** The decoding automaton: position in the group of four, leftover bits, padding seen. */
  function Scan(s: string, quad: nat, left: nat, pads: nat): Option<seq<byte>>
    requires quad < 4
    requires quad == 1 ==> left < 64
    requires quad == 2 ==> left < 16
    requires quad == 3 ==> left < 4
  {
    if s == "" then (if quad == 0 then Some([]) else None)
    else if s[0] == '=' then
      if quad >= 2 && quad + pads + 1 >= 4 then Some([])
      else Scan(s[1..], quad, left, if quad >= 2 then pads + 1 else pads)
    else match CharSextet(s[0])
      case None => Scan(s[1..], quad, left, pads)
      case Some(v) =>
        if quad == 0 then Scan(s[1..], 1, v, 0)
        else if quad == 1 then Prepend(left * 4 + v / 16, Scan(s[1..], 2, v % 16, 0))
        else if quad == 2 then Prepend(left * 16 + v / 4, Scan(s[1..], 3, v % 4, 0))
        else Prepend(left * 64 + v, Scan(s[1..], 0, 0, 0))
  }

  function Prepend(x: byte, r: Option<seq<byte>>): Option<seq<byte>> {
    match r
    case None => None
    case Some(b) => Some([x] + b)
  }

  predicate IsAscii(s: string) {
    forall i :: 0 <= i < |s| ==> s[i] as int < 128
  }

  /** base64.b64decode of a text; None stands for the ValueError it raises. */
  function Decode(s: string): Option<seq<byte>> {
    if IsAscii(s) then Scan(s, 0, 0, 0) else None
  }

  function FromUrlChar(c: char): char {
    if c == '-' then '+' else if c == '_' then '/' else c
  }

  /** base64.urlsafe_b64decode: translate, then decode. */
  function UrlSafeDecode(s: string): Option<seq<byte>> {
    Decode(seq(|s|, i requires 0 <= i < |s| => FromUrlChar(s[i])))
  }

  /** bytes.rstrip(b"="). */
  function StripPadding(s: string): (r: string)
    ensures |r| <= |s| && r == s[..|r|]
    ensures r != "" ==> r[|r| - 1] != '='
  {
    if s != "" && s[|s| - 1] == '=' then StripPadding(s[..|s| - 1]) else s
  }

  /** urlsafe_b64encode(b).rstrip(b"="). */
  function UrlEncodeUnpadded(b: seq<byte>): string {
    StripPadding(Encode(b, UrlSafe))
  }

  /** segment + "=" * (-len(segment) % 4), decoded url-safely. */
  function UrlDecodeUnpadded(segment: string): Option<seq<byte>> {
    UrlSafeDecode(segment + Repeat('=', (4 - |segment| % 4) % 4))
  }

  lemma SextetCharFacts(v: sextet, alphabet: Alphabet)
    ensures var c := SextetChar(v, alphabet);
      && c != '=' && c != '\n' && c as int < 128 && c as int > 32
      && CharSextet(FromUrlChar(c)) == Some(v)
      && (alphabet == Standard ==> FromUrlChar(c) == c)
  {
  }

  /** One full group of four characters decodes to its three octets. */
  lemma ScanGroup(x: byte, y: byte, z: byte, s: string, left: nat, pads: nat)
    requires |s| >= 4 && s[..4] == Chars(GroupOf(x, y, z), Standard)
    ensures Scan(s, 0, left, pads) == Prepend(x, Prepend(y, Prepend(z, Scan(s[4..], 0, 0, 0))))
  {
    var vs := GroupOf(x, y, z);
    GroupArithmetic(x, y, z);
    assert s[..4][0] == s[0] && s[..4][1] == s[1] && s[..4][2] == s[2] && s[..4][3] == s[3];
    ScanStep(s, vs[0], 0, left, pads);
    ScanStep(s[1..], vs[1], 1, vs[0], 0);
    assert s[1..][1..] == s[2..];
    ScanHalf(s[2..], y, z);
    assert s[2..][2..] == s[4..];
  }

  /** The second half of a group, entered with four bits left over. */
  lemma ScanHalf(s: string, y: byte, z: byte)
    requires |s| >= 2
    requires s[0] == SextetChar(y % 16 * 4 + z / 64, Standard) && s[1] == SextetChar(z % 64, Standard)
    ensures Scan(s, 2, y / 16, 0) == Prepend(y, Prepend(z, Scan(s[2..], 0, 0, 0)))
  {
    GroupArithmetic(0, y, z);
    ScanStep(s, y % 16 * 4 + z / 64, 2, y / 16, 0);
    ScanStep(s[1..], z % 64, 3, z / 64, 0);
    assert s[1..][1..] == s[2..];
  }

  lemma GroupArithmetic(x: byte, y: byte, z: byte)
    ensures (x / 4) * 4 + (x % 4 * 16 + y / 16) / 16 == x
    ensures (x % 4 * 16 + y / 16) % 16 == y / 16
    ensures (y / 16) * 16 + (y % 16 * 4 + z / 64) / 4 == y
    ensures (y % 16 * 4 + z / 64) % 4 == z / 64
    ensures (z / 64) * 64 + z % 64 == z
  {
  }

  /** What one alphabet character does to the automaton. */
  lemma ScanStep(s: string, v: sextet, quad: nat, left: nat, pads: nat)
    requires s != "" && s[0] == SextetChar(v, Standard)
    requires quad < 4
    requires quad == 1 ==> left < 64
    requires quad == 2 ==> left < 16
    requires quad == 3 ==> left < 4
    ensures quad == 0 ==> Scan(s, quad, left, pads) == Scan(s[1..], 1, v, 0)
    ensures quad == 1 ==> Scan(s, quad, left, pads) == Prepend(left * 4 + v / 16, Scan(s[1..], 2, v % 16, 0))
    ensures quad == 2 ==> Scan(s, quad, left, pads) == Prepend(left * 16 + v / 4, Scan(s[1..], 3, v % 4, 0))
    ensures quad == 3 ==> Scan(s, quad, left, pads) == Prepend(left * 64 + v, Scan(s[1..], 0, 0, 0))
  {
    SextetCharFacts(v, Standard);
  }

  /** A final group holding one octet, padded with two signs. */
  lemma ScanOne(x: byte, left: nat, pads: nat)
    ensures Scan(Encode([x], Standard), 0, left, pads) == Some([x])
  {
    var vs := Sextets([x]);
    var s := Encode([x], Standard);
    GroupArithmetic(x, 0, 0);
    ScanStep(s, vs[0], 0, left, pads);
    ScanStep(s[1..], vs[1], 1, vs[0], 0);
    assert s[1..][1..] == "==";
    assert "=="[1..] == "=";
    var none: seq<byte> := [];
    assert [x] + none == [x];
  }

  /** A final group holding two octets, padded with one sign. */
  lemma ScanTwo(x: byte, y: byte, left: nat, pads: nat)
    ensures Scan(Encode([x, y], Standard), 0, left, pads) == Some([x, y])
  {
    var vs := Sextets([x, y]);
    var s := Encode([x, y], Standard);
    GroupArithmetic(x, y, 0);
    ScanStep(s, vs[0], 0, left, pads);
    ScanStep(s[1..], vs[1], 1, vs[0], 0);
    ScanStep(s[1..][1..], vs[2], 2, vs[1] % 16, 0);
    assert s[1..][1..][1..] == "=";
    var none: seq<byte> := [];
    assert [x] + ([y] + none) == [x, y];
  }

  lemma EncodeGroup(b: seq<byte>, alphabet: Alphabet)
    requires |b| >= 3
    ensures Encode(b, alphabet) == Chars(GroupOf(b[0], b[1], b[2]), alphabet) + Encode(b[3..], alphabet)
  {
    assert PadCount(b) == PadCount(b[3..]);
    assert Chars(Sextets(b), alphabet)
        == Chars(GroupOf(b[0], b[1], b[2]), alphabet) + Chars(Sextets(b[3..]), alphabet);
  }

  /** The automaton reads an encoding back. */
  lemma {:induction false} ScanEncode(b: seq<byte>, left: nat, pads: nat)
    ensures Scan(Encode(b, Standard), 0, left, pads) == Some(b)
    decreases |b|
  {
    if |b| == 0 {
    } else if |b| == 1 {
      assert b == [b[0]];
      ScanOne(b[0], left, pads);
    } else if |b| == 2 {
      assert b == [b[0], b[1]];
      ScanTwo(b[0], b[1], left, pads);
    } else {
      ScanEncode(b[3..], 0, 0);
      ScanLong(b, left, pads);
    }
  }

  /** One group and what follows it. */
  lemma ScanGroupThen(x: byte, y: byte, z: byte, rest: string, left: nat, pads: nat)
    ensures Scan(Chars(GroupOf(x, y, z), Standard) + rest, 0, left, pads)
      == Prepend(x, Prepend(y, Prepend(z, Scan(rest, 0, 0, 0))))
  {
    var group := Chars(GroupOf(x, y, z), Standard);
    assert (group + rest)[..4] == group && (group + rest)[4..] == rest;
    ScanGroup(x, y, z, group + rest, left, pads);
  }

  lemma PrependThree(x: byte, y: byte, z: byte, tail: seq<byte>)
    ensures Prepend(x, Prepend(y, Prepend(z, Some(tail)))) == Some([x, y, z] + tail)
  {
    assert [x] + ([y] + ([z] + tail)) == [x, y, z] + tail;
  }

  lemma ScanLong(b: seq<byte>, left: nat, pads: nat)
    requires |b| >= 3 && Scan(Encode(b[3..], Standard), 0, 0, 0) == Some(b[3..])
    ensures Scan(Encode(b, Standard), 0, left, pads) == Some(b)
  {
    EncodeGroup(b, Standard);
    ScanGroupThen(b[0], b[1], b[2], Encode(b[3..], Standard), left, pads);
    PrependThree(b[0], b[1], b[2], b[3..]);
    assert [b[0], b[1], b[2]] + b[3..] == b;
  }

  lemma EncodeAscii(b: seq<byte>, alphabet: Alphabet)
    ensures IsAscii(Encode(b, alphabet))
    ensures forall i :: 0 <= i < |Encode(b, alphabet)| ==> 32 < Encode(b, alphabet)[i] as int
  {
    forall i | 0 <= i < |Encode(b, alphabet)|
      ensures 32 < Encode(b, alphabet)[i] as int < 128
    {
      if i < |Sextets(b)| {
        SextetCharFacts(Sextets(b)[i], alphabet);
      }
    }
  }

  /** Base64 round trip for every octet string. */
  lemma DecodeEncode(b: seq<byte>)
    ensures Decode(Encode(b, Standard)) == Some(b)
  {
    EncodeAscii(b, Standard);
    ScanEncode(b, 0, 0);
  }

  /** A group of four per three octets, two or three characters for the remainder. */
  lemma {:induction false} SextetCount(b: seq<byte>)
    ensures |Sextets(b)| == (4 * |b| + 2) / 3
    decreases |b|
  {
    if |b| >= 3 {
      SextetCount(b[3..]);
    }
  }

  lemma {:induction false} StripPaddingOf(s: string, n: nat)
    requires s == "" || s[|s| - 1] != '='
    ensures StripPadding(s + Repeat('=', n)) == s
  {
    if n == 0 {
      assert s + Repeat('=', 0) == s;
    } else {
      StripPaddingOf(s, n - 1);
      var t := s + Repeat('=', n);
      assert t[..|t| - 1] == s + Repeat('=', n - 1);
    }
  }

  /** The unpadded encoding is the characters alone, and the decoder's re-padding is the one removed. */
  lemma {:induction false} UnpaddedShape(b: seq<byte>)
    ensures UrlEncodeUnpadded(b) == Chars(Sextets(b), UrlSafe)
    ensures (4 - |UrlEncodeUnpadded(b)| % 4) % 4 == PadCount(b)
  {
    UnpaddedIsChars(b);
    SextetCount(b);
    PadArithmetic(|b|);
  }

  lemma UnpaddedIsChars(b: seq<byte>)
    ensures UrlEncodeUnpadded(b) == Chars(Sextets(b), UrlSafe)
  {
    var s := Chars(Sextets(b), UrlSafe);
    if s != "" {
      SextetCharFacts(Sextets(b)[|s| - 1], UrlSafe);
    }
    StripPaddingOf(s, PadCount(b));
  }

  lemma PadArithmetic(n: nat)
    ensures (4 - ((4 * n + 2) / 3) % 4) % 4 == (3 - n % 3) % 3
  {
    var q, r := n / 3, n % 3;
    assert n == 3 * q + r;
    assert (4 * n + 2) / 3 == 4 * q + (4 * r + 2) / 3;
  }

  /** Stripping "=" and re-padding on the way back loses nothing, for every length. */
  lemma UrlDecodeEncodeUnpadded(b: seq<byte>)
    ensures UrlDecodeUnpadded(UrlEncodeUnpadded(b)) == Some(b)
  {
    UnpaddedShape(b);
    var u := UrlEncodeUnpadded(b) + Repeat('=', PadCount(b));
    var t := seq(|u|, i requires 0 <= i < |u| => FromUrlChar(u[i]));
    assert t == Encode(b, Standard) by {
      forall i | 0 <= i < |u|
        ensures t[i] == Encode(b, Standard)[i]
      {
        if i < |Sextets(b)| {
          SextetCharFacts(Sextets(b)[i], UrlSafe);
          SextetCharFacts(Sextets(b)[i], Standard);
        }
      }
    }
    DecodeEncode(b);
  }

  /** The first 62 characters of both alphabets. */
  lemma LettersAndDigits(v: nat, alphabet: Alphabet)
    ensures v < 26 ==> SextetChar(v, alphabet) == "ABCDEFGHIJKLMNOPQRSTUVWXYZ"[v]
    ensures v < 26 ==> SextetChar(26 + v, alphabet) == "abcdefghijklmnopqrstuvwxyz"[v]
    ensures v < 10 ==> SextetChar(52 + v, alphabet) == "0123456789"[v]
  {
  }

  /** The last two, which the alphabets do not share. */
  lemma LastCharacters()
    ensures SextetChar(62, Standard) == '+' && SextetChar(63, Standard) == '/'
    ensures SextetChar(62, UrlSafe) == '-' && SextetChar(63, UrlSafe) == '_'
  {
  }

  /** The decoder reads these characters and no others. */
  lemma {:induction false} OnlyTheAlphabet(c: char)
    ensures CharSextet(c).Some? ==> SextetChar(CharSextet(c).value, Standard) == c
  {
  }

  lemma GroupValue(x: byte, y: byte, z: byte)
    ensures var vs := GroupOf(x, y, z);
      ((vs[0] as int * 64 + vs[1]) * 64 + vs[2]) * 64 + vs[3] == (x as int * 256 + y) * 256 + z
  {
    GroupArithmetic(x, y, z);
  }

  lemma NextGroup(b: seq<byte>, i: nat)
    requires 0 < i && 3 * i + 3 <= |b| && 4 * i <= |Sextets(b[3..])|
    ensures 4 * i + 4 <= |Sextets(b)|
    ensures Sextets(b)[4 * i..4 * i + 4] == Sextets(b[3..])[4 * i - 4..4 * i]
  {
    var group := GroupOf(b[0], b[1], b[2]);
    assert Sextets(b) == group + Sextets(b[3..]);
  }

  /** Every 24 bits of the octets are those of four characters, most significant first. */
  lemma {:induction false} GroupBits(b: seq<byte>, i: nat)
    requires 3 * i + 3 <= |b|
    ensures 4 * i + 4 <= |Sextets(b)|
    ensures var vs := Sextets(b)[4 * i..4 * i + 4];
      ((vs[0] as int * 64 + vs[1]) * 64 + vs[2]) * 64 + vs[3]
        == (b[3 * i] as int * 256 + b[3 * i + 1]) * 256 + b[3 * i + 2]
  {
    if i == 0 {
      GroupValue(b[0], b[1], b[2]);
      assert Sextets(b)[0..4] == GroupOf(b[0], b[1], b[2]);
    } else {
      GroupBits(b[3..], i - 1);
      NextGroup(b, i);
      var rest, k := b[3..], 3 * (i - 1);
      assert rest[k] == b[3 * i] && rest[k + 1] == b[3 * i + 1] && rest[k + 2] == b[3 * i + 2];
    }
  }

  /** One or two octets at the end are followed by four or two zero bits, and by the padding. */
  lemma {:induction false} LastBits(b: seq<byte>)
    ensures var i := |b| / 3;
      match |b| % 3
      case 0 => |Sextets(b)| == 4 * i && PadCount(b) == 0
      case 1 =>
        && |Sextets(b)| == 4 * i + 2 && PadCount(b) == 2
        && Sextets(b)[4 * i] as int * 64 + Sextets(b)[4 * i + 1] == b[3 * i] as int * 16
      case _ =>
        && |Sextets(b)| == 4 * i + 3 && PadCount(b) == 1
        && (Sextets(b)[4 * i] as int * 64 + Sextets(b)[4 * i + 1]) * 64 + Sextets(b)[4 * i + 2]
           == (b[3 * i] as int * 256 + b[3 * i + 1]) * 4
  {
    if |b| >= 3 {
      LastBits(b[3..]);
      assert Sextets(b)[4..] == Sextets(b[3..]);
    }
  }

  /** The alphabet characters of a text: the only ones that contribute bits. */
  function DataCount(s: string): nat {
    if s == "" then 0 else (if CharSextet(s[0]).Some? then 1 else 0) + DataCount(s[1..])
  }

  lemma {:induction false} DataCountAppend(a: string, b: string)
    ensures DataCount(a + b) == DataCount(a) + DataCount(b)
  {
    if a == "" {
      assert a + b == b;
    } else {
      assert (a + b)[1..] == a[1..] + b;
      DataCountAppend(a[1..], b);
    }
  }

  lemma {:induction false} DataCountChars(vs: seq<sextet>)
    ensures DataCount(Chars(vs, Standard)) == |vs|
  {
    if vs != [] {
      SextetCharFacts(vs[0], Standard);
      assert Chars(vs, Standard)[1..] == Chars(vs[1..], Standard);
      DataCountChars(vs[1..]);
    }
  }

  lemma {:induction false} DataCountPadding(n: nat)
    ensures DataCount(Repeat('=', n)) == 0
  {
    if n > 0 {
      assert Repeat('=', n)[1..] == Repeat('=', n - 1);
      DataCountPadding(n - 1);
    }
  }

  lemma DataCountEncode(b: seq<byte>)
    ensures DataCount(Encode(b, Standard)) == (4 * |b| + 2) / 3
  {
    DataCountAppend(Chars(Sextets(b), Standard), Repeat('=', PadCount(b)));
    DataCountChars(Sextets(b));
    DataCountPadding(PadCount(b));
    SextetCount(b);
  }

  /** Decoding yields at most three octets for four alphabet characters. */
  lemma {:induction false} ScanLength(s: string, quad: nat, left: nat, pads: nat)
    requires quad < 4
    requires quad == 1 ==> left < 64
    requires quad == 2 ==> left < 16
    requires quad == 3 ==> left < 4
    ensures var r := Scan(s, quad, left, pads);
      r.Some? ==> |r.value| <= 3 * (quad + DataCount(s)) / 4 - 3 * quad / 4
    decreases |s|
  {
    if s == "" {
    } else if s[0] == '=' {
      if !(quad >= 2 && quad + pads + 1 >= 4) {
        ScanLength(s[1..], quad, left, if quad >= 2 then pads + 1 else pads);
      }
    } else {
      match CharSextet(s[0])
      case None => ScanLength(s[1..], quad, left, pads);
      case Some(v) =>
        if quad == 0 {
          ScanLength(s[1..], 1, v, 0);
        } else if quad == 1 {
          ScanLength(s[1..], 2, v % 16, 0);
        } else if quad == 2 {
          ScanLength(s[1..], 3, v % 4, 0);
        } else {
          ScanLength(s[1..], 0, 0, 0);
        }
    }
  }
}
