/**
 * UTF-8 encoding, and decoding with errors="replace": every maximal ill-formed part of the
 * input becomes one U+FFFD, which is what both Python's decoder and a browser's do.
 */
module Utf8 {
  import opened Prelude
  import opened Bytes

  function EncodeChar(c: char): (b: seq<byte>)
    ensures |b| >= 1
  {
    var u := c as int;
    if u < 0x80 then [u]
    else if u < 0x800 then [0xC0 + u / 64, 0x80 + u % 64]
    else if u < 0x1_0000 then [0xE0 + u / 4096, 0x80 + u / 64 % 64, 0x80 + u % 64]
    else [0xF0 + u / 0x4_0000, 0x80 + u / 4096 % 64, 0x80 + u / 64 % 64, 0x80 + u % 64]
  }

  function Encode(s: string): seq<byte> {
    if s == "" then [] else EncodeChar(s[0]) + Encode(s[1..])
  }

  predicate IsTail(x: byte) {
    0x80 <= x < 0xC0
  }

  /** The second octets that may follow a three- or four-octet lead. */
  predicate IsSecond(lead: byte, x: byte) {
    && IsTail(x)
    && (lead == 0xE0 ==> x >= 0xA0)
    && (lead == 0xED ==> x < 0xA0)
    && (lead == 0xF0 ==> x >= 0x90)
    && (lead == 0xF4 ==> x < 0x90)
  }

  /** The six payload bits of a trailing octet. */
  function Bits(x: byte): (r: nat)
    requires IsTail(x)
    ensures r < 64
  {
    x as int - 0x80
  }

  function Code2(lead: byte, x: byte): (u: int)
    requires 0xC2 <= lead < 0xE0 && IsTail(x)
    ensures 0x80 <= u < 0x800
  {
    (lead as int - 0xC0) * 64 + Bits(x)
  }

  function Code3(lead: byte, x: byte, y: byte): (u: int)
    requires 0xE0 <= lead < 0xF0 && IsSecond(lead, x) && IsTail(y)
    ensures 0x800 <= u < 0xD800 || 0xE000 <= u < 0x1_0000
  {
    (lead as int - 0xE0) * 4096 + Bits(x) * 64 + Bits(y)
  }

  function Code4(lead: byte, x: byte, y: byte, z: byte): (u: int)
    requires 0xF0 <= lead <= 0xF4 && IsSecond(lead, x) && IsTail(y) && IsTail(z)
    ensures 0x1_0000 <= u < 0x11_0000
  {
    (lead as int - 0xF0) * 0x4_0000 + Bits(x) * 4096 + Bits(y) * 64 + Bits(z)
  }

  /** The first character and its octet count, or None and the length of the ill-formed part. */
  function DecodeOne(b: seq<byte>): (r: (Option<char>, nat))
    requires b != []
    ensures 1 <= r.1 <= |b|
  {
    var lead := b[0];
    if lead < 0x80 then (Some(lead as char), 1)
    else if lead < 0xC2 || lead > 0xF4 then (None, 1)
    else if lead < 0xE0 then
      if |b| < 2 || !IsTail(b[1]) then (None, 1) else (Some(Code2(lead, b[1]) as char), 2)
    else if |b| < 2 || !IsSecond(lead, b[1]) then (None, 1)
    else if |b| < 3 || !IsTail(b[2]) then (None, 2)
    else if lead < 0xF0 then (Some(Code3(lead, b[1], b[2]) as char), 3)
    else if |b| < 4 || !IsTail(b[3]) then (None, 3)
    else (Some(Code4(lead, b[1], b[2], b[3]) as char), 4)
  }

  const REPLACEMENT: char := '\U{FFFD}'

  function Decode(b: seq<byte>): string
    decreases |b|
  {
    if b == [] then ""
    else
      var (c, n) := DecodeOne(b);
      [if c.Some? then c.value else REPLACEMENT] + Decode(b[n..])
  }

  /** The octets of one character are read back, whatever follows. */
  lemma DecodeOneEncode(c: char, rest: seq<byte>)
    ensures DecodeOne(EncodeChar(c) + rest) == (Some(c), |EncodeChar(c)|)
  {
    var u := c as int;
    var b := EncodeChar(c) + rest;
    if u < 0x80 {
    } else if u < 0x800 {
      assert b[0] == 0xC0 + u / 64 && b[1] == 0x80 + u % 64;
    } else if u < 0x1_0000 {
      assert b[0] == 0xE0 + u / 4096 && b[1] == 0x80 + u / 64 % 64 && b[2] == 0x80 + u % 64;
      ThreeOctets(u);
    } else {
      assert b[0] == 0xF0 + u / 0x4_0000 && b[1] == 0x80 + u / 4096 % 64;
      assert b[2] == 0x80 + u / 64 % 64 && b[3] == 0x80 + u % 64;
      FourOctets(u);
    }
  }

  lemma ThreeOctets(u: int)
    requires 0x800 <= u < 0xD800 || 0xE000 <= u < 0x1_0000
    ensures 0xE0 + u / 4096 < 0xF0 && IsSecond(0xE0 + u / 4096, 0x80 + u / 64 % 64)
    ensures Code3(0xE0 + u / 4096, 0x80 + u / 64 % 64, 0x80 + u % 64) == u
  {
    assert u == u / 4096 * 4096 + u / 64 % 64 * 64 + u % 64;
  }

  lemma FourDigits(u: int)
    requires 0x1_0000 <= u < 0x11_0000
    ensures u == u / 0x4_0000 * 0x4_0000 + u / 4096 % 64 * 4096 + u / 64 % 64 * 64 + u % 64
    ensures u / 0x4_0000 <= 4
    ensures u / 0x4_0000 == 0 ==> u / 4096 % 64 >= 0x10
    ensures u / 0x4_0000 == 4 ==> u / 4096 % 64 < 0x10
  {
  }

  lemma FourOctets(u: int)
    requires 0x1_0000 <= u < 0x11_0000
    ensures 0xF0 + u / 0x4_0000 <= 0xF4 && IsSecond(0xF0 + u / 0x4_0000, 0x80 + u / 4096 % 64)
    ensures Code4(0xF0 + u / 0x4_0000, 0x80 + u / 4096 % 64, 0x80 + u / 64 % 64, 0x80 + u % 64) == u
  {
    FourDigits(u);
  }

  /** Decoding undoes encoding on every string. */
  lemma {:induction false} DecodeEncode(s: string)
    ensures Decode(Encode(s)) == s
  {
    if s != "" {
      var rest := Encode(s[1..]);
      DecodeOneEncode(s[0], rest);
      assert (EncodeChar(s[0]) + rest)[|EncodeChar(s[0])|..] == rest;
      DecodeEncode(s[1..]);
      assert s == [s[0]] + s[1..];
    }
  }

  /** Equal encodings come from equal strings. */
  lemma EncodeInjective(s: string, t: string)
    requires Encode(s) == Encode(t)
    ensures s == t
  {
    DecodeEncode(s);
    DecodeEncode(t);
  }

  // ---------------------------------------------------------------------------
  // Ill-formed input
  // ---------------------------------------------------------------------------

  predicate IsPrefix(a: seq<byte>, b: seq<byte>) {
    |a| <= |b| && b[..|a|] == a
  }

  /** The decoder reads a character exactly where its encoding stands. */
  lemma {:induction false} DecodeOneIff(b: seq<byte>, c: char)
    requires b != []
    ensures DecodeOne(b).0 == Some(c) <==> IsPrefix(EncodeChar(c), b)
    ensures DecodeOne(b).0 == Some(c) ==> DecodeOne(b).1 == |EncodeChar(c)|
  {
    if IsPrefix(EncodeChar(c), b) {
      DecodeOneEncode(c, b[|EncodeChar(c)|..]);
      assert b == EncodeChar(c) + b[|EncodeChar(c)|..];
    }
    if DecodeOne(b).0 == Some(c) {
      ReadsEncoding(b, c);
    }
  }

  lemma TwoEncode(lead: byte, x: byte)
    requires 0xC2 <= lead < 0xE0 && IsTail(x)
    ensures EncodeChar(Code2(lead, x) as char) == [lead, x]
  {
  }

  lemma ThreeEncode(lead: byte, x: byte, y: byte)
    requires 0xE0 <= lead < 0xF0 && IsSecond(lead, x) && IsTail(y)
    ensures EncodeChar(Code3(lead, x, y) as char) == [lead, x, y]
  {
    var u := Code3(lead, x, y);
    assert u / 4096 == lead - 0xE0 && u / 64 % 64 == Bits(x) && u % 64 == Bits(y);
  }

  lemma LastSextet(q: nat, r: nat)
    requires r < 64
    ensures (q * 64 + r) / 64 == q && (q * 64 + r) % 64 == r
  {
  }

  lemma FourSextets(u: nat, a: nat, x: nat, y: nat, z: nat)
    requires x < 64 && y < 64 && z < 64 && u == a * 0x4_0000 + x * 4096 + y * 64 + z
    ensures u / 0x4_0000 == a && u / 4096 % 64 == x && u / 64 % 64 == y && u % 64 == z
  {
    assert u == ((a * 64 + x) * 64 + y) * 64 + z;
    LastSextet((a * 64 + x) * 64 + y, z);
    LastSextet(a * 64 + x, y);
    LastSextet(a, x);
    assert u / 4096 == u / 64 / 64 && u / 0x4_0000 == u / 64 / 64 / 64;
  }

  lemma FourEncode(lead: byte, x: byte, y: byte, z: byte)
    requires 0xF0 <= lead <= 0xF4 && IsSecond(lead, x) && IsTail(y) && IsTail(z)
    ensures EncodeChar(Code4(lead, x, y, z) as char) == [lead, x, y, z]
  {
    FourSextets(Code4(lead, x, y, z), lead as int - 0xF0, Bits(x), Bits(y), Bits(z));
  }

  lemma ReadsEncoding(b: seq<byte>, c: char)
    requires b != [] && DecodeOne(b).0 == Some(c)
    ensures IsPrefix(EncodeChar(c), b) && DecodeOne(b).1 == |EncodeChar(c)|
  {
    var lead := b[0];
    if lead >= 0xF0 {
      FourEncode(lead, b[1], b[2], b[3]);
    } else if lead >= 0xE0 {
      ThreeEncode(lead, b[1], b[2]);
    } else if lead >= 0x80 {
      TwoEncode(lead, b[1]);
    }
  }

  /** The shape of an encoding, octet by octet. */
  lemma EncodingShape(c: char)
    ensures var e := EncodeChar(c);
      match |e|
      case 1 => e[0] < 0x80
      case 2 => 0xC2 <= e[0] < 0xE0 && IsTail(e[1])
      case 3 => 0xE0 <= e[0] < 0xF0 && IsSecond(e[0], e[1]) && IsTail(e[2])
      case 4 => 0xF0 <= e[0] <= 0xF4 && IsSecond(e[0], e[1]) && IsTail(e[2]) && IsTail(e[3])
      case _ => false
  {
    var u := c as int;
    if 0x800 <= u < 0x1_0000 {
      ThreeOctets(u);
    } else if u >= 0x1_0000 {
      FourOctets(u);
    }
  }

  lemma NoLonger(b: seq<byte>, n: nat, c: char)
    requires b != [] && DecodeOne(b) == (None, n) && n < |b|
    ensures !IsPrefix(b[..n + 1], EncodeChar(c))
  {
    EncodingShape(c);
    var e := EncodeChar(c);
    PrefixAt(b, n + 1, e);
  }

  lemma PrefixAt(b: seq<byte>, m: nat, e: seq<byte>)
    requires m <= |b|
    ensures IsPrefix(b[..m], e) ==> m <= |e| && forall i :: 0 <= i < m ==> e[i] == b[i]
  {
    if IsPrefix(b[..m], e) {
      forall i | 0 <= i < m
        ensures e[i] == b[i]
      {
        assert e[..m][i] == b[..m][i];
      }
    }
  }

  /** Some character's encoding starts like this. */
  ghost predicate Begun(b: seq<byte>) {
    exists c :: IsPrefix(b, EncodeChar(c))
  }

  lemma IllFormedBegun(b: seq<byte>, n: nat)
    requires b != [] && DecodeOne(b) == (None, n) && n > 1
    ensures Begun(b[..n])
  {
    if b[0] < 0xF0 {
      ThreeEncode(b[0], b[1], 0x80);
      assert IsPrefix(b[..n], EncodeChar(Code3(b[0], b[1], 0x80) as char));
    } else {
      var y := if n == 3 then b[2] else 0x80;
      FourEncode(b[0], b[1], y, 0x80);
      assert IsPrefix(b[..n], EncodeChar(Code4(b[0], b[1], y, 0x80) as char));
    }
  }

  /**
   * What one U+FFFD replaces: the longest start of an encoding that stands there, or one octet if
   * there is none (the maximal subparts of section 3.9 of the Unicode Standard).
   */
  lemma {:induction false} MaximalSubpart(b: seq<byte>, n: nat)
    requires b != [] && DecodeOne(b) == (None, n)
    ensures n == 1 || Begun(b[..n])
    ensures n < |b| ==> !Begun(b[..n + 1])
    ensures Decode(b) == ['\U{FFFD}'] + Decode(b[n..])
  {
    if n > 1 {
      IllFormedBegun(b, n);
    }
    if n < |b| {
      forall c
        ensures !IsPrefix(b[..n + 1], EncodeChar(c))
      {
        NoLonger(b, n, c);
      }
    }
  }
}
