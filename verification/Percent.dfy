/**
 * Percent-encoding (sections 2.1 to 2.4 of RFC 3986): Python's quote and unquote as the
 * Bedrock stub's path canonicalisation uses them, and JavaScript's encodeURIComponent.
 */
module Percent {
  import opened Prelude
  import opened Bytes
  import Utf8

  /** The octets left alone: quote(.., safe="/~") and encodeURIComponent. */
  datatype SafeSet = Path | Component

  predicate IsAlphanumeric(x: byte) {
    48 <= x <= 57 || 65 <= x <= 90 || 97 <= x <= 122
  }

  predicate IsSafe(safe: SafeSet, x: byte) {
    || IsAlphanumeric(x)
    || x == 45 || x == 46 || x == 95 || x == 126  // - . _ ~
    || (safe == Path && x == 47)  // /
    || (safe == Component && (x == 33 || x == 39 || x == 40 || x == 41 || x == 42))  // ! ' ( ) *
  }

  function HexDigit(v: nat): char
    requires v < 16
  {
    if v < 10 then (48 + v) as char else (55 + v) as char
  }

  function HexValue(c: char): Option<nat> {
    if '0' <= c <= '9' then Some(c as int - 48)
    else if 'A' <= c <= 'F' then Some(c as int - 55)
    else if 'a' <= c <= 'f' then Some(c as int - 87)
    else None
  }

  predicate IsHex(c: char) {
    HexValue(c).Some?
  }

  function EncodeOctet(safe: SafeSet, x: byte): string {
    if IsSafe(safe, x) then [x as char] else ['%', HexDigit(x / 16), HexDigit(x % 16)]
  }

  function EncodeOctets(safe: SafeSet, b: seq<byte>): string {
    if b == [] then "" else EncodeOctet(safe, b[0]) + EncodeOctets(safe, b[1..])
  }

  /** Escapes become their octet; everything else, stray percent signs included, its UTF-8 octets. */
  function DecodeOctets(s: string): seq<byte> {
    if s == "" then []
    else Token(s).0 + DecodeOctets(s[Token(s).1..])
  }

  function HexByte(hi: char, lo: char): seq<byte>
    requires IsHex(hi) && IsHex(lo)
  {
    [HexValue(hi).value * 16 + HexValue(lo).value]
  }

  /** urllib.parse.quote(s, safe="/~") or encodeURIComponent(s). */
  function Quote(safe: SafeSet, s: string): string {
    EncodeOctets(safe, Utf8.Encode(s))
  }

  /** The length of the leading ASCII run. */
  function AsciiRun(s: string): (n: nat)
    ensures n <= |s|
    ensures n < |s| ==> s[n] as int >= 128
    ensures forall i :: 0 <= i < n ==> s[i] as int < 128
  {
    if s == "" || s[0] as int >= 128 then 0 else 1 + AsciiRun(s[1..])
  }

  /** urllib.parse.unquote: each ASCII run is decoded on its own, other characters are kept. */
  function Unquote(s: string): string
    decreases |s|
  {
    var n := AsciiRun(s);
    var run := Utf8.Decode(DecodeOctets(s[..n]));
    if n == |s| then run else run + [s[n]] + Unquote(s[n + 1..])
  }

  // ---------------------------------------------------------------------------
  // Decoding undoes encoding
  // ---------------------------------------------------------------------------

  lemma HexDigitValue(v: nat)
    requires v < 16
    ensures HexValue(HexDigit(v)) == Some(v)
  {
  }

  lemma DecodeOctetOf(safe: SafeSet, x: byte, rest: string)
    ensures DecodeOctets(EncodeOctet(safe, x) + rest) == [x] + DecodeOctets(rest)
  {
    var s := EncodeOctet(safe, x) + rest;
    if IsSafe(safe, x) {
      assert s[1..] == rest;
    } else {
      HexDigitValue(x / 16);
      HexDigitValue(x % 16);
      assert s[3..] == rest;
    }
  }

  lemma {:induction false} DecodeEncodeOctets(safe: SafeSet, b: seq<byte>)
    ensures DecodeOctets(EncodeOctets(safe, b)) == b
  {
    if b != [] {
      DecodeOctetOf(safe, b[0], EncodeOctets(safe, b[1..]));
      DecodeEncodeOctets(safe, b[1..]);
      assert b == [b[0]] + b[1..];
    }
  }

  /** The characters an encoding can hold. */
  predicate IsEncodedChar(safe: SafeSet, c: char) {
    c == '%' || (c as int < 128 && IsSafe(safe, c as int))
  }

  lemma {:induction false} EncodedChars(safe: SafeSet, b: seq<byte>)
    ensures forall i :: 0 <= i < |EncodeOctets(safe, b)| ==> IsEncodedChar(safe, EncodeOctets(safe, b)[i])
  {
    if b != [] {
      EncodedChars(safe, b[1..]);
    }
  }

  /** `unquote` undoes `quote` on every string. */
  lemma UnquoteQuote(safe: SafeSet, s: string)
    ensures Unquote(Quote(safe, s)) == s
  {
    var q := Quote(safe, s);
    EncodedChars(safe, Utf8.Encode(s));
    assert AsciiRun(q) == |q|;
    assert q[..|q|] == q;
    DecodeEncodeOctets(safe, Utf8.Encode(s));
    Utf8.DecodeEncode(s);
  }

  // ---------------------------------------------------------------------------
  // Path canonicalisation
  // ---------------------------------------------------------------------------

  /** quote(unquote(path), safe="/~"). */
  function Canonical(path: string): string {
    Quote(Path, Unquote(path))
  }

  lemma CanonicalIdempotent(path: string)
    ensures Canonical(Canonical(path)) == Canonical(path)
  {
    UnquoteQuote(Path, Unquote(path));
  }

  /** Canonical forms are equal iff the paths decode to the same text. */
  lemma CanonicalIff(p: string, q: string)
    ensures Canonical(p) == Canonical(q) <==> Unquote(p) == Unquote(q)
  {
    UnquoteQuote(Path, Unquote(p));
    UnquoteQuote(Path, Unquote(q));
  }

  /** The octets of the first character or escape, and how many characters it takes. */
  function Token(s: string): (t: (seq<byte>, nat))
    requires s != ""
    ensures 1 <= t.1 <= |s|
  {
    if s[0] == '%' && |s| >= 3 && IsHex(s[1]) && IsHex(s[2]) then (HexByte(s[1], s[2]), 3)
    else (Utf8.EncodeChar(s[0]), 1)
  }

  /** A character that is no hexadecimal digit starts afresh: no escape reaches across it. */
  lemma TokenAround(a: string, rest: string)
    requires a != "" && rest != "" && !IsHex(rest[0])
    ensures Token(a + rest) == Token(a)
    ensures (a + rest)[Token(a).1..] == a[Token(a).1..] + rest
  {
    var s := a + rest;
    assert s[0] == a[0];
    assert |a| == 1 ==> s[1] == rest[0];
    assert |a| == 2 ==> s[2] == rest[0];
  }

  lemma AroundStep(a: string, rest: string, x: seq<byte>, y: seq<byte>)
    requires a != "" && rest != "" && !IsHex(rest[0])
    requires x == DecodeOctets(a[Token(a).1..]) && x + y == DecodeOctets(a[Token(a).1..] + rest)
    ensures DecodeOctets(a + rest) == DecodeOctets(a) + y
  {
    TokenAround(a, rest);
    Regrouped(Token(a).0, x, y);
  }

  lemma {:induction false} DecodeAround(a: string, rest: string)
    requires rest != "" && !IsHex(rest[0])
    ensures DecodeOctets(a + rest) == DecodeOctets(a) + DecodeOctets(rest)
    decreases |a|
  {
    if a == "" {
      assert a + rest == rest;
    } else {
      var tail := a[Token(a).1..];
      DecodeAround(tail, rest);
      AroundStep(a, rest, DecodeOctets(tail), DecodeOctets(rest));
    }
  }

  lemma Regrouped(x: seq<byte>, y: seq<byte>, z: seq<byte>)
    ensures x + (y + z) == (x + y) + z
  {
  }

  predicate IsColon(mid: string) {
    mid == ":" || mid == "%3A" || mid == "%3a"
  }

  lemma DecodeColon(mid: string, b: string)
    requires IsColon(mid)
    ensures DecodeOctets(mid + b) == [58] + DecodeOctets(b)
  {
    var s := mid + b;
    assert s[|mid|..] == b;
    if mid != ":" {
      assert s[1] == '3' && (s[2] == 'A' || s[2] == 'a');
    }
  }

  predicate AllAscii(s: string) {
    forall i :: 0 <= i < |s| ==> s[i] as int < 128
  }

  lemma {:induction false} RunIs(a: string, rest: string)
    requires AllAscii(a)
    requires rest == "" || rest[0] as int >= 128
    ensures AsciiRun(a + rest) == |a|
  {
    if a == "" {
      assert a + rest == rest;
    } else {
      assert (a + rest)[1..] == a[1..] + rest;
      RunIs(a[1..], rest);
    }
  }

  /** The text of a decoded run and of what comes behind it. */
  function Resume(octets: seq<byte>, rest: string): string {
    Utf8.Decode(octets) + (if rest == "" then "" else [rest[0]] + Unquote(rest[1..]))
  }

  lemma UnquoteParts(s: string, run: string, rest: string)
    requires AsciiRun(s) == |run| && s[..|run|] == run && s[|run|..] == rest
    ensures Unquote(s) == Resume(DecodeOctets(run), rest)
  {
    if rest != "" {
      assert s[|run|] == rest[0] && s[|run| + 1..] == rest[1..];
    }
  }

  /** A run followed by a non-ASCII character or by nothing is decoded on its own. */
  lemma UnquoteRun(run: string, rest: string)
    requires AllAscii(run)
    requires rest == "" || rest[0] as int >= 128
    ensures Unquote(run + rest) == Resume(DecodeOctets(run), rest)
  {
    RunIs(run, rest);
    UnquoteParts(run + rest, run, rest);
  }

  /** The octets of a run holding a colon do not depend on the colon's spelling. */
  lemma ColonOctets(a: string, mid: string, b: string)
    requires IsColon(mid)
    ensures DecodeOctets(a + (mid + b)) == DecodeOctets(a) + ([58] + DecodeOctets(b))
  {
    DecodeAround(a, mid + b);
    DecodeColon(mid, b);
  }

  /** Behind an ASCII prefix, the colon's spelling does not matter. */
  lemma ColonRun(a: string, mid: string, b: string)
    requires AllAscii(a) && IsColon(mid)
    ensures var n := AsciiRun(b);
      Unquote(a + (mid + b)) == Resume(DecodeOctets(a) + ([58] + DecodeOctets(b[..n])), b[n..])
  {
    var n := AsciiRun(b);
    var run := a + (mid + b[..n]);
    AsciiAppend(mid, b[..n]);
    AsciiAppend(a, mid + b[..n]);
    UnquoteRun(run, b[n..]);
    ColonOctets(a, mid, b[..n]);
    Regroup(a, mid, b, n);
  }

  lemma AsciiAppend(a: string, b: string)
    requires AllAscii(a) && AllAscii(b)
    ensures AllAscii(a + b)
  {
  }

  lemma Regroup(a: string, mid: string, b: string, n: nat)
    requires n <= |b|
    ensures a + (mid + b) == (a + (mid + b[..n])) + b[n..]
  {
  }

  /** What is read behind the first non-ASCII character is read on its own. */
  lemma BehindRun(a: string, x: string, y: string)
    requires AsciiRun(a) < |a|
    requires Unquote(a[AsciiRun(a) + 1..] + x) == Unquote(a[AsciiRun(a) + 1..] + y)
    ensures Unquote(a + x) == Unquote(a + y)
  {
    FirstRun(a, x);
    FirstRun(a, y);
  }

  lemma ColonInRun(a: string, mid: string, mid': string, b: string)
    requires AllAscii(a) && IsColon(mid) && IsColon(mid')
    ensures Unquote(a + (mid + b)) == Unquote(a + (mid' + b))
  {
    ColonRun(a, mid, b);
    ColonRun(a, mid', b);
  }

  /** A literal colon and its two escapes are interchangeable anywhere in a path. */
  lemma {:induction false} ColonSpellings(a: string, mid: string, mid': string, b: string)
    requires IsColon(mid) && IsColon(mid')
    ensures Unquote(a + (mid + b)) == Unquote(a + (mid' + b))
    decreases |a|
  {
    var n := AsciiRun(a);
    if n < |a| {
      ColonSpellings(a[n + 1..], mid, mid', b);
      BehindRun(a, mid + b, mid' + b);
    } else {
      ColonInRun(a, mid, mid', b);
    }
  }

  lemma CutRun(a: string, rest: string, n: nat)
    requires n < |a|
    ensures a + rest == a[..n] + (a[n..] + rest)
    ensures (a[n..] + rest)[0] == a[n] && (a[n..] + rest)[1..] == a[n + 1..] + rest
  {
  }

  /** The first run of `a`, when a non-ASCII character ends it, is not affected by what follows `a`. */
  lemma FirstRun(a: string, rest: string)
    requires AsciiRun(a) < |a|
    ensures var n := AsciiRun(a);
      Unquote(a + rest) == Utf8.Decode(DecodeOctets(a[..n])) + ([a[n]] + Unquote(a[n + 1..] + rest))
  {
    var n := AsciiRun(a);
    CutRun(a, rest, n);
    UnquoteRun(a[..n], a[n..] + rest);
    ResumeIs(DecodeOctets(a[..n]), a[n], a[n + 1..] + rest, a[n..] + rest);
  }

  lemma ResumeIs(octets: seq<byte>, first: char, behind: string, rest: string)
    requires rest != "" && rest[0] == first && rest[1..] == behind
    ensures Resume(octets, rest) == Utf8.Decode(octets) + ([first] + Unquote(behind))
  {
  }

  /** Versioned model paths: whichever way the colon is spelled, the canonical URI is the same. */
  lemma ColonCanonical(a: string, mid: string, mid': string, b: string)
    requires IsColon(mid) && IsColon(mid')
    ensures Canonical(a + (mid + b)) == Canonical(a + (mid' + b))
  {
    ColonSpellings(a, mid, mid', b);
  }

  // ---------------------------------------------------------------------------
  // The tables
  // ---------------------------------------------------------------------------

  predicate IsLetterOrDigit(c: char) {
    'A' <= c <= 'Z' || 'a' <= c <= 'z' || '0' <= c <= '9'
  }

  /** The characters that quote(.., safe="/~") leaves alone, and those encodeURIComponent does. */
  lemma SafeIs(c: char)
    requires c < '\U{0080}'
    ensures EncodeOctet(Path, c as int) == [c] <==> IsLetterOrDigit(c) || c in "/~-._"
    ensures EncodeOctet(Component, c as int) == [c] <==> IsLetterOrDigit(c) || c in "-_.!~*'()"
  {
  }

  lemma HexDigitIs(v: nat)
    requires v < 16
    ensures HexDigit(v) == "0123456789ABCDEF"[v]
  {
  }

  /** Any other octet becomes a percent sign and two upper-case digits, the high one first. */
  lemma EscapeIs(safe: SafeSet, hi: nat, lo: nat)
    requires hi < 16 && lo < 16
    ensures |EncodeOctet(safe, hi * 16 + lo)| == 1
      || EncodeOctet(safe, hi * 16 + lo) == ['%', "0123456789ABCDEF"[hi], "0123456789ABCDEF"[lo]]
    ensures hi >= 8 ==> |EncodeOctet(safe, hi * 16 + lo)| == 3
  {
    HexDigitIs(hi);
    HexDigitIs(lo);
  }

  /** Encoding goes character by character. */
  lemma {:induction false} QuoteAppend(safe: SafeSet, s: string, t: string)
    ensures Quote(safe, s + t) == Quote(safe, s) + Quote(safe, t)
    ensures s != "" && s[0] < '\U{0080}' ==> Quote(safe, s) == EncodeOctet(safe, s[0] as int) + Quote(safe, s[1..])
  {
    EncodeAppend(s, t);
    OctetsAppend(safe, Utf8.Encode(s), Utf8.Encode(t));
    if s != "" && s[0] < '\U{0080}' {
      OctetsAppend(safe, [s[0] as int], Utf8.Encode(s[1..]));
      assert [s[0] as int][1..] == [] && EncodeOctets(safe, []) == "";
    }
  }

  lemma {:induction false} EncodeAppend(s: string, t: string)
    ensures Utf8.Encode(s + t) == Utf8.Encode(s) + Utf8.Encode(t)
  {
    if s == "" {
      assert s + t == t;
    } else {
      assert (s + t)[1..] == s[1..] + t;
      EncodeAppend(s[1..], t);
    }
  }

  lemma {:induction false} OctetsAppend(safe: SafeSet, a: seq<byte>, b: seq<byte>)
    ensures EncodeOctets(safe, a + b) == EncodeOctets(safe, a) + EncodeOctets(safe, b)
  {
    if a == [] {
      assert a + b == b;
    } else {
      assert (a + b)[1..] == a[1..] + b;
      OctetsAppend(safe, a[1..], b);
    }
  }

  /** The digits of an escape, in either case; nothing else is one. */
  lemma HexValueIs(c: char, v: nat)
    ensures v < 16 ==> HexValue("0123456789ABCDEF"[v]) == Some(v)
    ensures 10 <= v < 16 ==> HexValue("abcdef"[v - 10]) == Some(v)
    ensures HexValue(c).Some? ==>
      && HexValue(c).value < 16
      && (c == HexDigit(HexValue(c).value) || c as int == HexDigit(HexValue(c).value) as int + 32)
  {
  }

  /** An escape is its octet; any other character, a stray percent sign included, is its own encoding. */
  lemma {:induction false} DecodeStep(s: string, hi: char, lo: char)
    ensures HexValue(hi).Some? && HexValue(lo).Some? ==>
      DecodeOctets(['%', hi, lo] + s) == [HexValue(hi).value * 16 + HexValue(lo).value] + DecodeOctets(s)
    ensures s != "" && !(s[0] == '%' && |s| >= 3 && HexValue(s[1]).Some? && HexValue(s[2]).Some?) ==>
      DecodeOctets(s) == Utf8.EncodeChar(s[0]) + DecodeOctets(s[1..])
  {
    assert (['%', hi, lo] + s)[3..] == s;
  }

  /** The three spellings of a colon, in any place of any path. */
  lemma {:induction false} OneColon(a: string, b: string)
    ensures Canonical(a + (":" + b)) == Canonical(a + ("%3A" + b)) == Canonical(a + ("%3a" + b))
  {
    ColonCanonical(a, ":", "%3A", b);
    ColonCanonical(a, ":", "%3a", b);
  }
}
