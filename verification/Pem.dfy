/** The textual layer of a PEM public key, as `parse_rsa_public_key_pem` peels it off. */
module Pem {
  import opened Prelude
  import opened Bytes
  import opened Text
  import Base64
  import Der

  const HEADER: string := "-----BEGIN PUBLIC KEY-----"
  const FOOTER: string := "-----END PUBLIC KEY-----"

  /** The characters `str.splitlines` breaks at. */
  predicate IsBreak(c: char) {
    var u := c as int;
    10 <= u <= 13 || 28 <= u <= 30 || u == 0x85 || u == 0x2028 || u == 0x2029
  }

  function FirstBreak(s: string): (i: nat)
    ensures i <= |s|
    ensures i < |s| ==> IsBreak(s[i])
  {
    if s == "" || IsBreak(s[0]) then 0 else 1 + FirstBreak(s[1..])
  }

  /** str.splitlines: "\r\n" is one break, and a final break opens no further line. */
  function SplitLines(s: string): seq<string>
    decreases |s|
  {
    var i := FirstBreak(s);
    if s == "" then []
    else if i == |s| then [s]
    else if i + 1 < |s| && s[i] == '\r' && s[i + 1] == '\n' then [s[..i]] + SplitLines(s[i + 2..])
    else [s[..i]] + SplitLines(s[i + 1..])
  }

  predicate HasMarker(line: string) {
    Contains(line, "BEGIN") || Contains(line, "END")
  }

  predicate Kept(line: string) {
    Strip(line) != "" && !HasMarker(line)
  }

  /** The stripped lines that survive the filter, run together. */
  function KeptText(lines: seq<string>): string {
    if lines == [] then ""
    else if Kept(lines[0]) then Strip(lines[0]) + KeptText(lines[1..])
    else KeptText(lines[1..])
  }

  /** The DER octets of a PEM text; None stands for base64's ValueError. */
  function PemToDer(pem: string): Option<seq<byte>> {
    Base64.Decode(KeptText(SplitLines(Strip(pem))))
  }

  datatype PemError = BadBase64 | BadKey(error: Der.KeyError)

  function ParsePem(pem: string): Result<(nat, nat), PemError> {
    match PemToDer(pem)
    case None => Err(BadBase64)
    case Some(der) =>
      match Der.ParseSpki(der)
      case Err(error) => Err(BadKey(error))
      case Ok(key) => Ok(key)
  }

  // ---------------------------------------------------------------------------
  // Armoured keys
  // ---------------------------------------------------------------------------

  /** Non-empty lines holding the base64 text of some octets, wrapped anywhere. */
  predicate Wraps(lines: seq<string>, der: seq<byte>) {
    && Flatten(lines) == Base64.Encode(der, Base64.Standard)
    && forall i :: 0 <= i < |lines| ==> lines[i] != ""
  }

  function Armor(lines: seq<string>): string {
    Join([HEADER] + lines + [FOOTER], "\n") + "\n"
  }

  /** Visible ASCII only: no white space and no line break. */
  predicate Plain(line: string) {
    forall i :: 0 <= i < |line| ==> 32 < line[i] as int < 128
  }

  lemma {:induction false} WrappedLinesPlain(lines: seq<string>)
    requires Plain(Flatten(lines))
    ensures forall i :: 0 <= i < |lines| ==> Plain(lines[i])
  {
    if lines != [] {
      var text := Flatten(lines);
      assert text == lines[0] + Flatten(lines[1..]);
      assert forall i :: 0 <= i < |lines[0]| ==> text[i] == lines[0][i];
      assert forall i :: 0 <= i < |Flatten(lines[1..])| ==> text[|lines[0]| + i] == Flatten(lines[1..])[i];
      WrappedLinesPlain(lines[1..]);
    }
  }

  predicate NoBreak(s: string) {
    forall i :: 0 <= i < |s| ==> !IsBreak(s[i])
  }

  lemma {:induction false} FirstBreakIs(a: string, rest: string)
    requires NoBreak(a)
    ensures FirstBreak(a) == |a|
    ensures FirstBreak(a + "\n" + rest) == |a|
  {
    if a != "" {
      assert (a + "\n" + rest)[1..] == a[1..] + "\n" + rest;
      FirstBreakIs(a[1..], rest);
    }
  }

  lemma SplitLinesCons(a: string, rest: string)
    requires NoBreak(a)
    ensures SplitLines(a + "\n" + rest) == [a] + SplitLines(rest)
  {
    FirstBreakIs(a, rest);
    var s := a + "\n" + rest;
    assert s[..|a|] == a && s[|a| + 1..] == rest;
  }

  lemma {:induction false} SplitLinesJoin(parts: seq<string>)
    requires parts != []
    requires forall i :: 0 <= i < |parts| ==> NoBreak(parts[i]) && parts[i] != ""
    ensures SplitLines(Join(parts, "\n")) == parts
  {
    if |parts| == 1 {
      FirstBreakIs(parts[0], "");
    } else {
      SplitLinesJoin(parts[1..]);
      SplitLinesCons(parts[0], Join(parts[1..], "\n"));
      assert parts == [parts[0]] + parts[1..];
    }
  }

  lemma {:induction false} JoinEnds(parts: seq<string>)
    requires parts != [] && parts[0] != "" && parts[|parts| - 1] != ""
    ensures Join(parts, "\n") != ""
    ensures Join(parts, "\n")[0] == parts[0][0]
    ensures Join(parts, "\n")[|Join(parts, "\n")| - 1] == parts[|parts| - 1][|parts[|parts| - 1]| - 1]
  {
    if |parts| > 1 {
      var rest := parts[1..];
      assert rest[|rest| - 1] == parts[|parts| - 1];
      if |rest| > 1 && rest[0] == "" {
        JoinLast(rest);
      } else {
        JoinEnds(rest);
      }
    }
  }

  lemma {:induction false} JoinLast(parts: seq<string>)
    requires parts != [] && parts[|parts| - 1] != ""
    ensures Join(parts, "\n") != ""
    ensures Join(parts, "\n")[|Join(parts, "\n")| - 1] == parts[|parts| - 1][|parts[|parts| - 1]| - 1]
  {
    if |parts| > 1 {
      assert parts[1..][|parts| - 2] == parts[|parts| - 1];
      JoinLast(parts[1..]);
    }
  }

  lemma StripFinalNewline(s: string)
    requires s != "" && Trimmed(s)
    ensures Strip(s + "\n") == s
  {
    var t := s + "\n";
    assert LStrip(t) == t;
    assert t[..|t| - 1] == s;
    assert RStrip(t) == RStrip(s);
  }

  /** The armoured text splits back into its lines. */
  lemma ArmorLines(lines: seq<string>)
    requires forall i :: 0 <= i < |lines| ==> Plain(lines[i]) && lines[i] != ""
    ensures SplitLines(Strip(Armor(lines))) == [HEADER] + lines + [FOOTER]
  {
    var parts := [HEADER] + lines + [FOOTER];
    assert NoBreak(HEADER) && NoBreak(FOOTER);
    assert forall i :: 0 <= i < |parts| ==> NoBreak(parts[i]) && parts[i] != "";
    SplitLinesJoin(parts);
    JoinEnds(parts);
    StripFinalNewline(Join(parts, "\n"));
  }

  lemma PlainIsTrimmed(line: string)
    requires Plain(line) && line != ""
    ensures Strip(line) == line
  {
    StripTrimmed(line);
  }

  lemma {:induction false} KeptTextAppend(a: seq<string>, b: seq<string>)
    ensures KeptText(a + b) == KeptText(a) + KeptText(b)
  {
    if a == [] {
      assert a + b == b;
    } else {
      assert (a + b)[1..] == a[1..] + b;
      KeptTextAppend(a[1..], b);
    }
  }

  /** The armour lines themselves are filtered out. */
  lemma ArmorText(lines: seq<string>)
    requires forall i :: 0 <= i < |lines| ==> Plain(lines[i]) && lines[i] != ""
    ensures PemToDer(Armor(lines)) == Base64.Decode(KeptText(lines))
  {
    ArmorLines(lines);
    HeaderMarked();
    FooterMarked();
    ArmorKept(HEADER, lines, FOOTER);
  }

  lemma HeaderMarked()
    ensures HasMarker(HEADER)
  {
    MarkerAt(HEADER, "-----", "BEGIN", " PUBLIC KEY-----");
  }

  lemma FooterMarked()
    ensures HasMarker(FOOTER)
  {
    MarkerAt(FOOTER, "-----", "END", " PUBLIC KEY-----");
  }

  lemma ArmorKept(header: string, lines: seq<string>, footer: string)
    requires HasMarker(header) && HasMarker(footer)
    ensures KeptText([header] + lines + [footer]) == KeptText(lines)
  {
    KeptTextAppend([header] + lines, [footer]);
    KeptTextAppend([header], lines);
    assert KeptText([header][1..]) == "" && KeptText([footer][1..]) == "";
  }

  lemma MarkerAt(line: string, before: string, word: string, after: string)
    requires line == before + word + after && (word == "BEGIN" || word == "END")
    ensures HasMarker(line)
  {
    assert OccursAt(line, word, |before|);
  }

  lemma {:induction false} AllKept(lines: seq<string>)
    requires forall i :: 0 <= i < |lines| ==> Plain(lines[i]) && lines[i] != "" && !HasMarker(lines[i])
    ensures KeptText(lines) == Flatten(lines)
  {
    if lines != [] {
      PlainIsTrimmed(lines[0]);
      AllKept(lines[1..]);
    }
  }

  /** A marker is at least three alphabet characters. */
  lemma MarkerHasData(line: string)
    requires HasMarker(line)
    ensures Base64.DataCount(line) >= 3
  {
    MarkerWordData();
    if Contains(line, "BEGIN") {
      PartHasData(line, "BEGIN");
    } else {
      PartHasData(line, "END");
    }
  }

  lemma PartHasData(line: string, word: string)
    requires Contains(line, word)
    ensures Base64.DataCount(line) >= Base64.DataCount(word)
  {
    var i :| 0 <= i <= |line| && OccursAt(line, word, i);
    var after := line[i + |word|..];
    assert line == line[..i] + (word + after);
    Base64.DataCountAppend(line[..i], word + after);
    Base64.DataCountAppend(word, after);
  }

  lemma MarkerWordData()
    ensures Base64.DataCount("END") >= 3 && Base64.DataCount("BEGIN") >= 3
  {
    assert "END"[1..] == "ND" && "ND"[1..] == "D";
    assert "BEGIN"[1..] == "EGIN" && "EGIN"[1..] == "GIN" && "GIN"[1..] == "IN";
  }

  /** Dropping a marked line loses at least three alphabet characters. */
  lemma {:induction false} DroppedData(lines: seq<string>)
    requires forall i :: 0 <= i < |lines| ==> Plain(lines[i]) && lines[i] != ""
    ensures Base64.DataCount(KeptText(lines)) <= Base64.DataCount(Flatten(lines))
    ensures (exists i :: 0 <= i < |lines| && HasMarker(lines[i])) ==>
      Base64.DataCount(KeptText(lines)) + 3 <= Base64.DataCount(Flatten(lines))
  {
    if lines != [] {
      PlainIsTrimmed(lines[0]);
      DroppedData(lines[1..]);
      Base64.DataCountAppend(lines[0], Flatten(lines[1..]));
      Base64.DataCountAppend(lines[0], KeptText(lines[1..]));
      if HasMarker(lines[0]) {
        MarkerHasData(lines[0]);
      } else if exists i :: 0 <= i < |lines| && HasMarker(lines[i]) {
        var i :| 0 <= i < |lines| && HasMarker(lines[i]);
        assert HasMarker(lines[1..][i - 1]);
      }
    }
  }

  /**
   * The octets come back iff no base64 line happens to hold "BEGIN" or "END": the line filter
   * drops such lines, and what is left is too short for the same octets.
   */
  lemma {:induction false} PemDecodesIff(der: seq<byte>, lines: seq<string>)
    requires Wraps(lines, der)
    ensures PemToDer(Armor(lines)) == Some(der) <==> forall i :: 0 <= i < |lines| ==> !HasMarker(lines[i])
  {
    Base64.EncodeAscii(der, Base64.Standard);
    WrappedLinesPlain(lines);
    ArmorText(lines);
    if forall i :: 0 <= i < |lines| ==> !HasMarker(lines[i]) {
      AllKept(lines);
      Base64.DecodeEncode(der);
    } else {
      DroppedData(lines);
      Base64.DataCountEncode(der);
      Base64.ScanLength(KeptText(lines), 0, 0, 0);
    }
  }

  /** A key whose base64 lines avoid the markers survives the whole way through PEM and DER. */
  lemma {:induction false} PemRoundTrip(n: nat, e: nat, p: Der.SpkiParts, der: seq<byte>, lines: seq<string>)
    requires Der.Encodes(der, p, n, e) && Wraps(lines, der)
    requires forall i :: 0 <= i < |lines| ==> !HasMarker(lines[i])
    ensures ParsePem(Armor(lines)) == Ok((n, e))
  {
    PemDecodesIff(der, lines);
    Der.ParseEncoding(der, p, n, e);
  }

  // ---------------------------------------------------------------------------
  // Line breaks
  // ---------------------------------------------------------------------------

  /** The characters that end a line. */
  lemma BreakIs(c: char)
    ensures IsBreak(c) <==>
      c in "\n\U{000B}\U{000C}\r\U{001C}\U{001D}\U{001E}\U{0085}\U{2028}\U{2029}"
  {
  }

  lemma {:induction false} FirstBreakAt(a: string, c: char, rest: string)
    requires NoBreak(a) && IsBreak(c)
    ensures FirstBreak(a + [c] + rest) == |a|
  {
    if a != "" {
      assert (a + [c] + rest)[1..] == a[1..] + [c] + rest;
      FirstBreakAt(a[1..], c, rest);
    }
  }

  /** A line ends at its first break; "\r\n" is one. */
  lemma {:induction false} LineIs(a: string, c: char, rest: string)
    requires NoBreak(a) && IsBreak(c)
    ensures SplitLines(a + [c] + rest)
      == [a] + SplitLines(if c == '\r' && rest != "" && rest[0] == '\n' then rest[1..] else rest)
    ensures a != "" ==> SplitLines(a) == [a]
  {
    var s := a + [c] + rest;
    FirstBreakAt(a, c, rest);
    FirstBreakIs(a, "");
    assert s[..|a|] == a && s[|a| + 1..] == rest;
    assert rest != "" ==> s[|a| + 1] == rest[0] && s[|a| + 2..] == rest[1..];
  }

  /** White space around a line of visible characters makes no difference. */
  lemma {:induction false} PaddingIgnored(line: string, before: string, after: string, rest: seq<string>)
    requires Plain(line) && line != "" && !HasMarker(line)
    requires AllSpace(before) && AllSpace(after) && !HasMarker(before + (line + after))
    ensures KeptText([before + (line + after)] + rest) == KeptText([line] + rest)
  {
    PlainIsTrimmed(line);
    StripTrimmed(line);
    StripPadded(before + (line + after), before, line, after);
    assert ([before + (line + after)] + rest)[1..] == rest && ([line] + rest)[1..] == rest;
  }

  /** A line is dropped iff one of the two words is in it. */
  lemma {:induction false} MarkerIff(line: string)
    ensures HasMarker(line) <==>
      exists before, after :: line == before + "BEGIN" + after || line == before + "END" + after
  {
    if HasMarker(line) {
      var word := if Contains(line, "BEGIN") then "BEGIN" else "END";
      var i :| 0 <= i <= |line| && OccursAt(line, word, i);
      assert line == line[..i] + word + line[i + |word|..];
    }
    if before, after :| line == before + "BEGIN" + after || line == before + "END" + after {
      MarkerAt(line, before, if line == before + "BEGIN" + after then "BEGIN" else "END", after);
    }
  }
}
