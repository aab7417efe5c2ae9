/**
 * AWS Signature Version 4 as the Bedrock stub recomputes it: the canonical request, the
 * signature, the Authorization header grammar and the verification of a request.
 */
module SigV4 {
  import opened Prelude
  import opened Bytes
  import opened Text
  import opened StableSort
  import Utf8

  /** SHA-256 and HMAC-SHA-256, opaque. */
  datatype Crypto = Crypto(sha256: seq<byte> -> seq<byte>, hmac: (seq<byte>, seq<byte>) -> seq<byte>)

  const ALGORITHM: string := "AWS4-HMAC-SHA256"
  const TERMINATOR: string := "aws4_request"

  // ---------------------------------------------------------------------------
  // sorted(..) of a set of names
  // ---------------------------------------------------------------------------

  predicate IsLeast(x: string, s: set<string>) {
    x in s && forall y :: y in s ==> y == x || StringLess(x, y)
  }

  lemma {:induction false} LeastExists(s: set<string>)
    requires s != {}
    ensures exists x :: IsLeast(x, s)
  {
    var z :| z in s;
    if s == {z} {
      assert IsLeast(z, s);
    } else {
      LeastExists(s - {z});
      var x :| IsLeast(x, s - {z});
      StringLessTotal(x, z);
      if StringLess(x, z) {
        assert IsLeast(x, s);
      } else {
        forall y | y in s
          ensures y == z || StringLess(z, y)
        {
          if y != z && y != x {
            StringLessTransitive(z, x, y);
          }
        }
        assert IsLeast(z, s);
      }
    }
  }

  lemma LeastUnique(x: string, y: string, s: set<string>)
    requires IsLeast(x, s) && IsLeast(y, s)
    ensures x == y
  {
    if x != y {
      StringLessAsymmetric(x, y);
    }
  }

  function Least(s: set<string>): (x: string)
    requires s != {}
    ensures IsLeast(x, s)
  {
    LeastExists(s);
    assert forall x, y | IsLeast(x, s) && IsLeast(y, s) :: x == y by {
      forall x, y | IsLeast(x, s) && IsLeast(y, s) ensures x == y { LeastUnique(x, y, s); }
    }
    var x :| IsLeast(x, s);
    x
  }

  function SortedNames(s: set<string>): seq<string>
    decreases |s|
  {
    if s == {} then [] else [Least(s)] + SortedNames(s - {Least(s)})
  }

  lemma {:induction false} SortedNamesElements(s: set<string>)
    ensures forall x :: x in SortedNames(s) <==> x in s
    decreases |s|
  {
    if s != {} {
      SortedNamesElements(s - {Least(s)});
    }
  }

  // ---------------------------------------------------------------------------
  // Signing
  // ---------------------------------------------------------------------------

  function HexChar(v: nat): char
    requires v < 16
  {
    if v < 10 then (48 + v) as char else (87 + v) as char
  }

  /** bytes.hexdigest(): lower-case hexadecimal. */
  function Hex(b: seq<byte>): string {
    if b == [] then "" else [HexChar(b[0] / 16), HexChar(b[0] % 16)] + Hex(b[1..])
  }

  /** What a signature covers; header names are lower-case. */
  datatype Request = Request(
    verb: string, uri: string, query: string, headers: map<string, string>, payloadHash: string)

  /** Who signs, where and when. */
  datatype Scope = Scope(service: string, region: string, secret: string, amzDate: string)

  type Field = (string, string)

  /** Sorted names with their stripped values. */
  function Fields(headers: map<string, string>): (fields: seq<Field>)
    ensures |fields| == |SortedNames(headers.Keys)|
    ensures forall i :: 0 <= i < |fields| ==>
      && fields[i].0 == SortedNames(headers.Keys)[i] && fields[i].0 in headers
      && fields[i].1 == Strip(headers[fields[i].0])
  {
    SortedNamesElements(headers.Keys);
    var names := SortedNames(headers.Keys);
    seq(|names|, i requires 0 <= i < |names| => (names[i], Strip(headers[names[i]])))
  }

  /** The "name:value" lines, each ended by a line break, followed by `tail`. */
  function FieldLines(fields: seq<Field>, tail: string): string {
    if fields == [] then tail
    else fields[0].0 + (":" + (fields[0].1 + ("\n" + FieldLines(fields[1..], tail))))
  }

  function CanonicalRequest(r: Request): string {
    var nameList := Join(SortedNames(r.headers.Keys), ";");
    r.verb + ("\n" + (r.uri + ("\n" + (r.query + ("\n" +
      FieldLines(Fields(r.headers), "\n" + (nameList + ("\n" + r.payloadHash))))))))
  }

  function Datestamp(amzDate: string): string {
    if |amzDate| >= 8 then amzDate[..8] else amzDate
  }

  function Hmac(c: Crypto, key: seq<byte>, data: string): seq<byte> {
    c.hmac(key, Utf8.Encode(data))
  }

  function SigningKey(c: Crypto, scope: Scope): seq<byte> {
    var kDate := Hmac(c, Utf8.Encode("AWS4" + scope.secret), Datestamp(scope.amzDate));
    var kRegion := Hmac(c, kDate, scope.region);
    var kService := Hmac(c, kRegion, scope.service);
    Hmac(c, kService, TERMINATOR)
  }

  function StringToSign(c: Crypto, r: Request, scope: Scope): string {
    var credentialScope := Datestamp(scope.amzDate) + "/" + scope.region + "/" + scope.service + "/" + TERMINATOR;
    ALGORITHM + "\n" + scope.amzDate + "\n" + credentialScope + "\n"
      + Hex(c.sha256(Utf8.Encode(CanonicalRequest(r))))
  }

  /** sigv4_signature. */
  function Signature(c: Crypto, r: Request, scope: Scope): string {
    Hex(Hmac(c, SigningKey(c, scope), StringToSign(c, r, scope)))
  }

  // ---------------------------------------------------------------------------
  // The texts that are hashed
  // ---------------------------------------------------------------------------

  predicate Ascending(names: seq<string>) {
    forall i, j :: 0 <= i < j < |names| ==> StringLess(names[i], names[j])
  }

  lemma FirstIsLeast(s: set<string>, names: seq<string>)
    requires names != [] && Ascending(names) && forall x :: x in s <==> x in names
    ensures s != {} && Least(s) == names[0]
  {
    assert names[0] in s;
    assert IsLeast(names[0], s);
    LeastUnique(names[0], Least(s), s);
  }

  lemma WithoutFirst(s: set<string>, names: seq<string>)
    requires names != [] && Ascending(names) && forall x :: x in s <==> x in names
    ensures Ascending(names[1..]) && forall x :: x in s - {names[0]} <==> x in names[1..]
  {
    forall x
      ensures x in s - {names[0]} <==> x in names[1..]
    {
      StringLessAsymmetricOn(names[0]);
      assert names == [names[0]] + names[1..];
    }
  }

  /** The sorted names of a set are its one ascending listing. */
  lemma {:induction false} SortedNamesAre(s: set<string>, names: seq<string>)
    requires Ascending(names) && forall x :: x in s <==> x in names
    ensures SortedNames(s) == names
    decreases |names|
  {
    if names == [] {
      assert s == {};
    } else {
      FirstIsLeast(s, names);
      WithoutFirst(s, names);
      SortedNamesAre(s - {names[0]}, names[1..]);
    }
  }

  lemma StringLessAsymmetricOn(x: string)
    ensures !StringLess(x, x)
  {
    if StringLess(x, x) {
      StringLessAsymmetric(x, x);
    }
  }

  /** Two digits of `text` for each octet, the high one first. */
  predicate Spells(text: string, octets: seq<byte>) {
    && |text| == 2 * |octets|
    && forall i :: 0 <= i < |octets| ==>
      && text[2 * i] == "0123456789abcdef"[octets[i] / 16]
      && text[2 * i + 1] == "0123456789abcdef"[octets[i] % 16]
  }

  lemma HexCharIs(v: nat)
    requires v < 16
    ensures HexChar(v) == "0123456789abcdef"[v]
  {
  }

  lemma SpellsCons(x: byte, text: string, b: seq<byte>)
    requires Spells(text, b)
    ensures Spells(["0123456789abcdef"[x / 16], "0123456789abcdef"[x % 16]] + text, [x] + b)
  {
    var whole, octets := ["0123456789abcdef"[x / 16], "0123456789abcdef"[x % 16]] + text, [x] + b;
    forall i | 1 <= i < |octets|
      ensures whole[2 * i] == text[2 * (i - 1)] && whole[2 * i + 1] == text[2 * (i - 1) + 1] && octets[i] == b[i - 1]
    {
    }
  }

  lemma {:induction false} HexSpells(b: seq<byte>)
    ensures Spells(Hex(b), b)
  {
    if b != [] {
      HexSpells(b[1..]);
      HexCharIs(b[0] / 16);
      HexCharIs(b[0] % 16);
      SpellsCons(b[0], Hex(b[1..]), b[1..]);
      assert b == [b[0]] + b[1..];
    }
  }

  lemma SpellsOnce(s: string, t: string, b: seq<byte>)
    requires Spells(s, b) && Spells(t, b)
    ensures s == t
  {
    forall k | 0 <= k < |s|
      ensures s[k] == t[k]
    {
      var i := k / 2;
      assert 0 <= i < |b| && (k == 2 * i || k == 2 * i + 1);
      assert s[2 * i] == t[2 * i] && s[2 * i + 1] == t[2 * i + 1];
    }
  }

  /** Which text a hexadecimal digest is. */
  lemma HexIff(b: seq<byte>, text: string)
    ensures Hex(b) == text <==> Spells(text, b)
  {
    HexSpells(b);
    if Spells(text, b) {
      SpellsOnce(Hex(b), text, b);
    }
  }

  /** The header lines of the canonical request, and the line break that ends each. */
  function HeaderLines(names: seq<string>, values: seq<string>): string
    requires |names| == |values|
  {
    if names == [] then "" else names[0] + ":" + values[0] + "\n" + HeaderLines(names[1..], values[1..])
  }

  lemma {:induction false} FieldLinesAre(fields: seq<Field>, names: seq<string>, values: seq<string>, tail: string)
    requires |fields| == |names| == |values|
    requires forall i :: 0 <= i < |fields| ==> fields[i] == (names[i], values[i])
    ensures FieldLines(fields, tail) == HeaderLines(names, values) + tail
  {
    if fields != [] {
      FieldLinesAre(fields[1..], names[1..], values[1..], tail);
    }
  }

  lemma JoinCons(line: string, rest: seq<string>)
    requires rest != []
    ensures Join([line] + rest, "\n") == line + ("\n" + Join(rest, "\n"))
  {
    assert ([line] + rest)[1..] == rest;
    assert line + "\n" + Join(rest, "\n") == line + ("\n" + Join(rest, "\n"));
  }

  lemma JoinSix(a: string, b: string, c: string, d: string, e: string, f: string)
    ensures Join([a, b, c, d, e, f], "\n")
      == a + ("\n" + (b + ("\n" + (c + ("\n" + (d + ("\n" + (e + ("\n" + f)))))))))
  {
    JoinCons(e, [f]);
    JoinCons(d, [e, f]);
    JoinCons(c, [d, e, f]);
    JoinCons(b, [c, d, e, f]);
    JoinCons(a, [b, c, d, e, f]);
  }

  /**
   * The canonical request, for any headers: `names` lists them in order, `values` what they hold
   * between white space.
   */
  lemma CanonicalRequestIs(r: Request, names: seq<string>, values: seq<string>)
    requires Ascending(names) && (forall k :: k in r.headers <==> k in names)
    requires |values| == |names| && forall i :: 0 <= i < |names| ==> Strip(r.headers[names[i]]) == values[i]
    ensures CanonicalRequest(r)
      == Join([r.verb, r.uri, r.query, HeaderLines(names, values), Join(names, ";"), r.payloadHash], "\n")
  {
    SortedNamesAre(r.headers.Keys, names);
    var tail := Join(names, ";") + ("\n" + r.payloadHash);
    FieldLinesAre(Fields(r.headers), names, values, "\n" + tail);
    JoinSix(r.verb, r.uri, r.query, HeaderLines(names, values), Join(names, ";"), r.payloadHash);
  }

  /** The text to sign: the algorithm, the time, the scope and the digest, a line each. */
  lemma StringToSignIs(c: Crypto, r: Request, scope: Scope, date: string)
    requires Datestamp(scope.amzDate) == date
    ensures StringToSign(c, r, scope) ==
      "AWS4-HMAC-SHA256" + "\n" + scope.amzDate + "\n"
      + (date + "/" + scope.region + "/" + scope.service + "/" + "aws4_request") + "\n"
      + Hex(c.sha256(Utf8.Encode(CanonicalRequest(r))))
  {
  }

  lemma DatestampIs(date: string, time: string)
    requires |date| == 8 || (|date| < 8 && time == "")
    ensures Datestamp(date + time) == date
  {
  }

  /**
   * The signature, for any scope: a chain of MACs over the date, the region, the service and
   * "aws4_request", and the MAC of the text to sign under the last key.
   */
  lemma SignatureIs(c: Crypto, r: Request, scope: Scope, date: string, time: string)
    requires scope.amzDate == date + time && (|date| == 8 || (|date| < 8 && time == ""))
    ensures
      var dateKey := c.hmac(Utf8.Encode("AWS4" + scope.secret), Utf8.Encode(date));
      var regionKey := c.hmac(dateKey, Utf8.Encode(scope.region));
      var serviceKey := c.hmac(regionKey, Utf8.Encode(scope.service));
      var signingKey := c.hmac(serviceKey, Utf8.Encode("aws4_request"));
      var text := "AWS4-HMAC-SHA256" + "\n" + scope.amzDate + "\n"
        + (date + "/" + scope.region + "/" + scope.service + "/" + "aws4_request") + "\n"
        + Hex(c.sha256(Utf8.Encode(CanonicalRequest(r))));
      Signature(c, r, scope) == Hex(c.hmac(signingKey, Utf8.Encode(text)))
  {
    DatestampIs(date, time);
    StringToSignIs(c, r, scope, date);
  }

  // ---------------------------------------------------------------------------
  // The published request "get-vanilla"
  // ---------------------------------------------------------------------------

  /** The canonical text of a request with two headers. */
  function TwoHeaderText(
      verb: string, uri: string, query: string, first: string, a: string, second: string, b: string, hash: string)
      : string
  {
    Join([verb, uri, query, first + ":" + a + "\n" + (second + ":" + b + "\n"), first + ";" + second, hash], "\n")
  }

  lemma LinesCons(name: string, value: string, names: seq<string>, values: seq<string>)
    requires |names| == |values|
    ensures HeaderLines([name] + names, [value] + values) == name + ":" + value + "\n" + HeaderLines(names, values)
  {
    assert ([name] + names)[1..] == names && ([value] + values)[1..] == values;
  }

  lemma TwoLines(first: string, a: string, second: string, b: string)
    ensures HeaderLines([first, second], [a, b]) == first + ":" + a + "\n" + (second + ":" + b + "\n")
    ensures Join([first, second], ";") == first + ";" + second
  {
    LinesCons(second, b, [], []);
    LinesCons(first, a, [second], [b]);
    var last := second + ":" + b + "\n";
    assert last + "" == last;
    assert [first] + [second] == [first, second] && [a] + [b] == [a, b];
    assert [second] + [] == [second] && [b] + [] == [b];
    assert [first, second][1..] == [second];
  }

  lemma TwoAscend(first: string, second: string)
    requires StringLess(first, second)
    ensures first != second && Ascending([first, second])
  {
    StringLessAsymmetricOn(first);
  }

  function TwoHeaderRequest(
      verb: string, uri: string, query: string, first: string, a: string, second: string, b: string, hash: string)
      : Request
  {
    Request(verb, uri, query, map[first := a, second := b], hash)
  }

  lemma TwoHeaders(
      verb: string, uri: string, query: string, first: string, a: string, second: string, b: string, hash: string)
    requires StringLess(first, second) && Strip(a) == a && Strip(b) == b
    ensures CanonicalRequest(TwoHeaderRequest(verb, uri, query, first, a, second, b, hash))
      == TwoHeaderText(verb, uri, query, first, a, second, b, hash)
  {
    var names, values, headers := [first, second], [a, b], map[first := a, second := b];
    TwoAscend(first, second);
    TwoLines(first, a, second, b);
    forall i | 0 <= i < 2
      ensures names[i] in headers && Strip(headers[names[i]]) == values[i]
    {
      assert if i == 0 then names[i] == first else names[i] == second;
    }
    CanonicalRequestIs(TwoHeaderRequest(verb, uri, query, first, a, second, b, hash), names, values);
  }

  /** The signature follows from what the hash and the MAC make of the texts it is built from. */
  lemma SignatureFrom(
      c: Crypto, r: Request, scope: Scope, date: string, time: string, canonical: string, digest: string,
      dateKey: seq<byte>, regionKey: seq<byte>, serviceKey: seq<byte>, signingKey: seq<byte>, signature: string)
    requires scope.amzDate == date + time && |date| == 8 && CanonicalRequest(r) == canonical
    requires Spells(digest, c.sha256(Utf8.Encode(canonical)))
    requires c.hmac(Utf8.Encode("AWS4" + scope.secret), Utf8.Encode(date)) == dateKey
    requires c.hmac(dateKey, Utf8.Encode(scope.region)) == regionKey
    requires c.hmac(regionKey, Utf8.Encode(scope.service)) == serviceKey
    requires c.hmac(serviceKey, Utf8.Encode("aws4_request")) == signingKey
    requires Spells(signature, c.hmac(signingKey, Utf8.Encode(
      "AWS4-HMAC-SHA256" + "\n" + scope.amzDate + "\n"
        + (date + "/" + scope.region + "/" + scope.service + "/" + "aws4_request") + "\n" + digest)))
    ensures Signature(c, r, scope) == signature
  {
    HexIff(c.sha256(Utf8.Encode(canonical)), digest);
    SignatureIs(c, r, scope, date, time);
    HexIff(c.hmac(signingKey, Utf8.Encode(
      "AWS4-HMAC-SHA256" + "\n" + scope.amzDate + "\n"
        + (date + "/" + scope.region + "/" + scope.service + "/" + "aws4_request") + "\n" + digest)), signature);
  }

  const EXAMPLE_SECRET: string := "wJalrXUtnFEMI/K7MDENG+bPxRfiCYEXAMPLEKEY"
  const ExampleScope: Scope := Scope("service", "us-east-1", EXAMPLE_SECRET, "20150830T123600Z")

  function VanillaRequest(emptyDigest: string): Request {
    TwoHeaderRequest(
      "GET", "/", "", "host", "example.amazonaws.com", "x-amz-date", "20150830T123600Z", emptyDigest)
  }

  lemma VanillaNames()
    ensures StringLess("host", "x-amz-date")
  {
  }

  lemma VanillaHost()
    ensures Strip("example.amazonaws.com") == "example.amazonaws.com"
  {
    StripTrimmed("example.amazonaws.com");
  }

  lemma VanillaDate()
    ensures Strip("20150830T123600Z") == "20150830T123600Z"
  {
    StripTrimmed("20150830T123600Z");
  }

  lemma VanillaDay()
    ensures "20150830T123600Z" == "20150830" + "T123600Z"
  {
  }

  lemma VanillaCanonical(emptyDigest: string)
    ensures CanonicalRequest(VanillaRequest(emptyDigest)) == TwoHeaderText(
      "GET", "/", "", "host", "example.amazonaws.com", "x-amz-date", "20150830T123600Z", emptyDigest)
  {
    VanillaNames();
    VanillaHost();
    VanillaDate();
    TwoHeaders("GET", "/", "", "host", "example.amazonaws.com", "x-amz-date", "20150830T123600Z", emptyDigest);
  }

  /**
   * The published request and scope, for every hash and MAC: what they make of these texts is the
   * signature. (With SHA-256 and HMAC-SHA-256 it is 5fa00fa3...63fbf31.)
   */
  lemma {:induction false} GetVanilla(
      c: Crypto, emptyDigest: string, digest: string, signature: string,
      dateKey: seq<byte>, regionKey: seq<byte>, serviceKey: seq<byte>, signingKey: seq<byte>)
    requires Spells(digest, c.sha256(Utf8.Encode(TwoHeaderText(
      "GET", "/", "", "host", "example.amazonaws.com", "x-amz-date", "20150830T123600Z", emptyDigest))))
    requires dateKey
      == c.hmac(Utf8.Encode("AWS4" + "wJalrXUtnFEMI/K7MDENG+bPxRfiCYEXAMPLEKEY"), Utf8.Encode("20150830"))
    requires c.hmac(dateKey, Utf8.Encode("us-east-1")) == regionKey
    requires c.hmac(regionKey, Utf8.Encode("service")) == serviceKey
    requires c.hmac(serviceKey, Utf8.Encode("aws4_request")) == signingKey
    requires Spells(signature, c.hmac(signingKey, Utf8.Encode(
      "AWS4-HMAC-SHA256" + "\n" + "20150830T123600Z" + "\n"
        + ("20150830" + "/" + "us-east-1" + "/" + "service" + "/" + "aws4_request") + "\n" + digest)))
    ensures Signature(c, VanillaRequest(emptyDigest), ExampleScope) == signature
  {
    VanillaDay();
    VanillaCanonical(emptyDigest);
    SignatureFrom(c, VanillaRequest(emptyDigest), ExampleScope, "20150830", "T123600Z",
      CanonicalRequest(VanillaRequest(emptyDigest)),
      digest, dateKey, regionKey, serviceKey, signingKey, signature);
  }

  // ---------------------------------------------------------------------------
  // The canonical request determines the request
  // ---------------------------------------------------------------------------

  predicate OneLine(s: string) {
    '\n' !in s
  }

  /** No line break anywhere; names are non-empty and hold no colon. */
  predicate Clean(r: Request) {
    && OneLine(r.verb) && OneLine(r.uri) && OneLine(r.query) && OneLine(r.payloadHash)
    && forall k :: k in r.headers ==> k != "" && OneLine(k) && ':' !in k && OneLine(r.headers[k])
  }

  /** The same names, and the same values up to white space around them. */
  predicate SameHeaders(h: map<string, string>, h': map<string, string>) {
    h.Keys == h'.Keys && forall k :: k in h ==> Strip(h[k]) == Strip(h'[k])
  }

  /** Equality up to white space around header values. */
  predicate SameRequest(a: Request, b: Request) {
    && a.verb == b.verb && a.uri == b.uri && a.query == b.query && a.payloadHash == b.payloadHash
    && SameHeaders(a.headers, b.headers)
  }

  /** A first line and the rest are determined by their concatenation. */
  lemma FirstLine(a: string, c: char, x: string, b: string, y: string)
    requires c !in a && c !in b
    requires a + ([c] + x) == b + ([c] + y)
    ensures a == b && x == y
  {
    assert a + ([c] + x) == a + [c] + x && b + ([c] + y) == b + [c] + y;
    PartitionIs(a, c, x);
    PartitionIs(b, c, y);
  }

  lemma StripOneLine(s: string)
    requires OneLine(s)
    ensures OneLine(Strip(s))
  {
    if '\n' in Strip(s) {
      StripKeeps(s, '\n');
    }
  }

  /** Names can be told apart from their values, and fields from the end of the block. */
  predicate CleanFields(fields: seq<Field>) {
    forall i :: 0 <= i < |fields| ==>
      fields[i].0 != "" && OneLine(fields[i].0) && ':' !in fields[i].0 && OneLine(fields[i].1)
  }

  /** Field lines, closed by an empty line, determine the fields. */
  lemma {:induction false} FieldLinesInjective(f: seq<Field>, x: string, g: seq<Field>, y: string)
    requires CleanFields(f) && CleanFields(g)
    requires FieldLines(f, "\n" + x) == FieldLines(g, "\n" + y)
    ensures f == g && x == y
  {
    BlockStart(f, x);
    BlockStart(g, y);
    if f == [] {
      CancelPrefix("\n", x, y);
    } else {
      FirstField(f, "\n" + x, g, "\n" + y);
      FieldLinesInjective(f[1..], x, g[1..], y);
      assert f == [f[0]] + f[1..] && g == [g[0]] + g[1..];
    }
  }

  /** A block starts with a line break only when it lists no field. */
  lemma BlockStart(f: seq<Field>, x: string)
    requires CleanFields(f)
    ensures var text := FieldLines(f, "\n" + x);
      text != "" && (text[0] == '\n' <==> f == [])
  {
    if f != [] {
      assert f[0].0[0] in f[0].0;
    }
  }

  lemma FirstField(f: seq<Field>, x: string, g: seq<Field>, y: string)
    requires CleanFields(f) && CleanFields(g) && f != [] && g != []
    requires FieldLines(f, x) == FieldLines(g, y)
    ensures f[0] == g[0] && FieldLines(f[1..], x) == FieldLines(g[1..], y)
  {
    var p, q := FieldLines(f[1..], x), FieldLines(g[1..], y);
    FirstLine(f[0].0, ':', f[0].1 + ("\n" + p), g[0].0, g[0].1 + ("\n" + q));
    FirstLine(f[0].1, '\n', p, g[0].1, q);
  }

  lemma CleanRequestFields(r: Request)
    requires Clean(r)
    ensures CleanFields(Fields(r.headers))
  {
    var f := Fields(r.headers);
    forall i | 0 <= i < |f|
      ensures f[i].0 != "" && OneLine(f[i].0) && ':' !in f[i].0 && OneLine(f[i].1)
    {
      StripOneLine(r.headers[f[i].0]);
    }
  }

  /** Equal canonical requests come from requests that agree on everything but value padding. */
  lemma CanonicalInjective(a: Request, b: Request)
    requires Clean(a) && Clean(b) && CanonicalRequest(a) == CanonicalRequest(b)
    ensures SameRequest(a, b)
  {
    CleanRequestFields(a);
    CleanRequestFields(b);
    var n, m := Join(SortedNames(a.headers.Keys), ";"), Join(SortedNames(b.headers.Keys), ";");
    var a4, b4 := n + ("\n" + a.payloadHash), m + ("\n" + b.payloadHash);
    var a3, b3 := FieldLines(Fields(a.headers), "\n" + a4), FieldLines(Fields(b.headers), "\n" + b4);
    var a2, b2 := a.query + ("\n" + a3), b.query + ("\n" + b3);
    FirstLine(a.verb, '\n', a.uri + ("\n" + a2), b.verb, b.uri + ("\n" + b2));
    FirstLine(a.uri, '\n', a2, b.uri, b2);
    FirstLine(a.query, '\n', a3, b.query, b3);
    FieldLinesInjective(Fields(a.headers), a4, Fields(b.headers), b4);
    FieldsDetermine(a.headers, b.headers);
    CancelPrefix(n, "\n" + a.payloadHash, "\n" + b.payloadHash);
    CancelPrefix("\n", a.payloadHash, b.payloadHash);
  }

  function NamesOf(fields: seq<Field>): seq<string> {
    seq(|fields|, i requires 0 <= i < |fields| => fields[i].0)
  }

  lemma NamesOfFields(h: map<string, string>)
    ensures NamesOf(Fields(h)) == SortedNames(h.Keys)
    ensures forall k :: k in NamesOf(Fields(h)) <==> k in h
  {
    SortedNamesElements(h.Keys);
    assert NamesOf(Fields(h)) == SortedNames(h.Keys);
  }

  lemma FieldValue(h: map<string, string>, k: string) returns (i: nat)
    requires k in h
    ensures i < |Fields(h)| && Fields(h)[i] == (k, Strip(h[k]))
  {
    SortedNamesElements(h.Keys);
    assert k in SortedNames(h.Keys);
    i :| 0 <= i < |SortedNames(h.Keys)| && SortedNames(h.Keys)[i] == k;
  }

  /** Equal field lists mean equal names and equal stripped values. */
  lemma FieldsDetermine(h: map<string, string>, h': map<string, string>)
    requires Fields(h) == Fields(h')
    ensures SortedNames(h.Keys) == SortedNames(h'.Keys) && SameHeaders(h, h')
  {
    NamesOfFields(h);
    NamesOfFields(h');
    SameKeys(h, h');
    forall k | k in h
      ensures Strip(h[k]) == Strip(h'[k])
    {
      var i := FieldValue(h, k);
      assert Fields(h')[i] == (k, Strip(h'[k]));
    }
  }

  lemma SameKeys(h: map<string, string>, h': map<string, string>)
    requires forall k :: k in h <==> k in h'
    ensures h.Keys == h'.Keys
  {
  }

  lemma FieldsAgree(h: map<string, string>, h': map<string, string>)
    requires SameHeaders(h, h')
    ensures Fields(h) == Fields(h')
  {
  }

  /** The canonical request is injective exactly up to header value padding. */
  lemma CanonicalIff(a: Request, b: Request)
    requires Clean(a) && Clean(b)
    ensures CanonicalRequest(a) == CanonicalRequest(b) <==> SameRequest(a, b)
  {
    if CanonicalRequest(a) == CanonicalRequest(b) {
      CanonicalInjective(a, b);
    }
    if SameRequest(a, b) {
      FieldsAgree(a.headers, b.headers);
    }
  }

  lemma {:induction false} HexInjective(a: seq<byte>, b: seq<byte>)
    requires Hex(a) == Hex(b)
    ensures a == b
  {
    if a != [] && b != [] {
      assert Hex(a)[..2] == [HexChar(a[0] / 16), HexChar(a[0] % 16)];
      assert Hex(b)[..2] == [HexChar(b[0] / 16), HexChar(b[0] % 16)];
      assert HexChar(a[0] / 16) == Hex(a)[0] && HexChar(a[0] % 16) == Hex(a)[1];
      assert Hex(a)[2..] == Hex(a[1..]) && Hex(b)[2..] == Hex(b[1..]);
      HexInjective(a[1..], b[1..]);
      assert a == [a[0]] + a[1..] && b == [b[0]] + b[1..];
    }
  }

  /**
   * A signature binds the whole request: two clean requests signed in the same scope with the
   * same signature agree, unless SHA-256 or the MAC collides on the very texts hashed here.
   */
  lemma {:induction false} SignatureBinds(c: Crypto, a: Request, b: Request, scope: Scope)
    requires Clean(a) && Clean(b) && Signature(c, a, scope) == Signature(c, b, scope)
    ensures var x, y := Utf8.Encode(CanonicalRequest(a)), Utf8.Encode(CanonicalRequest(b));
      var s, t := Utf8.Encode(StringToSign(c, a, scope)), Utf8.Encode(StringToSign(c, b, scope));
      var k := SigningKey(c, scope);
      || SameRequest(a, b)
      || (x != y && c.sha256(x) == c.sha256(y))
      || (s != t && c.hmac(k, s) == c.hmac(k, t))
  {
    var x, y := Utf8.Encode(CanonicalRequest(a)), Utf8.Encode(CanonicalRequest(b));
    var s, t := StringToSign(c, a, scope), StringToSign(c, b, scope);
    HexInjective(Hmac(c, SigningKey(c, scope), s), Hmac(c, SigningKey(c, scope), t));
    if Utf8.Encode(s) == Utf8.Encode(t) {
      Utf8.EncodeInjective(s, t);
      StringToSignTail(c, a, b, scope);
      HexInjective(c.sha256(x), c.sha256(y));
      if x == y {
        Utf8.EncodeInjective(CanonicalRequest(a), CanonicalRequest(b));
        CanonicalInjective(a, b);
      }
    }
  }

  lemma StringToSignTail(c: Crypto, a: Request, b: Request, scope: Scope)
    requires StringToSign(c, a, scope) == StringToSign(c, b, scope)
    ensures Hex(c.sha256(Utf8.Encode(CanonicalRequest(a)))) == Hex(c.sha256(Utf8.Encode(CanonicalRequest(b))))
  {
    var credentialScope := Datestamp(scope.amzDate) + "/" + scope.region + "/" + scope.service + "/" + TERMINATOR;
    var head := ALGORITHM + "\n" + scope.amzDate + "\n" + credentialScope + "\n";
    assert StringToSign(c, a, scope)[|head|..] == Hex(c.sha256(Utf8.Encode(CanonicalRequest(a))));
    assert StringToSign(c, b, scope)[|head|..] == Hex(c.sha256(Utf8.Encode(CanonicalRequest(b))));
  }
}
