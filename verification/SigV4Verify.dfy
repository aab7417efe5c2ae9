/** Parsing an Authorization header and verifying a request against it. */
module SigV4Verify {
  import opened Prelude
  import opened Bytes
  import opened Text
  import opened SigV4
  import Percent

  const FAKE_ACCESS_KEY_ID: string := "AKIDEXAMPLE"
  const FAKE_SECRET_ACCESS_KEY: string := "wJalrXUtnFEMI/K7MDENG+bPxRfiCYEXAMPLEKEY"
  const PREFIX: string := "AWS4-HMAC-SHA256 "

  const CREDENTIAL: string := "Credential"
  const SIGNED_HEADERS: string := "SignedHeaders"
  const SIGNATURE: string := "Signature"

  const AUTHORIZATION: string := "authorization"
  const AMZ_DATE: string := "x-amz-date"
  const AMZ_CONTENT_SHA256: string := "x-amz-content-sha256"

  // ---------------------------------------------------------------------------
  // The Authorization header
  // ---------------------------------------------------------------------------

  /** Key and value of a segment, stripped; None: it holds no "=". */
  function SegmentPair(segment: string): Option<(string, string)> {
    match Partition(Strip(segment), '=')
    case None => None
    case Some((key, value)) => Some((Strip(key), Strip(value)))
  }

  /** Fold of the comma-separated segments into a dictionary; None: a segment without "=". */
  function ParseSegments(segments: seq<string>, parts: map<string, string>): Option<map<string, string>> {
    if segments == [] then Some(parts) else
    match SegmentPair(segments[0])
    case None => None
    case Some((key, value)) => ParseSegments(segments[1..], parts[key := value])
  }

  predicate HasAllParts(parts: map<string, string>) {
    CREDENTIAL in parts && SIGNED_HEADERS in parts && SIGNATURE in parts
  }

  function ParsedAuthorization(auth: string): (r: Option<map<string, string>>)
    ensures r.Some? ==> HasAllParts(r.value)
  {
    if !StartsWith(auth, PREFIX) then None else
    match ParseSegments(Split(auth[|PREFIX|..], ','), map[])
    case None => None
    case Some(parts) => if HasAllParts(parts) then Some(parts) else None
  }

  /** One turn of the fold. */
  lemma ParseNext(segments: seq<string>, i: nat, parts: map<string, string>)
    requires i < |segments|
    ensures ParseSegments(segments[i..], parts) ==
      match SegmentPair(segments[i])
      case None => None
      case Some((key, value)) => ParseSegments(segments[i + 1..], parts[key := value])
  {
    assert segments[i..][1..] == segments[i + 1..];
  }

  /** The dictionary of parts, filled in a loop that gives up at a segment without "=". */
  method FillParts(segments: seq<string>) returns (r: Option<map<string, string>>)
    ensures r == ParseSegments(segments, map[])
  {
    var parts: map<string, string> := map[];
    ghost var whole := ParseSegments(segments, map[]);
    assert segments[0..] == segments;
    for i := 0 to |segments|
      invariant whole == ParseSegments(segments[i..], parts)
    {
      ParseNext(segments, i, parts);
      var pair := SegmentPair(segments[i]);
      if pair.None? {
        return None;
      }
      parts := parts[pair.value.0 := pair.value.1];
    }
    r := Some(parts);
  }

  /** _parse_authorization. */
  method ParseAuthorization(auth: string) returns (r: Option<map<string, string>>)
    ensures r == ParsedAuthorization(auth)
  {
    if !StartsWith(auth, PREFIX) {
      return None;
    }
    r := FillParts(Split(auth[|PREFIX|..], ','));
    if r.Some? && !HasAllParts(r.value) {
      r := None;
    }
  }

  // ---------------------------------------------------------------------------
  // The request
  // ---------------------------------------------------------------------------

  /** {k.lower(): v for k, v in headers.items()}: the last spelling of a name wins. */
  function LowerMap(headers: seq<(string, string)>): map<string, string> {
    if headers == [] then map[]
    else
      var last := headers[|headers| - 1];
      LowerMap(headers[..|headers| - 1])[Lower(last.0) := last.1]
  }

  /** The tab, CR and LF that urlsplit removes from a URL. */
  function RemoveBreaks(s: string): string {
    if s == "" then ""
    else if s[0] == '\t' || s[0] == '\r' || s[0] == '\n' then RemoveBreaks(s[1..])
    else [s[0]] + RemoveBreaks(s[1..])
  }

  /** What is before the first `c`. */
  function Before(s: string, c: char): string {
    s[..IndexOf(s, c)]
  }

  /** The length of the network location after "//". */
  function AuthorityEnd(s: string): (n: nat)
    ensures n <= |s|
  {
    if s == "" || s[0] == '/' || s[0] == '?' || s[0] == '#' then 0 else 1 + AuthorityEnd(s[1..])
  }

  /** Drops ";params" of the last path segment. */
  function DropParams(path: string): string {
    var semicolon := IndexOf(path, ';');
    if semicolon == |path| then path
    else if '/' in path[semicolon..] then
      var slash := semicolon + IndexOf(path[semicolon..], '/');
      path[..slash + 1] + DropParams(path[slash + 1..])
    else path[..semicolon]
  }

  /** Leading controls and blanks, which urlsplit drops. */
  function DropLeading(s: string): string {
    if s != "" && s[0] as int <= 0x20 then DropLeading(s[1..]) else s
  }

  predicate IsAsciiLetter(c: char) {
    'a' <= c <= 'z' || 'A' <= c <= 'Z'
  }

  predicate IsSchemeChar(c: char) {
    IsAsciiLetter(c) || '0' <= c <= '9' || c == '+' || c == '-' || c == '.'
  }

  /** The scheme, lower-cased, and what follows its colon; no scheme when the text starts otherwise. */
  function SplitScheme(url: string): (string, string) {
    var colon := IndexOf(url, ':');
    if 0 < colon < |url| && IsAsciiLetter(url[0]) && (forall i :: 0 <= i < colon ==> IsSchemeChar(url[i]))
    then (Lower(url[..colon]), url[colon + 1..])
    else ("", url)
  }

  /** The schemes for which urlparse splits off parameters. */
  const PARAMS_SCHEMES: set<string> := {
    "", "ftp", "hdl", "prospero", "http", "https", "shttp", "rtsp", "rtspu", "sip", "sips", "mms", "sftp", "tel"}

  /** What is before and after the '?', behind any network location and before any fragment. */
  function PathAndQuery(url: string): (string, string) {
    var local := if StartsWith(url, "//") then url[2 + AuthorityEnd(url[2..])..] else url;
    Partition(Before(local, '#'), '?').GetOr((Before(local, '#'), ""))
  }

  /** urlparse(target).path and .query. */
  function UrlSplit(target: string): (string, string) {
    var (scheme, url) := SplitScheme(RemoveBreaks(DropLeading(target)));
    var (path, query) := PathAndQuery(url);
    (if scheme in PARAMS_SCHEMES then DropParams(path) else path, query)
  }

  /** The dictionary of signed header values; None: a listed header is absent. */
  function SelectHeaders(names: seq<string>, h: map<string, string>): Option<map<string, string>> {
    if forall i :: 0 <= i < |names| ==> names[i] in h then Some(map k | k in names :: h[k]) else None
  }

  function GetOrEmpty(h: map<string, string>, k: string): string {
    if k in h then h[k] else ""
  }

  /** What an Authorization header claims, once its credential has been checked. */
  datatype Claim = Claim(region: string, service: string, names: seq<string>, signature: string)

  function ClaimOf(auth: string): Option<Claim> {
    match ParsedAuthorization(auth)
    case None => None
    case Some(parts) =>
      var credential := Split(parts[CREDENTIAL], '/');
      if |credential| != 5 || credential[4] != TERMINATOR || credential[0] != FAKE_ACCESS_KEY_ID then None
      else Some(Claim(credential[2], credential[3], Split(parts[SIGNED_HEADERS], ';'), parts[SIGNATURE]))
  }

  /** The request whose signature the verifier recomputes. */
  function Recomputed(verb: string, target: string, signedHeaders: map<string, string>, payloadHash: string): Request {
    var (path, query) := UrlSplit(target);
    Request(verb, Percent.Canonical(path), query, signedHeaders, payloadHash)
  }

  predicate VerifyClaim(
      c: Crypto, verb: string, target: string, h: map<string, string>, body: seq<byte>, claim: Claim)
  {
    var amzDate, payloadHash := GetOrEmpty(h, AMZ_DATE), GetOrEmpty(h, AMZ_CONTENT_SHA256);
    if amzDate == "" || payloadHash == "" || payloadHash != Hex(c.sha256(body)) then false
    else match SelectHeaders(claim.names, h)
      case None => false
      case Some(signedHeaders) =>
        Signature(c, Recomputed(verb, target, signedHeaders, payloadHash),
          Scope(claim.service, claim.region, FAKE_SECRET_ACCESS_KEY, amzDate)) == claim.signature
  }

  /** verify_request, with its checks in order. */
  predicate Verify(c: Crypto, verb: string, target: string, headers: seq<(string, string)>, body: seq<byte>) {
    var h := LowerMap(headers);
    var auth := GetOrEmpty(h, AUTHORIZATION);
    if auth == "" then false else
    match ClaimOf(auth)
    case None => false
    case Some(claim) => VerifyClaim(c, verb, target, h, body, claim)
  }

  /** The case-insensitive lookup table, filled in a loop. */
  method LowerHeaders(headers: seq<(string, string)>) returns (h: map<string, string>)
    ensures h == LowerMap(headers)
  {
    h := map[];
    for i := 0 to |headers|
      invariant h == LowerMap(headers[..i])
    {
      h := h[Lower(headers[i].0) := headers[i].1];
      assert headers[..i + 1][..i] == headers[..i];
    }
    assert headers[..|headers|] == headers;
  }

  /** The signed headers, collected in a loop that gives up at the first absent one. */
  method CollectSigned(names: seq<string>, h: map<string, string>) returns (r: Option<map<string, string>>)
    ensures r == SelectHeaders(names, h)
  {
    var signedHeaders: map<string, string> := map[];
    for i := 0 to |names|
      invariant forall j :: 0 <= j < i ==> names[j] in h
      invariant signedHeaders == map k | k in names[..i] :: h[k]
    {
      var name := names[i];
      if name == "host" {
        if "host" !in h {
          return None;
        }
        signedHeaders := signedHeaders["host" := h["host"]];
      } else {
        if name !in h {
          return None;
        }
        signedHeaders := signedHeaders[name := h[name]];
      }
      assert names[..i + 1] == names[..i] + [name];
    }
    assert names[..|names|] == names;
    r := Some(signedHeaders);
  }

  /** The known key, some date, the region, the service and the terminator, joined by slashes. */
  ghost predicate CredentialFor(text: string, region: string, service: string) {
    && '/' !in region && '/' !in service
    && exists date :: DatedCredential(text, date, region, service)
  }

  predicate DatedCredential(text: string, date: string, region: string, service: string) {
    '/' !in date && text == CredentialText(Credential(FAKE_ACCESS_KEY_ID, date, region, service))
  }

  /** A non-empty list of names, joined by semicolons. */
  predicate NamesIn(text: string, names: seq<string>) {
    names != [] && (forall i :: 0 <= i < |names| ==> ';' !in names[i]) && text == Join(names, ";")
  }

  /** What a header has to say for the claim. */
  ghost predicate Claims(auth: string, claim: Claim) {
    ParsedAuthorization(auth).Some? &&
    var parts := ParsedAuthorization(auth).value;
    && CredentialFor(parts[CREDENTIAL], claim.region, claim.service)
    && NamesIn(parts[SIGNED_HEADERS], claim.names)
    && parts[SIGNATURE] == claim.signature
  }

  lemma FieldsJoin(text: string, fields: seq<string>)
    requires Split(text, '/') == fields
    ensures text == Join(fields, "/") && forall i :: 0 <= i < |fields| ==> '/' !in fields[i]
  {
    JoinSplit(text, '/');
  }

  lemma FiveFields(text: string, a: string, b: string, c: string, d: string, e: string)
    ensures Split(text, '/') == [a, b, c, d, e] <==>
      text == Join([a, b, c, d, e], "/") && '/' !in a && '/' !in b && '/' !in c && '/' !in d && '/' !in e
  {
    var fields := [a, b, c, d, e];
    if Split(text, '/') == fields {
      FieldsJoin(text, fields);
      assert fields[0] == a && fields[1] == b && fields[2] == c && fields[3] == d && fields[4] == e;
    }
    if '/' !in a && '/' !in b && '/' !in c && '/' !in d && '/' !in e {
      SplitJoin(fields, '/');
    }
  }

  lemma NoSlash()
    ensures '/' !in FAKE_ACCESS_KEY_ID && '/' !in TERMINATOR
  {
  }

  lemma CredentialIff(text: string, date: string, region: string, service: string)
    ensures Split(text, '/') == [FAKE_ACCESS_KEY_ID, date, region, service, TERMINATOR] <==>
      DatedCredential(text, date, region, service) && '/' !in region && '/' !in service
  {
    NoSlash();
    FiveFields(text, FAKE_ACCESS_KEY_ID, date, region, service, TERMINATOR);
  }

  lemma NamesIff(text: string, names: seq<string>)
    ensures Split(text, ';') == names <==> NamesIn(text, names)
  {
    JoinSplit(text, ';');
    if NamesIn(text, names) {
      SplitJoin(names, ';');
    }
  }

  /** The credential names this region and service, when its five fields pass the checks. */
  predicate Checked(fields: seq<string>, region: string, service: string) {
    && |fields| == 5 && fields[4] == TERMINATOR && fields[0] == FAKE_ACCESS_KEY_ID
    && fields[2] == region && fields[3] == service
  }

  lemma CheckedIff(text: string, region: string, service: string)
    ensures Checked(Split(text, '/'), region, service) <==> CredentialFor(text, region, service)
  {
    var fields := Split(text, '/');
    if Checked(fields, region, service) {
      assert fields == [FAKE_ACCESS_KEY_ID, fields[1], region, service, TERMINATOR];
      CredentialIff(text, fields[1], region, service);
    }
    if CredentialFor(text, region, service) {
      var date :| DatedCredential(text, date, region, service);
      CredentialIff(text, date, region, service);
    }
  }

  /** The checks on the credential: the claim the header makes, None when it makes none. */
  method ReadClaim(auth: string) returns (r: Option<Claim>)
    ensures r == ClaimOf(auth)
    ensures forall claim :: r == Some(claim) <==> Claims(auth, claim)
  {
    var parsed := ParseAuthorization(auth);
    r := None;
    if parsed.Some? {
      var parts := parsed.value;
      var credential := Split(parts[CREDENTIAL], '/');
      if |credential| == 5 && credential[4] == TERMINATOR && credential[0] == FAKE_ACCESS_KEY_ID {
        r := Some(Claim(credential[2], credential[3], Split(parts[SIGNED_HEADERS], ';'), parts[SIGNATURE]));
      }
    }
    ClaimIff(auth);
  }

  lemma ClaimOfIff(auth: string, claim: Claim)
    ensures ClaimOf(auth) == Some(claim) <==> Claims(auth, claim)
  {
    if ParsedAuthorization(auth).Some? {
      var parts := ParsedAuthorization(auth).value;
      CheckedIff(parts[CREDENTIAL], claim.region, claim.service);
      NamesIff(parts[SIGNED_HEADERS], claim.names);
    }
  }

  /** The claim read is the one the header makes, and there is at most one. */
  lemma ClaimIff(auth: string)
    ensures forall claim :: ClaimOf(auth) == Some(claim) <==> Claims(auth, claim)
  {
    forall claim
      ensures ClaimOf(auth) == Some(claim) <==> Claims(auth, claim)
    {
      ClaimOfIff(auth, claim);
    }
  }

  /** Raised is the TypeError that hmac.compare_digest raises on a text outside ASCII. */
  datatype Verdict = Accepted | Rejected | Raised

  predicate AsciiOnly(s: string) {
    forall i :: 0 <= i < |s| ==> s[i] as int < 128
  }

  /** The comparison is reached, with a claimed signature it cannot compare. */
  predicate Uncomparable(c: Crypto, headers: seq<(string, string)>, body: seq<byte>) {
    var h := LowerMap(headers);
    var claim := ClaimOf(GetOrEmpty(h, AUTHORIZATION));
    GetOrEmpty(h, AUTHORIZATION) != "" && claim.Some? && Complete(c, claim.value.names, h, body)
    && !AsciiOnly(claim.value.signature)
  }

  function VerdictOf(
      c: Crypto, verb: string, target: string, headers: seq<(string, string)>, body: seq<byte>): Verdict
  {
    if Verify(c, verb, target, headers, body) then Accepted
    else if Uncomparable(c, headers, body) then Raised
    else Rejected
  }

  lemma SignatureIsAscii(c: Crypto, r: Request, scope: Scope)
    ensures AsciiOnly(Signature(c, r, scope))
  {
    HexText(Hmac(c, SigningKey(c, scope), StringToSign(c, r, scope)));
  }

  /** verify_request as the code runs it. */
  method VerifyRequest(c: Crypto, verb: string, target: string, headers: seq<(string, string)>, body: seq<byte>)
      returns (verdict: Verdict)
    ensures verdict == VerdictOf(c, verb, target, headers, body)
    ensures verdict.Accepted? <==> Verify(c, verb, target, headers, body)
    ensures verdict.Raised? <==> Uncomparable(c, headers, body)
  {
    var h := LowerHeaders(headers);
    var auth := GetOrEmpty(h, AUTHORIZATION);
    if auth == "" {
      return Rejected;
    }
    var read := ReadClaim(auth);
    if read.None? {
      return Rejected;
    }
    verdict := VerifyRead(c, verb, target, h, body, read.value);
  }

  /** The rest of verify_request, once the credential has been read. */
  method VerifyRead(c: Crypto, verb: string, target: string, h: map<string, string>, body: seq<byte>, claim: Claim)
      returns (verdict: Verdict)
    ensures verdict.Accepted? <==> VerifyClaim(c, verb, target, h, body, claim)
    ensures verdict.Raised? <==> Complete(c, claim.names, h, body) && !AsciiOnly(claim.signature)
  {
    var amzDate, payloadHash := GetOrEmpty(h, AMZ_DATE), GetOrEmpty(h, AMZ_CONTENT_SHA256);
    if amzDate == "" || payloadHash == "" || payloadHash != Hex(c.sha256(body)) {
      return Rejected;
    }
    var signedHeaders := CollectSigned(claim.names, h);
    if signedHeaders.None? {
      return Rejected;
    }
    var scope := Scope(claim.service, claim.region, FAKE_SECRET_ACCESS_KEY, amzDate);
    var expected := Signature(c, Recomputed(verb, target, signedHeaders.value, payloadHash), scope);
    SignatureIsAscii(c, Recomputed(verb, target, signedHeaders.value, payloadHash), scope);
    if !AsciiOnly(claim.signature) {
      return Raised;
    }
    return if expected == claim.signature then Accepted else Rejected;
  }

  // ---------------------------------------------------------------------------
  // Rendered headers
  // ---------------------------------------------------------------------------

  datatype Credential = Credential(accessKey: string, datestamp: string, region: string, service: string)

  function CredentialText(cred: Credential): string {
    Join([cred.accessKey, cred.datestamp, cred.region, cred.service, TERMINATOR], "/")
  }

  /** The header a signer writes. */
  function RenderAuthorization(cred: Credential, names: seq<string>, signature: string): string {
    PREFIX + Join(RenderedSegments(cred, names, signature), ",")
  }

  /** A value the segment grammar carries unchanged. */
  predicate PlainValue(s: string) {
    ',' !in s && Trimmed(s)
  }

  /** Parts that the grammar of the header can tell apart. */
  predicate Renderable(cred: Credential, names: seq<string>, signature: string) {
    && PlainValue(CredentialText(cred)) && PlainValue(Join(names, ";")) && PlainValue(signature)
    && '/' !in cred.accessKey && '/' !in cred.datestamp && '/' !in cred.region && '/' !in cred.service
    && names != [] && forall i :: 0 <= i < |names| ==> ';' !in names[i]
  }

  /** Stripping removes one leading space and keeps a trimmed rest. */
  lemma StripSpace(s: string)
    requires Trimmed(s) && s != ""
    ensures Strip(" " + s) == s
  {
    LStripLeadingSpace(s);
    StripTrimmed(s);
    assert LStrip(s) == s;
    assert " " + s == [' '] + s;
  }

  predicate PlainKey(key: string) {
    key != "" && Trimmed(key) && '=' !in key
  }

  /** One "key=value" segment, with or without the space after the comma. */
  lemma SegmentIs(key: string, value: string, segment: string)
    requires PlainKey(key) && Trimmed(value)
    requires segment == key + ['='] + value || segment == " " + (key + ['='] + value)
    ensures SegmentPair(segment) == Some((key, value))
  {
    SegmentStripped(key, value, segment);
    PartitionIs(key, '=', value);
    StripPlain(key);
    StripPlain(value);
  }

  lemma StripPlain(s: string)
    requires Trimmed(s)
    ensures Strip(s) == s
  {
    StripTrimmed(s);
  }

  lemma SegmentStripped(key: string, value: string, segment: string)
    requires PlainKey(key) && Trimmed(value)
    requires segment == key + ['='] + value || segment == " " + (key + ['='] + value)
    ensures Strip(segment) == key + ['='] + value
  {
    SegmentTrimmed(key, value);
    if segment == key + ['='] + value {
      StripPlain(segment);
    } else {
      StripSpace(key + ['='] + value);
    }
  }

  lemma SegmentTrimmed(key: string, value: string)
    requires PlainKey(key) && Trimmed(value)
    ensures Trimmed(key + ['='] + value)
  {
    var s := key + ['='] + value;
    assert s[0] == key[0];
    assert s[|s| - 1] == (if value == "" then '=' else value[|value| - 1]);
  }

  lemma ParseCons(segment: string, rest: seq<string>, parts: map<string, string>)
    ensures ParseSegments([segment] + rest, parts) ==
      match SegmentPair(segment)
      case None => None
      case Some((key, value)) => ParseSegments(rest, parts[key := value])
  {
    ParseNext([segment] + rest, 0, parts);
    assert ([segment] + rest)[0..] == [segment] + rest;
    assert ([segment] + rest)[1..] == rest;
  }

  function Segments(k: string, x: string, l: string, y: string, m: string, z: string): seq<string> {
    [k + ['='] + x] + ([" " + (l + ['='] + y)] + ([" " + (m + ['='] + z)] + []))
  }

  lemma ParseThree(k: string, x: string, l: string, y: string, m: string, z: string)
    requires PlainKey(k) && PlainKey(l) && PlainKey(m) && Trimmed(x) && Trimmed(y) && Trimmed(z)
    ensures ParseSegments(Segments(k, x, l, y, m, z), map[]) == Some(map[][k := x][l := y][m := z])
  {
    var a, b, c := k + ['='] + x, " " + (l + ['='] + y), " " + (m + ['='] + z);
    SegmentIs(k, x, a);
    SegmentIs(l, y, b);
    SegmentIs(m, z, c);
    ParseCons(a, [b] + ([c] + []), map[]);
    ParseCons(b, [c] + [], map[][k := x]);
    ParseCons(c, [], map[][k := x][l := y]);
  }

  function RenderedSegments(cred: Credential, names: seq<string>, signature: string): seq<string> {
    Segments(CREDENTIAL, CredentialText(cred), SIGNED_HEADERS, Join(names, ";"), SIGNATURE, signature)
  }

  lemma ThreeSplit(k: string, x: string, l: string, y: string, m: string, z: string)
    requires ',' !in k && ',' !in x && ',' !in l && ',' !in y && ',' !in m && ',' !in z
    ensures Split(Join(Segments(k, x, l, y, m, z), ","), ',') == Segments(k, x, l, y, m, z)
  {
    SplitJoin(Segments(k, x, l, y, m, z), ',');
  }

  lemma PlainKeys()
    ensures PlainKey(CREDENTIAL) && PlainKey(SIGNED_HEADERS) && PlainKey(SIGNATURE)
    ensures ',' !in CREDENTIAL && ',' !in SIGNED_HEADERS && ',' !in SIGNATURE
  {
  }

  function RenderedParts(cred: Credential, names: seq<string>, signature: string): map<string, string> {
    map[][CREDENTIAL := CredentialText(cred)][SIGNED_HEADERS := Join(names, ";")][SIGNATURE := signature]
  }

  lemma ParsedIs(auth: string, segments: seq<string>, parts: map<string, string>)
    requires StartsWith(auth, PREFIX) && Split(auth[|PREFIX|..], ',') == segments
    requires ParseSegments(segments, map[]) == Some(parts) && HasAllParts(parts)
    ensures ParsedAuthorization(auth) == Some(parts)
  {
  }

  lemma SegmentsRendered(cred: Credential, names: seq<string>, signature: string)
    requires Renderable(cred, names, signature)
    ensures var segments := RenderedSegments(cred, names, signature);
      && Split(Join(segments, ","), ',') == segments
      && ParseSegments(segments, map[]) == Some(RenderedParts(cred, names, signature))
  {
    PlainKeys();
    ThreeSplit(CREDENTIAL, CredentialText(cred), SIGNED_HEADERS, Join(names, ";"), SIGNATURE, signature);
    ParseThree(CREDENTIAL, CredentialText(cred), SIGNED_HEADERS, Join(names, ";"), SIGNATURE, signature);
  }

  /** Parsing a rendered header gives back the parts. */
  lemma ParseRendered(cred: Credential, names: seq<string>, signature: string)
    requires Renderable(cred, names, signature)
    ensures ParsedAuthorization(RenderAuthorization(cred, names, signature))
         == Some(RenderedParts(cred, names, signature))
  {
    var segments := RenderedSegments(cred, names, signature);
    SegmentsRendered(cred, names, signature);
    AfterPrefix(PREFIX, Join(segments, ","));
    ParsedIs(RenderAuthorization(cred, names, signature), segments, RenderedParts(cred, names, signature));
  }

  lemma AfterPrefix(p: string, s: string)
    ensures StartsWith(p + s, p) && (p + s)[|p|..] == s
  {
  }

  lemma CredentialSplits(cred: Credential)
    requires '/' !in cred.accessKey && '/' !in cred.datestamp && '/' !in cred.region && '/' !in cred.service
    ensures Split(CredentialText(cred), '/')
         == [cred.accessKey, cred.datestamp, cred.region, cred.service, TERMINATOR]
  {
    SplitJoin([cred.accessKey, cred.datestamp, cred.region, cred.service, TERMINATOR], '/');
  }

  /** What a rendered header claims. */
  lemma ClaimOfRendered(cred: Credential, names: seq<string>, signature: string)
    requires Renderable(cred, names, signature)
    ensures ClaimOf(RenderAuthorization(cred, names, signature))
         == if cred.accessKey == FAKE_ACCESS_KEY_ID
            then Some(Claim(cred.region, cred.service, names, signature)) else None
  {
    ParseRendered(cred, names, signature);
    RenderedLookups(cred, names, signature);
    CredentialSplits(cred);
    SplitJoin(names, ';');
  }

  lemma RenderedLookups(cred: Credential, names: seq<string>, signature: string)
    ensures var parts := RenderedParts(cred, names, signature);
      && HasAllParts(parts) && parts[CREDENTIAL] == CredentialText(cred)
      && parts[SIGNED_HEADERS] == Join(names, ";") && parts[SIGNATURE] == signature
  {
    assert |CREDENTIAL| == 10 && |SIGNED_HEADERS| == 13 && |SIGNATURE| == 9;
  }

  /** The headers carry what the verifier needs besides a good signature. */
  predicate Complete(c: Crypto, names: seq<string>, h: map<string, string>, body: seq<byte>) {
    && GetOrEmpty(h, AMZ_DATE) != ""
    && GetOrEmpty(h, AMZ_CONTENT_SHA256) != ""
    && h[AMZ_CONTENT_SHA256] == Hex(c.sha256(body))
    && forall i :: 0 <= i < |names| ==> names[i] in h
  }

  /** The signature that belongs to a complete request. */
  function RightSignature(
      c: Crypto, verb: string, target: string, h: map<string, string>, body: seq<byte>,
      region: string, service: string, names: seq<string>): string
    requires Complete(c, names, h, body)
  {
    Signature(c, Recomputed(verb, target, map k | k in names :: h[k], h[AMZ_CONTENT_SHA256]),
      Scope(service, region, FAKE_SECRET_ACCESS_KEY, h[AMZ_DATE]))
  }

  lemma VerifyClaimIff(
      c: Crypto, verb: string, target: string, h: map<string, string>, body: seq<byte>, claim: Claim)
    ensures VerifyClaim(c, verb, target, h, body, claim) <==>
      && Complete(c, claim.names, h, body)
      && claim.signature == RightSignature(c, verb, target, h, body, claim.region, claim.service, claim.names)
  {
    if Complete(c, claim.names, h, body) {
      assert SelectHeaders(claim.names, h) == Some(map k | k in claim.names :: h[k]);
    }
  }

  /**
   * For a request that carries a rendered header, the verdict is exactly: the access key is the
   * known one, everything needed is there, and the rendered value is the request's signature.
   */
  lemma {:induction false} VerifyRenderedIff(
      c: Crypto, verb: string, target: string, headers: seq<(string, string)>, body: seq<byte>,
      cred: Credential, names: seq<string>, signature: string)
    requires Renderable(cred, names, signature)
    requires GetOrEmpty(LowerMap(headers), AUTHORIZATION) == RenderAuthorization(cred, names, signature)
    ensures var h := LowerMap(headers);
      Verify(c, verb, target, headers, body) <==>
        && cred.accessKey == FAKE_ACCESS_KEY_ID
        && Complete(c, names, h, body)
        && signature == RightSignature(c, verb, target, h, body, cred.region, cred.service, names)
  {
    ClaimOfRendered(cred, names, signature);
    assert |RenderAuthorization(cred, names, signature)| >= |PREFIX|;
    if cred.accessKey == FAKE_ACCESS_KEY_ID {
      VerifyClaimIff(c, verb, target, LowerMap(headers), body, Claim(cred.region, cred.service, names, signature));
    }
  }

  /** The verifier raises on a rendered header iff it reaches the comparison with a non-ASCII value. */
  lemma {:induction false} RenderedRaisesIff(
      c: Crypto, verb: string, target: string, headers: seq<(string, string)>, body: seq<byte>,
      cred: Credential, names: seq<string>, signature: string)
    requires Renderable(cred, names, signature)
    requires GetOrEmpty(LowerMap(headers), AUTHORIZATION) == RenderAuthorization(cred, names, signature)
    ensures VerdictOf(c, verb, target, headers, body).Raised? <==>
      cred.accessKey == FAKE_ACCESS_KEY_ID && Complete(c, names, LowerMap(headers), body) && !AsciiOnly(signature)
  {
    ClaimOfRendered(cred, names, signature);
    assert |RenderAuthorization(cred, names, signature)| >= |PREFIX|;
    VerifyRenderedIff(c, verb, target, headers, body, cred, names, signature);
    if Complete(c, names, LowerMap(headers), body) {
      RightSignatureIsAscii(c, verb, target, LowerMap(headers), body, cred.region, cred.service, names);
    }
  }

  lemma RightSignatureIsAscii(
      c: Crypto, verb: string, target: string, h: map<string, string>, body: seq<byte>,
      region: string, service: string, names: seq<string>)
    requires Complete(c, names, h, body)
    ensures AsciiOnly(RightSignature(c, verb, target, h, body, region, service, names))
  {
    SignatureIsAscii(c, Recomputed(verb, target, map k | k in names :: h[k], h[AMZ_CONTENT_SHA256]),
      Scope(service, region, FAKE_SECRET_ACCESS_KEY, h[AMZ_DATE]));
  }

  lemma {:induction false} HexText(b: seq<byte>)
    ensures forall i :: 0 <= i < |Hex(b)| ==> 48 <= Hex(b)[i] as int <= 102
    ensures PlainValue(Hex(b))
  {
    if b != [] {
      HexText(b[1..]);
    }
  }

  /** Signed implies accepted: put the signature of the request in a rendered header and it verifies. */
  lemma {:induction false} SignedImpliesAccepted(
      c: Crypto, verb: string, target: string, headers: seq<(string, string)>, body: seq<byte>,
      cred: Credential, names: seq<string>)
    requires Complete(c, names, LowerMap(headers), body) && cred.accessKey == FAKE_ACCESS_KEY_ID
    requires Renderable(cred, names, "")
    requires GetOrEmpty(LowerMap(headers), AUTHORIZATION) == RenderAuthorization(cred, names,
      RightSignature(c, verb, target, LowerMap(headers), body, cred.region, cred.service, names))
    ensures Verify(c, verb, target, headers, body)
  {
    var h := LowerMap(headers);
    var signature := RightSignature(c, verb, target, h, body, cred.region, cred.service, names);
    var scope := Scope(cred.service, cred.region, FAKE_SECRET_ACCESS_KEY, h[AMZ_DATE]);
    var r := Recomputed(verb, target, map k | k in names :: h[k], h[AMZ_CONTENT_SHA256]);
    HexText(Hmac(c, SigningKey(c, scope), StringToSign(c, r, scope)));
    VerifyRenderedIff(c, verb, target, headers, body, cred, names, signature);
  }

  // ---------------------------------------------------------------------------
  // Headers of any shape
  // ---------------------------------------------------------------------------

  /** The header with this name that no later one replaces, whatever the case of either. */
  predicate LastNamed(headers: seq<(string, string)>, i: nat, name: string) {
    i < |headers| && Lower(headers[i].0) == name && forall j :: i < j < |headers| ==> Lower(headers[j].0) != name
  }

  /** A lookup finds the last header of the name, and nothing when there is none. */
  lemma {:induction false} LookupIs(headers: seq<(string, string)>, name: string)
    ensures name in LowerMap(headers) <==> exists i: nat :: LastNamed(headers, i, name)
    ensures forall i: nat :: LastNamed(headers, i, name) ==>
      name in LowerMap(headers) && LowerMap(headers)[name] == headers[i].1
  {
    if headers != [] {
      var init, last := headers[..|headers| - 1], |headers| - 1;
      LookupIs(init, name);
      forall i: nat
        ensures LastNamed(headers, i, name) <==>
          if Lower(headers[last].0) == name then i == last else LastNamed(init, i, name)
      {
        assert forall j :: 0 <= j < last ==> headers[j] == init[j];
      }
      if Lower(headers[last].0) != name && name in LowerMap(headers) {
        var i: nat :| LastNamed(init, i, name);
        assert LastNamed(headers, i, name);
      }
      assert Lower(headers[last].0) == name ==> LastNamed(headers, last, name);
    }
  }

  predicate CutAtEquals(segment: string, before: string, after: string) {
    '=' !in before && segment == before + ['='] + after
  }

  lemma PartitionCuts(t: string)
    requires Partition(t, '=').Some?
    ensures CutAtEquals(t, Partition(t, '=').value.0, Partition(t, '=').value.1)
  {
  }

  lemma PairCuts(segment: string, a: string, t: string, b: string) returns (before: string, after: string)
    requires Padded(segment, a, t, b) && t == Strip(segment) && SegmentPair(segment).Some?
    ensures CutAtEquals(segment, before, after) && SegmentPair(segment) == Some((Strip(before), Strip(after)))
  {
    var x, y := Partition(t, '=').value.0, Partition(t, '=').value.1;
    PartitionCuts(t);
    CutPadded(segment, a, t, b, x, y);
    before, after := a + x, y + b;
  }

  lemma CutPairs(segment: string, a: string, t: string, b: string, before: string, after: string)
    requires Padded(segment, a, t, b) && t == Strip(segment) && CutAtEquals(segment, before, after)
    ensures SegmentPair(segment) == Some((Strip(before), Strip(after)))
  {
    CutInside(segment, a, t, b, before, after);
    PairOfCut(segment, before[|a|..], after[..|after| - |b|]);
  }

  /** A segment comes apart at its first "=", and white space around both parts goes. */
  lemma {:induction false} SegmentPairIff(segment: string, pair: (string, string))
    ensures SegmentPair(segment) == Some(pair) <==>
      exists before, after :: CutAtEquals(segment, before, after) && pair == (Strip(before), Strip(after))
  {
    StripIff(segment, Strip(segment));
    var a, b :| Padded(segment, a, Strip(segment), b);
    if SegmentPair(segment) == Some(pair) {
      var before, after := PairCuts(segment, a, Strip(segment), b);
    }
    if before, after :| CutAtEquals(segment, before, after) && pair == (Strip(before), Strip(after)) {
      CutPairs(segment, a, Strip(segment), b, before, after);
    }
  }

  lemma PairOfCut(segment: string, x: string, y: string)
    requires CutAtEquals(Strip(segment), x, y)
    ensures SegmentPair(segment) == Some((Strip(x), Strip(y)))
  {
    PartitionIs(x, '=', y);
  }

  lemma SpaceIsNoEquals(a: string)
    requires AllSpace(a)
    ensures '=' !in a
  {
  }

  lemma CutPadded(segment: string, a: string, t: string, b: string, x: string, y: string)
    requires Padded(segment, a, t, b) && CutAtEquals(t, x, y)
    ensures CutAtEquals(segment, a + x, y + b) && Strip(a + x) == Strip(x) && Strip(y + b) == Strip(y)
  {
    SpaceIsNoEquals(a);
    StripFront(a, x);
    StripBack(y, b);
    Regroup(a, x, y, b);
  }

  lemma Regroup(a: string, x: string, y: string, b: string)
    ensures a + ((x + ['='] + y) + b) == (a + x) + ['='] + (y + b)
  {
  }

  /** The first "=" of a padded text is inside the padding. */
  lemma CutInside(segment: string, a: string, t: string, b: string, before: string, after: string)
    requires Padded(segment, a, t, b) && CutAtEquals(segment, before, after)
    ensures |a| <= |before| && |b| <= |after|
    ensures CutAtEquals(t, before[|a|..], after[..|after| - |b|])
    ensures Strip(before[|a|..]) == Strip(before) && Strip(after[..|after| - |b|]) == Strip(after)
  {
    CutBounds(segment, a, t, b, before, after);
    var x, y := before[|a|..], after[..|after| - |b|];
    CutPieces(a, t, b, before, after);
    StripFront(a, x);
    StripBack(y, b);
  }

  lemma CutBounds(segment: string, a: string, t: string, b: string, before: string, after: string)
    requires Padded(segment, a, t, b) && CutAtEquals(segment, before, after)
    ensures |a| <= |before| && |b| <= |after|
  {
    SpaceIsNoEquals(a);
    SpaceIsNoEquals(b);
    assert segment[|before|] == '=';
    assert forall i :: 0 <= i < |a| ==> segment[i] == a[i] && a[i] in a;
    assert forall i :: 0 <= i < |b| ==> segment[|a| + |t| + i] == b[i] && b[i] in b;
  }

  lemma CutPieces(a: string, t: string, b: string, before: string, after: string)
    requires a + (t + b) == before + ['='] + after && |a| <= |before| && |b| <= |after|
    ensures before == a + before[|a|..] && after == after[..|after| - |b|] + b
    ensures t == before[|a|..] + ['='] + after[..|after| - |b|]
  {
    var s := a + (t + b);
    assert s[..|a|] == a && before[..|a|] == s[..|a|];
    assert s[|s| - |b|..] == b && after[|after| - |b|..] == s[|s| - |b|..];
    assert t == s[|a|..|s| - |b|];
  }

  type Pair = Option<(string, string)>

  function Pairs(segments: seq<string>): (pairs: seq<Pair>)
    ensures |pairs| == |segments|
    ensures forall i :: 0 <= i < |segments| ==> pairs[i] == SegmentPair(segments[i])
  {
    Map(segments, SegmentPair)
  }

  /** The dictionary of the pairs; None: one is missing. */
  function Dictionary(pairs: seq<Pair>): Option<map<string, string>> {
    if pairs == [] then Some(map[])
    else match (Dictionary(pairs[..|pairs| - 1]), pairs[|pairs| - 1])
      case (Some(m), Some((key, value))) => Some(m[key := value])
      case _ => None
  }

  lemma {:induction false} ParseSnoc(segments: seq<string>, last: string, parts: map<string, string>)
    ensures ParseSegments(segments + [last], parts) ==
      match (ParseSegments(segments, parts), SegmentPair(last))
      case (Some(m), Some((key, value))) => Some(m[key := value])
      case _ => None
    decreases |segments|
  {
    var none: seq<string> := [];
    if segments == [] {
      assert segments + [last] == [last] + none;
      ParseCons(last, none, parts);
    } else {
      var first, rest := segments[0], segments[1..];
      assert segments + [last] == [first] + (rest + [last]) && segments == [first] + rest;
      ParseCons(first, rest + [last], parts);
      ParseCons(first, rest, parts);
      if SegmentPair(first).Some? {
        ParseSnoc(rest, last, parts[SegmentPair(first).value.0 := SegmentPair(first).value.1]);
      }
    }
  }

  lemma {:induction false} ParseIsDictionary(segments: seq<string>)
    ensures ParseSegments(segments, map[]) == Dictionary(Pairs(segments))
  {
    if segments != [] {
      var init, last := segments[..|segments| - 1], segments[|segments| - 1];
      assert segments == init + [last];
      PairsSnoc(init, last);
      ParseIsDictionary(init);
      ParseSnoc(init, last, map[]);
      DictionarySnoc(Pairs(init), SegmentPair(last));
    }
  }

  lemma PairsSnoc(init: seq<string>, last: string)
    ensures Pairs(init + [last]) == Pairs(init) + [SegmentPair(last)]
  {
    MapAppend(init, [last], SegmentPair);
    assert Map([last], SegmentPair) == [SegmentPair(last)];
  }

  lemma DictionarySnoc(init: seq<Pair>, last: Pair)
    ensures Dictionary(init + [last]) ==
      match (Dictionary(init), last)
      case (Some(m), Some((key, value))) => Some(m[key := value])
      case _ => None
  {
    assert (init + [last])[..|init|] == init;
  }

  /** The pair with this key that no later one replaces. */
  predicate LastKeyed(pairs: seq<Pair>, i: nat, key: string) {
    && i < |pairs| && pairs[i].Some? && pairs[i].value.0 == key
    && forall j :: i < j < |pairs| && pairs[j].Some? ==> pairs[j].value.0 != key
  }

  lemma LastKeyedSnoc(init: seq<Pair>, last: Pair, i: nat, key: string)
    requires last.Some?
    ensures LastKeyed(init + [last], i, key) <==>
      if last.value.0 == key then i == |init| else LastKeyed(init, i, key)
  {
    var pairs := init + [last];
    assert pairs[|init|] == last;
    assert forall j :: 0 <= j < |init| ==> pairs[j] == init[j];
  }

  /** There is a dictionary iff no pair is missing; it holds each key's last value, and no other key. */
  lemma {:induction false} DictionaryIs(pairs: seq<Pair>)
    ensures Dictionary(pairs).Some? <==> forall i :: 0 <= i < |pairs| ==> pairs[i].Some?
    ensures Dictionary(pairs).Some? ==> forall i: nat, key :: LastKeyed(pairs, i, key) ==>
      key in Dictionary(pairs).value && Dictionary(pairs).value[key] == pairs[i].value.1
    ensures Dictionary(pairs).Some? ==> forall key :: key in Dictionary(pairs).value ==>
      exists i: nat :: LastKeyed(pairs, i, key)
  {
    if pairs != [] {
      var init, last := pairs[..|pairs| - 1], pairs[|pairs| - 1];
      assert pairs == init + [last];
      DictionaryIs(init);
      if Dictionary(pairs).Some? {
        forall i: nat, key
          ensures LastKeyed(pairs, i, key) <==> if last.value.0 == key then i == |init| else LastKeyed(init, i, key)
        {
          LastKeyedSnoc(init, last, i, key);
        }
        assert LastKeyed(pairs, |init|, last.value.0);
      }
    }
  }

  /** A header is read iff it starts right, its segments do, and the three keys are among them. */
  lemma {:induction false} AuthorizationIff(auth: string, parts: map<string, string>)
    ensures ParsedAuthorization(auth) == Some(parts) <==>
      && StartsWith(auth, "AWS4-HMAC-SHA256 ")
      && Dictionary(Pairs(Split(auth[|"AWS4-HMAC-SHA256 "|..], ','))) == Some(parts)
      && "Credential" in parts && "SignedHeaders" in parts && "Signature" in parts
  {
    if StartsWith(auth, PREFIX) {
      ParseIsDictionary(Split(auth[|PREFIX|..], ','));
    }
  }

  /** The header a signer writes, in full. */
  lemma RenderedText(key: string, date: string, region: string, service: string, names: seq<string>, signature: string)
    ensures RenderAuthorization(Credential(key, date, region, service), names, signature)
      == "AWS4-HMAC-SHA256 " + Join([
           "Credential" + ['='] + Join([key, date, region, service, "aws4_request"], "/"),
           " " + ("SignedHeaders" + ['='] + Join(names, ";")),
           " " + ("Signature" + ['='] + signature)], ",")
  {
    var a := "Credential" + ['='] + Join([key, date, region, service, "aws4_request"], "/");
    var b, c := " " + ("SignedHeaders" + ['='] + Join(names, ";")), " " + ("Signature" + ['='] + signature);
    assert [a] + ([b] + ([c] + [])) == [a, b, c];
  }

  /** What can be compared: characters below U+0080. */
  lemma AsciiOnlyIff(s: string)
    ensures AsciiOnly(s) <==> forall c :: c in s ==> c < '\U{0080}'
  {
    assert forall i :: 0 <= i < |s| ==> s[i] in s;
  }
}
