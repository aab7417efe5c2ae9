/** What the verdict on a signed request depends on, and what it leaves no room for. */
module SigV4Theorems {
  import opened Prelude
  import opened Bytes
  import opened Text
  import opened SigV4
  import opened SigV4Verify
  import Utf8
  import Percent

  // ---------------------------------------------------------------------------
  // Header order and header-name case
  // ---------------------------------------------------------------------------

  /** Headers with their names lower-cased. */
  function Lowered(headers: seq<(string, string)>): (r: seq<(string, string)>)
    ensures |r| == |headers|
    ensures forall i :: 0 <= i < |r| ==> r[i] == (Lower(headers[i].0), headers[i].1)
  {
    seq(|headers|, i requires 0 <= i < |headers| => (Lower(headers[i].0), headers[i].1))
  }

  /** No header is given twice, in whatever spelling. */
  predicate DistinctNames(headers: seq<(string, string)>) {
    forall i, j :: 0 <= i < j < |headers| ==> Lower(headers[i].0) != Lower(headers[j].0)
  }

  lemma {:induction false} LowerMapEntries(headers: seq<(string, string)>)
    requires DistinctNames(headers)
    ensures forall k, v :: (k in LowerMap(headers) && LowerMap(headers)[k] == v) <==> (k, v) in Lowered(headers)
  {
    if headers != [] {
      var init, last := headers[..|headers| - 1], headers[|headers| - 1];
      LowerMapEntries(init);
      assert Lowered(headers) == Lowered(init) + [(Lower(last.0), last.1)];
      forall i | 0 <= i < |init|
        ensures Lowered(init)[i].0 != Lower(last.0)
      {
        assert init[i] == headers[i];
      }
    }
  }

  /** Same lower-cased headers in any order give the same lookup table. */
  lemma LowerMapOrder(a: seq<(string, string)>, b: seq<(string, string)>)
    requires DistinctNames(a) && DistinctNames(b)
    requires multiset(Lowered(a)) == multiset(Lowered(b))
    ensures LowerMap(a) == LowerMap(b)
  {
    LowerMapEntries(a);
    LowerMapEntries(b);
    var m, n := LowerMap(a), LowerMap(b);
    forall k, v
      ensures (k, v) in Lowered(a) <==> (k, v) in Lowered(b)
    {
      assert (k, v) in Lowered(a) <==> (k, v) in multiset(Lowered(a));
      assert (k, v) in Lowered(b) <==> (k, v) in multiset(Lowered(b));
    }
    forall k
      ensures k in m <==> k in n
    {
      if k in m {
        assert (k, m[k]) in Lowered(a);
      }
      if k in n {
        assert (k, n[k]) in Lowered(b);
      }
    }
    forall k | k in m
      ensures m[k] == n[k]
    {
      assert (k, m[k]) in Lowered(b);
    }
    assert m == n;
  }

  /** The verdict does not depend on header order or on the case of header names. */
  lemma {:induction false} VerdictIgnoresOrderAndCase(
      c: Crypto, verb: string, target: string, a: seq<(string, string)>, b: seq<(string, string)>, body: seq<byte>)
    requires DistinctNames(a) && DistinctNames(b)
    requires multiset(Lowered(a)) == multiset(Lowered(b))
    ensures Verify(c, verb, target, a, body) == Verify(c, verb, target, b, body)
  {
    LowerMapOrder(a, b);
  }

  /** Nor on the order (or repetition) of the names inside SignedHeaders. */
  lemma {:induction false} VerdictIgnoresSignedHeadersOrder(
      c: Crypto, verb: string, target: string, a: seq<(string, string)>, b: seq<(string, string)>, body: seq<byte>,
      cred: Credential, names: seq<string>, names': seq<string>, signature: string)
    requires Renderable(cred, names, signature) && Renderable(cred, names', signature)
    requires forall k :: k in names <==> k in names'
    requires AUTHORIZATION !in names
    requires GetOrEmpty(LowerMap(a), AUTHORIZATION) == RenderAuthorization(cred, names, signature)
    requires LowerMap(b) == LowerMap(a)[AUTHORIZATION := RenderAuthorization(cred, names', signature)]
    ensures Verify(c, verb, target, a, body) == Verify(c, verb, target, b, body)
  {
    var h, h' := LowerMap(a), LowerMap(b);
    VerifyRenderedIff(c, verb, target, a, body, cred, names, signature);
    VerifyRenderedIff(c, verb, target, b, body, cred, names', signature);
    SameNamesComplete(c, names, names', h, h', body);
    if Complete(c, names, h, body) {
      SameNamesSigned(c, verb, target, names, names', h, h', body, cred.region, cred.service);
    }
  }

  /** Alike but for the Authorization header. */
  predicate SameButAuthorization(h: map<string, string>, h': map<string, string>) {
    AUTHORIZATION in h' && h' == h[AUTHORIZATION := h'[AUTHORIZATION]]
  }

  lemma SameNamesComplete(
      c: Crypto, names: seq<string>, names': seq<string>, h: map<string, string>, h': map<string, string>,
      body: seq<byte>)
    requires SameButAuthorization(h, h') && AUTHORIZATION !in names && forall k :: k in names <==> k in names'
    ensures Complete(c, names, h, body) <==> Complete(c, names', h', body)
  {
    AmzNames();
    assert forall i :: 0 <= i < |names| ==> names[i] in names';
    assert forall i :: 0 <= i < |names'| ==> names'[i] in names;
  }

  lemma SameNamesSigned(
      c: Crypto, verb: string, target: string, names: seq<string>, names': seq<string>,
      h: map<string, string>, h': map<string, string>, body: seq<byte>, region: string, service: string)
    requires SameButAuthorization(h, h') && AUTHORIZATION !in names && forall k :: k in names <==> k in names'
    requires Complete(c, names, h, body) && Complete(c, names', h', body)
    ensures RightSignature(c, verb, target, h, body, region, service, names)
      == RightSignature(c, verb, target, h', body, region, service, names')
  {
    AmzNames();
    assert (map k | k in names :: h[k]) == (map k | k in names' :: h'[k]);
  }

  lemma AmzNames()
    ensures AUTHORIZATION != AMZ_DATE && AUTHORIZATION != AMZ_CONTENT_SHA256
  {
    assert |AUTHORIZATION| == 13 && |AMZ_DATE| == 10 && |AMZ_CONTENT_SHA256| == 20;
  }

  // ---------------------------------------------------------------------------
  // Plain request targets
  // ---------------------------------------------------------------------------

  /** A rooted path or query without the characters urlparse gives a meaning to. */
  predicate PlainText(s: string) {
    forall i :: 0 <= i < |s| ==> s[i] !in ['?', '#', ';', '\t', '\r', '\n']
  }

  lemma {:induction false} NoBreaks(s: string)
    requires forall i :: 0 <= i < |s| ==> s[i] !in ['\t', '\r', '\n']
    ensures RemoveBreaks(s) == s
  {
    if s != "" {
      NoBreaks(s[1..]);
      assert s == [s[0]] + s[1..];
    }
  }

  lemma BeforeAbsent(s: string, c: char)
    requires c !in s
    ensures Before(s, c) == s && IndexOf(s, c) == |s|
  {
    assert s[..|s|] == s;
  }

  lemma PlainLacks(s: string)
    requires PlainText(s)
    ensures '?' !in s && '#' !in s && ';' !in s
  {
  }

  /** A rooted text has no scheme. */
  lemma NoScheme(url: string)
    requires url != "" && url[0] == '/'
    ensures SplitScheme(url) == ("", url) && DropLeading(url) == url
  {
  }

  /** A plain path, alone or with a plain query, comes apart as written. */
  lemma UrlSplitPlain(path: string, query: string)
    requires PlainText(path) && PlainText(query) && !StartsWith(path, "//") && path != "" && path[0] == '/'
    ensures UrlSplit(path) == (path, "")
    ensures UrlSplit(path + "?" + query) == (path, query)
  {
    PathAlone(path);
    PathWithQuery(path, query);
  }

  lemma PathAlone(path: string)
    requires PlainText(path) && !StartsWith(path, "//") && path != "" && path[0] == '/'
    ensures UrlSplit(path) == (path, "")
  {
    PlainLacks(path);
    NoScheme(path);
    NoBreaks(path);
    BeforeAbsent(path, '#');
    BeforeAbsent(path, '?');
    BeforeAbsent(path, ';');
  }

  lemma PathWithQuery(path: string, query: string)
    requires PlainText(path) && PlainText(query) && !StartsWith(path, "//") && path != "" && path[0] == '/'
    ensures UrlSplit(path + "?" + query) == (path, query)
  {
    var s := path + "?" + query;
    PlainLacks(path);
    PlainLacks(query);
    NoScheme(s);
    NoBreaks(s);
    BeforeAbsent(s, '#');
    BeforeAbsent(path, ';');
    PartitionIs(path, '?', query);
    assert s == path + ['?'] + query;
    assert |path| >= 2 ==> path[..2] == s[..2];
    assert |path| == 1 ==> s[..2][1] == '?';
  }

  // ---------------------------------------------------------------------------
  // An independent signer
  // ---------------------------------------------------------------------------

  /** The request as the signer means it: the path as text, no matter how it is spelled on the wire. */
  function SignerRequest(
      c: Crypto, verb: string, text: string, query: string, h: map<string, string>, body: seq<byte>,
      names: seq<string>): SigV4.Request
    requires forall i :: 0 <= i < |names| ==> names[i] in h
  {
    Request(verb, Percent.Quote(Percent.Path, text), query, map k | k in names :: h[k], Hex(c.sha256(body)))
  }

  /** What it sends: its headers, and the Authorization header over them. */
  function SignHeaders(
      c: Crypto, verb: string, text: string, query: string, headers: seq<(string, string)>, body: seq<byte>,
      cred: Credential, names: seq<string>): seq<(string, string)>
    requires Complete(c, names, LowerMap(headers), body)
  {
    var h := LowerMap(headers);
    headers + [(AUTHORIZATION, RenderAuthorization(cred, names,
      Signature(c, SignerRequest(c, verb, text, query, h, body, names),
        Scope(cred.service, cred.region, FAKE_SECRET_ACCESS_KEY, h[AMZ_DATE]))))]
  }

  /** A rooted path without the characters urlparse gives a meaning to. */
  predicate PlainPath(path: string) {
    PlainText(path) && path != "" && path[0] == '/' && !StartsWith(path, "//")
  }

  /** A wire target for that path text and query: any spelling of the path that decodes to the text. */
  predicate Targets(target: string, path: string, text: string, query: string) {
    && PlainPath(path) && PlainText(query) && Percent.Unquote(path) == text
    && (target == path + "?" + query || (query == "" && target == path))
  }

  /** The verifier recomputes from the wire what the signer meant. */
  lemma RecomputesIntent(
      c: Crypto, verb: string, target: string, path: string, text: string, query: string,
      h: map<string, string>, body: seq<byte>, region: string, service: string, names: seq<string>)
    requires Targets(target, path, text, query) && Complete(c, names, h, body)
    ensures RightSignature(c, verb, target, h, body, region, service, names)
      == Signature(c, SignerRequest(c, verb, text, query, h, body, names),
           Scope(service, region, FAKE_SECRET_ACCESS_KEY, h[AMZ_DATE]))
  {
    UrlSplitPlain(path, query);
  }

  lemma AuthorizationIsLower()
    ensures IsLower(AUTHORIZATION)
  {
    assert forall i :: 0 <= i < |AUTHORIZATION| ==> LowerChar(AUTHORIZATION[i]) == AUTHORIZATION[i];
  }

  lemma LowerMapSnoc(headers: seq<(string, string)>, name: string, value: string)
    requires IsLower(name)
    ensures LowerMap(headers + [(name, value)]) == LowerMap(headers)[name := value]
  {
    assert (headers + [(name, value)])[..|headers|] == headers;
  }

  /** The signature does not cover the header that carries it. */
  lemma SignatureIgnoresAuthorization(
      c: Crypto, verb: string, target: string, h: map<string, string>, body: seq<byte>,
      region: string, service: string, names: seq<string>, value: string)
    requires Complete(c, names, h, body) && AUTHORIZATION !in names
    ensures var h' := h[AUTHORIZATION := value];
      && Complete(c, names, h', body)
      && RightSignature(c, verb, target, h', body, region, service, names)
         == RightSignature(c, verb, target, h, body, region, service, names)
  {
    AmzNames();
    var h' := h[AUTHORIZATION := value];
    assert (map k | k in names :: h'[k]) == (map k | k in names :: h[k]);
  }

  /**
   * Signed implies accepted: whatever a signer with the known key signs, over any path text,
   * query, headers and body, verifies under every wire spelling of the path.
   */
  lemma {:induction false} SignedRequestVerifies(
      c: Crypto, verb: string, target: string, path: string, text: string, query: string,
      headers: seq<(string, string)>, body: seq<byte>, cred: Credential, names: seq<string>)
    requires Targets(target, path, text, query)
    requires Complete(c, names, LowerMap(headers), body) && AUTHORIZATION !in names
    requires cred.accessKey == FAKE_ACCESS_KEY_ID && Renderable(cred, names, "")
    ensures Verify(c, verb, target, SignHeaders(c, verb, text, query, headers, body, cred, names), body)
  {
    var h := LowerMap(headers);
    RecomputesIntent(c, verb, target, path, text, query, h, body, cred.region, cred.service, names);
    var value := RenderAuthorization(cred, names,
      RightSignature(c, verb, target, h, body, cred.region, cred.service, names));
    AuthorizationIsLower();
    LowerMapSnoc(headers, AUTHORIZATION, value);
    SignatureIgnoresAuthorization(c, verb, target, h, body, cred.region, cred.service, names, value);
    SignedImpliesAccepted(c, verb, target, headers + [(AUTHORIZATION, value)], body, cred, names);
  }

  // ---------------------------------------------------------------------------
  // A request that makes the verifier raise
  // ---------------------------------------------------------------------------

  const LATIN_SIGNATURE: string := "\U{00E9}"

  /** The known key, signing the date alone. */
  const PlainCredential: Credential := Credential(FAKE_ACCESS_KEY_ID, "d", "r", "s")

  function LatinHeaders(c: Crypto, body: seq<byte>): seq<(string, string)> {
    []
    + [(AMZ_DATE, "d")]
    + [(AMZ_CONTENT_SHA256, Hex(c.sha256(body)))]
    + [(AUTHORIZATION, RenderAuthorization(PlainCredential, [AMZ_DATE], LATIN_SIGNATURE))]
  }

  lemma AmzNamesAreLower()
    ensures IsLower(AMZ_DATE) && IsLower(AMZ_CONTENT_SHA256)
    ensures AMZ_DATE != AMZ_CONTENT_SHA256
  {
    assert |AMZ_DATE| == 10 && |AMZ_CONTENT_SHA256| == 20;
    assert forall i :: 0 <= i < |AMZ_DATE| ==> LowerChar(AMZ_DATE[i]) == AMZ_DATE[i];
    assert forall i :: 0 <= i < |AMZ_CONTENT_SHA256| ==> LowerChar(AMZ_CONTENT_SHA256[i]) == AMZ_CONTENT_SHA256[i];
  }

  lemma LatinMap(c: Crypto, body: seq<byte>)
    ensures LowerMap(LatinHeaders(c, body))
      == map[][AMZ_DATE := "d"][AMZ_CONTENT_SHA256 := Hex(c.sha256(body))]
           [AUTHORIZATION := RenderAuthorization(PlainCredential, [AMZ_DATE], LATIN_SIGNATURE)]
  {
    AmzNamesAreLower();
    AuthorizationIsLower();
    LowerMapSnoc([], AMZ_DATE, "d");
    LowerMapSnoc([] + [(AMZ_DATE, "d")], AMZ_CONTENT_SHA256, Hex(c.sha256(body)));
    LowerMapSnoc([] + [(AMZ_DATE, "d")] + [(AMZ_CONTENT_SHA256, Hex(c.sha256(body)))],
      AUTHORIZATION, RenderAuthorization(PlainCredential, [AMZ_DATE], LATIN_SIGNATURE));
  }

  lemma PlainSlash(a: string, b: string)
    requires PlainValue(a) && PlainValue(b) && a != "" && b != ""
    ensures PlainValue(a + "/" + b)
  {
  }

  lemma {:induction false} PlainJoin(fields: seq<string>)
    requires fields != [] && forall i :: 0 <= i < |fields| ==> PlainValue(fields[i]) && fields[i] != ""
    ensures PlainValue(Join(fields, "/")) && Join(fields, "/") != ""
  {
    if |fields| > 1 {
      PlainJoin(fields[1..]);
      PlainSlash(fields[0], Join(fields[1..], "/"));
    }
  }

  lemma PlainFields()
    ensures PlainValue(FAKE_ACCESS_KEY_ID) && PlainValue(TERMINATOR) && PlainValue(AMZ_DATE)
    ensures PlainValue(LATIN_SIGNATURE) && ';' !in AMZ_DATE
  {
  }

  lemma PlainCredentialRenders()
    ensures Renderable(PlainCredential, [AMZ_DATE], LATIN_SIGNATURE)
  {
    NoSlash();
    PlainFields();
    PlainJoin([FAKE_ACCESS_KEY_ID, "d", "r", "s", TERMINATOR]);
  }

  lemma LatinLookups(c: Crypto, body: seq<byte>)
    requires c.sha256(body) != []
    ensures Complete(c, [AMZ_DATE], LowerMap(LatinHeaders(c, body)), body)
    ensures GetOrEmpty(LowerMap(LatinHeaders(c, body)), AUTHORIZATION)
      == RenderAuthorization(PlainCredential, [AMZ_DATE], LATIN_SIGNATURE)
  {
    LatinMap(c, body);
    AmzNames();
    AmzNamesAreLower();
  }

  /** With a digest of any size but zero, these headers raise, whatever the verb and the target. */
  lemma {:induction false} LatinSignatureRaises(c: Crypto, verb: string, target: string, body: seq<byte>)
    requires c.sha256(body) != []
    ensures VerdictOf(c, verb, target, LatinHeaders(c, body), body).Raised?
  {
    LatinLookups(c, body);
    PlainCredentialRenders();
    RenderedRaisesIff(c, verb, target, LatinHeaders(c, body), body, PlainCredential, [AMZ_DATE], LATIN_SIGNATURE);
    assert LATIN_SIGNATURE[0] as int == 0xE9;
  }

  lemma PlainAppend(a: string, b: string)
    ensures PlainText(a + b) <==> PlainText(a) && PlainText(b)
  {
    if PlainText(a + b) {
      assert forall i :: 0 <= i < |a| ==> a[i] == (a + b)[i];
      assert forall i :: 0 <= i < |b| ==> b[i] == (a + b)[i + |a|];
    }
  }

  lemma PlainColon(a: string, mid: string, mid': string, b: string)
    requires Percent.IsColon(mid) && Percent.IsColon(mid') && a != "" && PlainPath(a + (mid + b))
    ensures PlainPath(a + (mid' + b))
  {
    PlainAppend(a, mid + b);
    PlainAppend(mid, b);
    PlainAppend(a, mid' + b);
    PlainAppend(mid', b);
    NotAuthority(a, mid + b, mid' + b);
  }

  /** A rooted path that goes on with a colon or an escape starts with "//" only within its first part. */
  lemma NotAuthority(a: string, x: string, y: string)
    requires a != "" && x != "" && y != "" && y[0] != '/' && !StartsWith(a + x, "//")
    ensures !StartsWith(a + y, "//")
  {
    assert |a| >= 2 ==> (a + x)[..2] == a[..2] == (a + y)[..2];
    assert |a| == 1 ==> (a + y)[..2][1] == y[0];
  }

  /** A versioned model path: signed once, it is accepted with ':', '%3A' and '%3a' alike. */
  lemma {:induction false} EverySpellingVerifies(
      c: Crypto, verb: string, a: string, mid: string, mid': string, b: string,
      headers: seq<(string, string)>, body: seq<byte>, cred: Credential, names: seq<string>)
    requires Percent.IsColon(mid) && Percent.IsColon(mid') && a != "" && PlainPath(a + (mid + b))
    requires Complete(c, names, LowerMap(headers), body) && AUTHORIZATION !in names
    requires cred.accessKey == FAKE_ACCESS_KEY_ID && Renderable(cred, names, "")
    ensures var text := Percent.Unquote(a + (mid + b));
      Verify(c, verb, a + (mid' + b), SignHeaders(c, verb, text, "", headers, body, cred, names), body)
  {
    var path := a + (mid' + b);
    var text := Percent.Unquote(a + (mid + b));
    Percent.ColonSpellings(a, mid, mid', b);
    PlainColon(a, mid, mid', b);
    SignedRequestVerifies(c, verb, path, path, text, "", headers, body, cred, names);
  }

  // ---------------------------------------------------------------------------
  // One signature, one request
  // ---------------------------------------------------------------------------

  /** Two different inputs with one hash. */
  predicate Collides(f: seq<byte> -> seq<byte>, x: seq<byte>, y: seq<byte>) {
    x != y && f(x) == f(y)
  }

  /** What an accepted request is known to be: the claim it carries and the request it signs. */
  lemma AcceptedClaim(
      c: Crypto, verb: string, target: string, headers: seq<(string, string)>, body: seq<byte>) returns (claim: Claim)
    requires Verify(c, verb, target, headers, body)
    ensures var h := LowerMap(headers);
      && ClaimOf(GetOrEmpty(h, AUTHORIZATION)) == Some(claim)
      && Complete(c, claim.names, h, body)
      && claim.signature == RightSignature(c, verb, target, h, body, claim.region, claim.service, claim.names)
  {
    var h := LowerMap(headers);
    claim := ClaimOf(GetOrEmpty(h, AUTHORIZATION)).value;
    VerifyClaimIff(c, verb, target, h, body, claim);
  }

  /** The request a verifier recomputes from headers that carry the named ones. */
  function Covered(verb: string, target: string, names: seq<string>, h: map<string, string>): Request
    requires AMZ_CONTENT_SHA256 in h
    requires forall i :: 0 <= i < |names| ==> names[i] in h
  {
    Recomputed(verb, target, map k | k in names :: h[k], h[AMZ_CONTENT_SHA256])
  }

  predicate CleanEntry(name: string, value: string) {
    name != "" && OneLine(name) && ':' !in name && OneLine(value)
  }

  /** What HTTP guarantees of header lines: a name without a colon, and no line break. */
  predicate WireHeaders(headers: seq<(string, string)>) {
    forall i :: 0 <= i < |headers| ==> CleanEntry(headers[i].0, headers[i].1)
  }

  lemma LowerKeeps(name: string, value: string)
    requires CleanEntry(name, value)
    ensures CleanEntry(Lower(name), value)
  {
    assert forall i :: 0 <= i < |name| ==> Lower(name)[i] == LowerChar(name[i]) && name[i] in name;
  }

  lemma {:induction false} WireLowerMap(headers: seq<(string, string)>)
    requires WireHeaders(headers)
    ensures forall k :: k in LowerMap(headers) ==> CleanEntry(k, LowerMap(headers)[k])
  {
    if headers != [] {
      WireLowerMap(headers[..|headers| - 1]);
      LowerKeeps(headers[|headers| - 1].0, headers[|headers| - 1].1);
    }
  }

  lemma {:induction false} RemovedBreaks(s: string)
    ensures OneLine(RemoveBreaks(s))
  {
    if s != "" {
      RemovedBreaks(s[1..]);
    }
  }

  /** Canonical paths are printable. */
  lemma CanonicalIsOneLine(path: string)
    ensures OneLine(Percent.Canonical(path))
  {
    Percent.EncodedChars(Percent.Path, Utf8.Encode(Percent.Unquote(path)));
    var canonical := Percent.Canonical(path);
    assert forall i :: 0 <= i < |canonical| ==> Percent.IsEncodedChar(Percent.Path, canonical[i]);
  }

  lemma QueryIsOneLine(url: string)
    requires OneLine(url)
    ensures OneLine(PathAndQuery(url).1)
  {
  }

  /** urlsplit has removed line breaks from the query. */
  lemma TargetIsOneLine(target: string)
    ensures OneLine(Percent.Canonical(UrlSplit(target).0)) && OneLine(UrlSplit(target).1)
  {
    var url := RemoveBreaks(DropLeading(target));
    RemovedBreaks(DropLeading(target));
    assert OneLine(SplitScheme(url).1);
    QueryIsOneLine(SplitScheme(url).1);
    CanonicalIsOneLine(UrlSplit(target).0);
  }

  /** On the wire, the canonical request is always unambiguous. */
  lemma CoveredIsClean(verb: string, target: string, names: seq<string>, headers: seq<(string, string)>)
    requires OneLine(verb) && WireHeaders(headers)
    requires AMZ_CONTENT_SHA256 in LowerMap(headers)
    requires forall i :: 0 <= i < |names| ==> names[i] in LowerMap(headers)
    ensures Clean(Covered(verb, target, names, LowerMap(headers)))
  {
    WireLowerMap(headers);
    TargetIsOneLine(target);
  }

  /**
   * Two accepted requests under one Authorization header and one x-amz-date agree in verb,
   * canonical path, query, body and every signed header up to padding, unless SHA-256 or the
   * MAC collides on the texts hashed for these very requests.
   */
  lemma {:induction false} AcceptedTogether(
      c: Crypto,
      verb: string, target: string, a: seq<(string, string)>, body: seq<byte>,
      verb': string, target': string, b: seq<(string, string)>, body': seq<byte>)
    requires Verify(c, verb, target, a, body) && Verify(c, verb', target', b, body')
    requires GetOrEmpty(LowerMap(a), AUTHORIZATION) == GetOrEmpty(LowerMap(b), AUTHORIZATION)
    requires GetOrEmpty(LowerMap(a), AMZ_DATE) == GetOrEmpty(LowerMap(b), AMZ_DATE)
    requires OneLine(verb) && OneLine(verb') && WireHeaders(a) && WireHeaders(b)
    ensures
      var claim := ClaimOf(GetOrEmpty(LowerMap(a), AUTHORIZATION)).value;
      var scope := Scope(claim.service, claim.region, FAKE_SECRET_ACCESS_KEY, GetOrEmpty(LowerMap(a), AMZ_DATE));
      && Complete(c, claim.names, LowerMap(a), body) && Complete(c, claim.names, LowerMap(b), body')
      && var r, s := Covered(verb, target, claim.names, LowerMap(a)), Covered(verb', target', claim.names, LowerMap(b));
      || (SameRequest(r, s) && body == body')
      || Collides(c.sha256, body, body')
      || Collides(c.sha256, Utf8.Encode(CanonicalRequest(r)), Utf8.Encode(CanonicalRequest(s)))
      || Collides(x => c.hmac(SigningKey(c, scope), x),
           Utf8.Encode(StringToSign(c, r, scope)), Utf8.Encode(StringToSign(c, s, scope)))
  {
    var claim := AcceptedClaim(c, verb, target, a, body);
    var claim' := AcceptedClaim(c, verb', target', b, body');
    var scope := Scope(claim.service, claim.region, FAKE_SECRET_ACCESS_KEY, LowerMap(a)[AMZ_DATE]);
    var r, s := Covered(verb, target, claim.names, LowerMap(a)), Covered(verb', target', claim.names, LowerMap(b));
    CoveredIsClean(verb, target, claim.names, a);
    CoveredIsClean(verb', target', claim.names, b);
    SignatureBinds(c, r, s, scope);
    HexInjectiveOn(c, body, body');
  }

  lemma HexInjectiveOn(c: Crypto, body: seq<byte>, body': seq<byte>)
    ensures Hex(c.sha256(body)) == Hex(c.sha256(body')) ==> c.sha256(body) == c.sha256(body')
  {
    if Hex(c.sha256(body)) == Hex(c.sha256(body')) {
      HexInjective(c.sha256(body), c.sha256(body'));
    }
  }

  // ---------------------------------------------------------------------------
  // Targets of any shape
  // ---------------------------------------------------------------------------

  predicate IsBreak(c: char) {
    c == '\t' || c == '\r' || c == '\n'
  }

  /** What urlsplit removes anywhere, and what it drops in front. */
  lemma {:induction false} RemovedIs(s: string)
    ensures RemoveBreaks(s) == Filter(s, c => !IsBreak(c))
  {
    if s != "" {
      RemovedIs(s[1..]);
    }
  }

  lemma {:induction false} LeadingIs(blanks: string, s: string)
    requires forall i :: 0 <= i < |blanks| ==> blanks[i] <= ' '
    requires s == "" || s[0] > ' '
    ensures DropLeading(blanks + s) == s
  {
    if blanks == "" {
      assert blanks + s == s;
    } else {
      assert (blanks + s)[1..] == blanks[1..] + s;
      LeadingIs(blanks[1..], s);
    }
  }

  lemma BeforeIs(a: string, c: char, b: string)
    requires c !in a
    ensures Before(a + [c] + b, c) == a
  {
    IndexOfIs(a, c, b);
  }

  /** A fragment is dropped. */
  lemma FragmentDropped(url: string, fragment: string)
    requires '#' !in url && !StartsWith(url, "//") && !StartsWith(url + ['#'] + fragment, "//")
    ensures PathAndQuery(url + ['#'] + fragment) == PathAndQuery(url)
  {
    BeforeIs(url, '#', fragment);
    BeforeAbsent(url, '#');
  }

  /** The path ends at the first '?', and the rest is the query. */
  lemma QueryCut(path: string, query: string)
    requires '?' !in path && '#' !in path && '#' !in query && !StartsWith(path + ['?'] + query, "//")
    ensures PathAndQuery(path + ['?'] + query) == (path, query)
  {
    BeforeAbsent(path + ['?'] + query, '#');
    PartitionIs(path, '?', query);
  }

  predicate EndsHost(c: char) {
    c == '/' || c == '?' || c == '#'
  }

  /** A network location is no part of the path. */
  lemma HostDropped(host: string, rest: string)
    requires (forall i :: 0 <= i < |host| ==> !EndsHost(host[i])) && (rest == "" || EndsHost(rest[0]))
    requires !StartsWith(rest, "//")
    ensures PathAndQuery("//" + (host + rest)) == PathAndQuery(rest)
  {
    HostEnds(host, rest);
    assert ("//" + (host + rest))[2..] == host + rest;
    assert ("//" + (host + rest))[2 + |host|..] == rest;
  }

  lemma {:induction false} HostEnds(host: string, rest: string)
    requires (forall i :: 0 <= i < |host| ==> !EndsHost(host[i])) && (rest == "" || EndsHost(rest[0]))
    ensures AuthorityEnd(host + rest) == |host|
  {
    if host == "" {
      assert host + rest == rest;
    } else {
      assert (host + rest)[1..] == host[1..] + rest;
      HostEnds(host[1..], rest);
    }
  }

  predicate Letter(c: char) {
    ('a' <= c && c <= 'z') || ('A' <= c && c <= 'Z')
  }

  /** A letter, then letters, digits, '+', '-' and '.'. */
  predicate SchemeName(scheme: string) {
    && scheme != "" && Letter(scheme[0])
    && forall i :: 0 <= i < |scheme| ==> Letter(scheme[i]) || scheme[i] in "0123456789+-."
  }

  lemma SchemeNameIff(scheme: string)
    requires scheme != ""
    ensures SchemeName(scheme) <==>
      IsAsciiLetter(scheme[0]) && forall i :: 0 <= i < |scheme| ==> IsSchemeChar(scheme[i])
  {
    forall i | 0 <= i < |scheme|
      ensures IsSchemeChar(scheme[i]) <==> Letter(scheme[i]) || scheme[i] in "0123456789+-."
    {
      SchemeCharIff(scheme[i]);
    }
  }

  lemma SchemeCharIff(c: char)
    ensures IsSchemeChar(c) <==> Letter(c) || c in "0123456789+-."
  {
  }

  /** What stands before the first ':' is the scheme, if it can be one. */
  lemma SchemeCut(scheme: string, rest: string)
    requires scheme != "" && ':' !in scheme
    ensures SplitScheme(scheme + [':'] + rest)
      == if SchemeName(scheme) then (Lower(scheme), rest) else ("", scheme + [':'] + rest)
  {
    var url := scheme + [':'] + rest;
    IndexOfIs(scheme, ':', rest);
    SchemeNameIff(scheme);
    assert url[..|scheme|] == scheme && url[|scheme| + 1..] == rest;
    assert forall i :: 0 <= i < |scheme| ==> url[i] == scheme[i];
  }

  /** Of a rooted target the parameters of the last segment are dropped. */
  lemma RootedSplit(target: string)
    requires target != "" && target[0] == '/' && forall i :: 0 <= i < |target| ==> !IsBreak(target[i])
    ensures UrlSplit(target) == (DropParams(PathAndQuery(target).0), PathAndQuery(target).1)
  {
    NoScheme(target);
    NoBreaks(target);
  }

  predicate HasParams(scheme: string) {
    || scheme == "" || scheme == "ftp" || scheme == "hdl" || scheme == "prospero" || scheme == "http"
    || scheme == "https" || scheme == "shttp" || scheme == "rtsp" || scheme == "rtspu" || scheme == "sip"
    || scheme == "sips" || scheme == "mms" || scheme == "sftp" || scheme == "tel"
  }

  lemma HasParamsIff(scheme: string)
    ensures scheme in PARAMS_SCHEMES <==> HasParams(scheme)
  {
  }

  /** A scheme holds no blank and no control. */
  lemma SchemeIsVisible(scheme: string)
    requires SchemeName(scheme)
    ensures forall i :: 0 <= i < |scheme| ==> ' ' < scheme[i]
  {
    forall i | 0 <= i < |scheme|
      ensures ' ' < scheme[i]
    {
      SchemeCharIff(scheme[i]);
    }
  }

  lemma SchemedClean(url: string, n: nat)
    requires 0 < n < |url| && forall i :: 0 <= i <= n ==> ' ' < url[i]
    requires forall i :: n < i < |url| ==> !IsBreak(url[i])
    ensures RemoveBreaks(DropLeading(url)) == url
  {
    assert DropLeading(url) == url;
    NoBreaks(url);
  }

  /** Of any other they are dropped under these schemes only. */
  lemma SchemedSplit(scheme: string, rest: string)
    requires SchemeName(scheme) && ':' !in scheme && forall i :: 0 <= i < |rest| ==> !IsBreak(rest[i])
    ensures UrlSplit(scheme + [':'] + rest)
      == (if HasParams(Lower(scheme)) then DropParams(PathAndQuery(rest).0) else PathAndQuery(rest).0,
          PathAndQuery(rest).1)
  {
    var url := scheme + [':'] + rest;
    SchemeIsVisible(scheme);
    assert forall i :: |scheme| < i < |url| ==> url[i] == rest[i - |scheme| - 1];
    SchemedClean(url, |scheme|);
    SchemeCut(scheme, rest);
    HasParamsIff(Lower(scheme));
  }

  /** Parameters are cut off behind the last '/' only. */
  lemma {:induction false} LastParams(dir: string, segment: string)
    requires '/' !in segment
    ensures DropParams(dir + ['/'] + segment) == dir + ['/'] + Before(segment, ';')
    decreases |dir|
  {
    if ';' in dir {
      var i := IndexOf(dir, ';');
      var k := IndexOf(dir[i + 1..], '/');
      var j := i + 1 + k;
      if j < |dir| {
        LastParams(dir[j + 1..], segment);
        DirectoryCut(dir, i, j);
        ParamsKept(dir[..i], dir[i + 1..j], dir[j + 1..] + ['/'] + segment);
        Rejoined(dir[..i] + [';'] + dir[i + 1..j], dir[j + 1..], segment);
        Rejoined(dir[..i] + [';'] + dir[i + 1..j], dir[j + 1..], Before(segment, ';'));
      } else {
        assert dir == dir[..i] + [';'] + dir[i + 1..];
        ParamsKept(dir[..i], dir[i + 1..], segment);
        SegmentParams(segment);
      }
    } else {
      ParamsBehind(dir, segment);
    }
  }

  lemma SegmentParams(segment: string)
    requires '/' !in segment
    ensures DropParams(segment) == Before(segment, ';')
  {
  }

  lemma DirectoryCut(dir: string, i: nat, j: nat)
    requires i < j < |dir| && dir[i] == ';' && dir[j] == '/'
    ensures dir == (dir[..i] + [';'] + dir[i + 1..j]) + ['/'] + dir[j + 1..]
  {
  }

  lemma Rejoined(a: string, b: string, c: string)
    ensures a + ['/'] + (b + ['/'] + c) == (a + ['/'] + b) + ['/'] + c
  {
  }

  /** Parameters of a segment with another behind it are kept. */
  lemma ParamsKept(p: string, q: string, tail: string)
    requires ';' !in p && '/' !in q
    ensures DropParams(p + [';'] + q + ['/'] + tail) == p + [';'] + q + ['/'] + DropParams(tail)
  {
    var path := p + [';'] + q + ['/'] + tail;
    assert path == p + [';'] + (q + ['/'] + tail);
    IndexOfIs(p, ';', q + ['/'] + tail);
    assert path[|p|..] == ([';'] + q) + ['/'] + tail;
    IndexOfIs([';'] + q, '/', tail);
    var slash := |p| + 1 + |q|;
    assert path[..slash + 1] == p + [';'] + q + ['/'] && path[slash + 1..] == tail;
  }

  lemma ParamsBehind(dir: string, segment: string)
    requires ';' !in dir && '/' !in segment
    ensures DropParams(dir + ['/'] + segment) == dir + ['/'] + Before(segment, ';')
  {
    var path, i := dir + ['/'] + segment, IndexOf(segment, ';');
    if i < |segment| {
      assert path == (dir + ['/'] + segment[..i]) + [';'] + segment[i + 1..];
      IndexOfIs(dir + ['/'] + segment[..i], ';', segment[i + 1..]);
      assert path[|dir| + 1 + i..] == segment[i..];
      assert path[..|dir| + 1 + i] == dir + ['/'] + segment[..i];
    } else {
      assert segment[..i] == segment;
    }
  }

  // ---------------------------------------------------------------------------
  // The verdict on a request as it stands on the wire
  // ---------------------------------------------------------------------------

  /** The Authorization header of the example key, written out. */
  function AuthorizationText(
      date: string, region: string, service: string, names: seq<string>, signature: string): string
  {
    "AWS4-HMAC-SHA256 " + Join([
      "Credential" + ['='] + Join(["AKIDEXAMPLE", date, region, service, "aws4_request"], "/"),
      " " + ("SignedHeaders" + ['='] + Join(names, ";")),
      " " + ("Signature" + ['='] + signature)], ",")
  }

  /** Date, digest of the body and every signed header are there. */
  predicate Carries(c: Crypto, h: map<string, string>, names: seq<string>, body: seq<byte>) {
    && "x-amz-date" in h && h["x-amz-date"] != ""
    && "x-amz-content-sha256" in h && h["x-amz-content-sha256"] != ""
    && Spells(h["x-amz-content-sha256"], c.sha256(body))
    && forall k :: k in names ==> k in h
  }

  lemma CarriesIff(c: Crypto, h: map<string, string>, names: seq<string>, body: seq<byte>)
    ensures Carries(c, h, names, body) <==> Complete(c, names, h, body)
  {
    if "x-amz-content-sha256" in h {
      HexIff(c.sha256(body), h["x-amz-content-sha256"]);
    }
  }

  /**
   * What is accepted under the example key: a request that carries what is needed and the signature
   * of its own verb, canonical path, query, signed headers and digest, in the scope it names.
   */
  lemma {:induction false} VerdictIs(
      c: Crypto, verb: string, path: string, query: string, headers: seq<(string, string)>, body: seq<byte>,
      date: string, region: string, service: string, names: seq<string>, signature: string)
    requires PlainPath(path) && PlainText(query)
    requires Renderable(Credential("AKIDEXAMPLE", date, region, service), names, signature)
    requires "authorization" in LowerMap(headers)
    requires LowerMap(headers)["authorization"] == AuthorizationText(date, region, service, names, signature)
    ensures var h := LowerMap(headers);
      Verify(c, verb, path + "?" + query, headers, body) <==>
        && Carries(c, h, names, body)
        && signature == Signature(c,
             Request(verb, Percent.Canonical(path), query, map k | k in names :: h[k], h["x-amz-content-sha256"]),
             Scope(service, region, "wJalrXUtnFEMI/K7MDENG+bPxRfiCYEXAMPLEKEY", h["x-amz-date"]))
  {
    var h := LowerMap(headers);
    var cred := Credential("AKIDEXAMPLE", date, region, service);
    RenderedText("AKIDEXAMPLE", date, region, service, names, signature);
    VerifyRenderedIff(c, verb, path + "?" + query, headers, body, cred, names, signature);
    CarriesIff(c, h, names, body);
    UrlSplitPlain(path, query);
  }

  /** Another key, or no Authorization header, is rejected. */
  lemma {:induction false} OtherKeyRejected(
      c: Crypto, verb: string, target: string, headers: seq<(string, string)>, body: seq<byte>,
      cred: Credential, names: seq<string>, signature: string)
    requires Renderable(cred, names, signature) && cred.accessKey != "AKIDEXAMPLE"
    requires GetOrEmpty(LowerMap(headers), "authorization") in ["", RenderAuthorization(cred, names, signature)]
    ensures VerdictOf(c, verb, target, headers, body) == Rejected
  {
    if GetOrEmpty(LowerMap(headers), AUTHORIZATION) != "" {
      VerifyRenderedIff(c, verb, target, headers, body, cred, names, signature);
      RenderedRaisesIff(c, verb, target, headers, body, cred, names, signature);
    }
  }

  // ---------------------------------------------------------------------------
  // What is asked of headers
  // ---------------------------------------------------------------------------

  /** Names are distinct iff no header is lost in the lookup table. */
  lemma {:induction false} DistinctNamesIff(headers: seq<(string, string)>)
    ensures |LowerMap(headers)| <= |headers|
    ensures DistinctNames(headers) <==> |LowerMap(headers)| == |headers|
  {
    if headers != [] {
      var init, last := headers[..|headers| - 1], headers[|headers| - 1];
      assert headers == init + [last];
      DistinctNamesIff(init);
      LookupIs(init, Lower(last.0));
      assert DistinctNames(headers) <==>
        DistinctNames(init) && forall i :: 0 <= i < |init| ==> Lower(init[i].0) != Lower(last.0);
      KeyPresent(init, Lower(last.0));
      assert LowerMap(headers).Keys == LowerMap(init).Keys + {Lower(last.0)};
      assert |LowerMap(headers)| == |LowerMap(headers).Keys| && |LowerMap(init)| == |LowerMap(init).Keys|;
    }
  }

  lemma {:induction false} KeyPresent(headers: seq<(string, string)>, name: string)
    ensures name in LowerMap(headers) <==> exists i :: 0 <= i < |headers| && Lower(headers[i].0) == name
  {
    if headers != [] {
      var init := headers[..|headers| - 1];
      KeyPresent(init, name);
      assert forall i :: 0 <= i < |init| ==> init[i] == headers[i];
      assert headers[|headers| - 1].0 == headers[|headers| - 1].0;
    }
  }

  /** What HTTP rules out of a header line. */
  lemma WireHeadersIff(headers: seq<(string, string)>)
    ensures WireHeaders(headers) <==> forall i :: 0 <= i < |headers| ==>
      headers[i].0 != "" && ':' !in headers[i].0 && '\n' !in headers[i].0 && '\n' !in headers[i].1
  {
  }
}
