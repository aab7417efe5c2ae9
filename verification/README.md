# Verified models of the Hydroa verification stubs, evidence tools and return paths

Dafny models of the self-contained logic in this repository that has a sharp contract: the
stub servers that check the gateway's signatures with code of their own, the binary and text
codecs they carry, the stateful fault and retry stubs, the Art. 12 bundle walk on both of its
sides, the SOC 2 evidence and register cores, log redaction, and the login return path.

`dafny verify dfyconfig.toml` checks the whole project.

## How it is laid out

| module | what it models |
|---|---|
| Prelude, Text, Bytes, Decimal, ModularPower, StableSort, Utf8 | the Python and JavaScript library functions the code calls |
| Base64, Jwk, Der, DerLoss, Pem, PemKeys, Rsa | base64url, RSA keys as JWK, DER and PEM, what a lost line costs a key, RS256 verification |
| VertexStub | token minting, bearer check and attempt counters of the Vertex stub |
| EventStream, Percent | AWS EventStream framing; percent-encoding and path canonicalisation |
| SigV4, SigV4Verify, SigV4Theorems | AWS Signature Version 4: signing, parsing and verifying |
| BedrockStub | the Bedrock stub's request handling behind the signature gate |
| FaultStubs, FaultInterleaving, FaultUpdates, ReliabilityStub | the v6/v8 fault tables, the v6 locks step by step, what one update promises there, the v19 retry stub |
| Art12Types, Art12Walk, Art12Server | the Art. 12 walk of the dashboard and the route it walks over |
| ChangeEvidence, AccessReview, VendorRegister | the pure cores of the three SOC 2 tools |
| Redact, LoginRedirect | secret masking; login bounce and return |

SHA-256, HMAC, CRC-32, `json.loads`, ISO date parsing and the clock are function-valued or plain
parameters: every theorem holds for whatever they compute. Python exceptions are results
(`None`, `Err`, `Raised`, `Failed`). Code that updates state in place (the stubs, the walk, the loops of
the verifier and the SOC 2 classifiers) is a class or a method with a loop, proved equal to a
function; the theorems about whole runs are about that function. What each such function computes
is also stated from the outside, in the literals of the source (the octets a signature opens to,
the texts that are hashed, the answer of every endpoint), so that no theorem rests on a definition
alone.

## What turned out not to hold as written

- `verify_rs256_jwt` documents that it never raises. Among the failures modelled it raises
  AttributeError exactly when the token has three segments that all decode, header and payload
  are JSON, and the header is no object (`Rsa.RaisesIff`, `Rsa.NumberHeaderRaises`).
- `verify_request` documents that it never raises. Among the failures modelled it raises
  TypeError exactly when every check before the comparison passes and the claimed signature
  holds a character outside ASCII (`SigV4Verify.VerifyRequest`, `SigV4Verify.RenderedRaisesIff`; `SigV4Theorems.LatinSignatureRaises` is such a request).
- `parse_rsa_public_key_pem` drops every line containing "BEGIN" or "END", base64 lines
  included. The octets come back exactly when no line contains either (`Pem.PemDecodesIff`). A key
  in the form encoders write, distinguished encoding in lines of 64, comes back exactly then
  too (`PemKeys.KeyReturnsIff`, `PemKeys.DistinguishedKeyReturnsIff`; `PemKeys.LostKey` is an RSA key that is
  lost). In other wrappings a key can come back although a line of it was dropped, because what
  is left encodes the same key (`PemKeys.SurvivingKey`).
- `assembleArt12Bundle` documents that it never returns a partial bundle. It does, exactly when
  the route, followed along its tokens, reaches within the ceiling a page that says there is
  more and carries no token (`Art12Walk.TruncatedIff`, `Art12Walk.PartialBundle`);
  the gateway's route never sends such a page (`Art12Server.ServerPairsTokens`).
- `_redact` documents that every occurrence of each secret is replaced. A secret that matches the
  mask across one of its edges, or inside it, can be left or created; for all others the claim
  holds (`Redact.CompleteIff`, `Redact.StarSurvives`).
- The access review documents that an unrecognised permission fails closed. That is so exactly
  when the policy's ceiling for the login is a recognised one; a misspelt ceiling covers
  everything (`AccessReview.UnknownFailsClosedIff`, `AccessReview.UnknownCeilingJustifies`).
- The fault stub promises 500 for the first N calls after an update to `{"fail_n": N}`. Request by
  request that is so (`FaultStubs.FailNSchedule`). When calls of the lock functions overlap, an update keeps
  its promise exactly when its readers outside its reign (from its own reset to the model's next
  one) all count beyond N and the first N completions inside are its readers
  (`FaultUpdates.KeptIff`). It is broken by a call between the update's two lock sections
  (`FaultUpdates.RaceDoublesTheFault`), by a call that read the behaviour before it and bumps after it
  (`FaultUpdates.StaleReaderLosesTheFault`), and by a second update that overlaps it
  (`FaultUpdates.CrossedUpdatesLoseTheFault`). It is kept whenever no update of the model overlaps another
  request of it, however completions overlap each other (`FaultUpdates.ApartKeeps`). The shipped
  `HTTPServer` (scripts/v6_fault_stub.py:283-285) takes one request at a time, so the broken schedules
  need direct concurrent use of the lock functions.
- The two registers document a total order. The order of the source shows exactly when two
  different reviewed entries share severity and name (`AccessReview.TotalOrderIff`,
  `AccessReview.OneLoginTwice`, `VendorRegister.TotalOrderIff`).
- The three-octet JWK exponent is the minimal form of section 6.3.1 of RFC 7518 only from 2^16 on
  (`Jwk.ExponentMinimalIff`).

## Model

| member | source | states |
|---|---|---|
| Rsa.VerifyExact | scripts/vertex_stub.py:157-177 | The signature check passes iff the signature has the modulus' octet count k >= 62, its integer is below n, and its e-th power mod n is the integer of 00 01 FF..FF 00 DigestInfo digest |
| Rsa.VerifyOctets | scripts/vertex_stub.py:157-177 | Octet by octet: the signature opens to 00 01, FF up to a 00, and the DER of a DigestInfo naming 2.16.840.1.101.3.4.2.1 with NULL, which ends in the digest |
| Rsa.ResidueFits | scripts/vertex_stub.py:166-167 | Writing pow(s, e, n) in k octets never overflows |
| Rsa.EncodedMessageBelowModulus | scripts/vertex_stub.py:169-173 | The expected encoding is always an integer below the modulus |
| Rsa.AcceptsExactlyTheHonestSignature | scripts/vertex_stub.py:157-177 | For any private exponent inverting e, the accepted signature is the one the holder makes, and no other |
| Rsa.CompactTokenVerdict | scripts/vertex_stub.py:138-177 | A compact token over any header and payload is accepted, with that payload, iff both parse, the header is an RS256 object, the payload is not null and the signature is honest |
| Rsa.SegmentsVerdict | scripts/vertex_stub.py:138-177 | For any text of three segments, the verdict from what they decode to, over the octets of the characters up to the second dot |
| Rsa.OtherSegments | scripts/vertex_stub.py:143-145 | Any other number of segments is rejected |
| Rsa.RaisesIff | scripts/vertex_stub.py:138-155 | For every text and key the verifier raises iff there are three segments, header and payload hold JSON, the signature is base64 and the header is no object |
| Rsa.NumberHeaderRaises | scripts/vertex_stub.py:148-155 | A token that makes the verifier raise under any key |
| Rsa.AcceptedIsSigned | scripts/vertex_stub.py:138-177 | Whatever text is accepted, its third segment decodes to the honest signature over its first two |
| Rsa.DecodedSegmentIsAscii | scripts/vertex_stub.py:150-157 | The ASCII encoding of the signing input cannot fail once both segments decoded |
| Base64.UrlDecodeEncodeUnpadded | scripts/vertex_stub.py:133-135 | Unpadded base64url decodes back to the same octets for every length |
| Base64.UnpaddedShape | scripts/live_v5_verify.py:159-160 | Stripping "=" removes exactly the padding the decoder puts back |
| Base64.DecodeEncode | scripts/vertex_stub.py:103-103 | Padded base64 decodes back to the same octets |
| Base64.GroupBits | scripts/vertex_stub.py:103-103 | Every three octets are the 24 bits of four characters, most significant first |
| Base64.LastBits | scripts/vertex_stub.py:103-103 | One or two octets at the end are followed by four or two zero bits and by two or one "=" |
| Base64.LettersAndDigits | scripts/vertex_stub.py:103-103 | The first 62 characters of both alphabets |
| Base64.LastCharacters | scripts/vertex_stub.py:133-135 | The last two: + and /, or - and _ |
| Base64.OnlyTheAlphabet | scripts/vertex_stub.py:103-103 | The decoder reads the alphabet's characters and no others |
| Bytes.BigEndian | scripts/vertex_stub.py:75-84 | Integers are read with the most significant octet first |
| Jwk.JwkRoundTrip | scripts/live_v5_verify.py:152-170 | The JWK exists iff e < 2^24; it is an RS256 signing key under the given id, its n decodes to the minimal big-endian form of the modulus, its e to three octets of value e |
| Jwk.ExponentMinimalIff | scripts/live_v5_verify.py:162-170 | The exponent's fixed three octets are minimal iff e >= 2^16 |
| Der.ReadTlvAt | scripts/vertex_stub.py:63-80 | Any definite-length element is read back wherever it stands, with the position behind it |
| Der.ParseEncoding | scripts/vertex_stub.py:105-124 | Every SubjectPublicKeyInfo encoding of a key, with any algorithm element, short or long lengths and any zero padding, parses to exactly (n, e) |
| Der.TagsDecide | scripts/vertex_stub.py:105-124 | With any tags in the five places looked at, the first wrong one from the outside in names the error; with none wrong the key is read |
| Der.ElementMissing | scripts/vertex_stub.py:63-80 | A sequence that ends where an element has to start runs out of data |
| Der.TooShort | scripts/vertex_stub.py:63-80 | So does less than a tag and a length, and an empty sequence |
| Der.DerRoundTrip | scripts/vertex_stub.py:105-124 | The canonical DER encoding of any positive n and e parses back to (n, e) |
| Pem.PemDecodesIff | scripts/vertex_stub.py:98-103 | An armoured text gives back its octets iff no base64 line contains "BEGIN" or "END" |
| Pem.LineIs | scripts/vertex_stub.py:98-102 | A line ends at its first break of any kind, and "\r\n" is one |
| Pem.BreakIs | scripts/vertex_stub.py:98-102 | The characters that end a line |
| Pem.MarkerIff | scripts/vertex_stub.py:98-102 | A line is dropped iff BEGIN or END stands in it |
| Pem.PaddingIgnored | scripts/vertex_stub.py:98-102 | White space around a line makes no difference |
| Pem.PemRoundTrip | scripts/vertex_stub.py:87-124 | A key whose lines avoid the markers survives PEM and DER |
| DerLoss.CutLosesKey | scripts/vertex_stub.py:63-124 | No encoding of a key, whatever its form, still parses to it with any of its last octets cut off, although the reader clips instead of checking lengths |
| DerLoss.ParseTakes | scripts/vertex_stub.py:63-124 | Nothing shorter than its shortest elements parses to a key |
| PemKeys.KeyReturnsIff | scripts/vertex_stub.py:98-124 | A key encoded with at most 45 octets to spare and wrapped in lines of 64 comes back iff no line contains a marker |
| PemKeys.DistinguishedKeyReturnsIff | scripts/vertex_stub.py:98-124 | So does every distinguished encoding with an algorithm element of up to 40 octets |
| PemKeys.LongLineLost | scripts/vertex_stub.py:98-124 | However it is wrapped, such a key is lost with any marked line of 64 characters |
| PemKeys.LostKey | scripts/vertex_stub.py:98-124 | An RSA key whose one base64 line contains END and which does not come back |
| PemKeys.RsaIs | scripts/vertex_stub.py:98-124 | The key's algorithm is 1.2.840.113549.1.1.1 with NULL, by the encoding rules |
| PemKeys.SurvivingKey | scripts/vertex_stub.py:98-124 | A key, wrapped otherwise, that comes back although its first line is dropped |
| VertexStub.Stub.HandleToken | scripts/vertex_stub.py:305-345 | The token endpoint's checks in order, and the state and answer they lead to |
| VertexStub.Stub.CheckClaims | scripts/vertex_stub.py:326-339 | The claim checks hold iff iss and sub are the configured client, aud the expected one unless that is null, iat and exp integers, and 0 < exp - iat <= 3600 |
| VertexStub.Stub.HandleGenerate | scripts/vertex_stub.py:379-407 | 401 without an issued bearer; otherwise the model's counter is bumped and the attempt answered |
| VertexStub.Stub.Handle | scripts/vertex_stub.py:355-407 | Every POST does to the state what the specification says, configuration errors included |
| VertexStub.Stub.Increment | scripts/vertex_stub.py:208-211 | The counter grows by one and its new value is returned |
| VertexStub.MintingInvariant | scripts/vertex_stub.py:208-222 | In every run the issued set is what was answered since the reset, all tokens distinct, each index at most the shared counter even when a model is called "token" |
| VertexStub.AuthorisedIffMinted | scripts/vertex_stub.py:341-353 | A bearer is authorised iff a request since the last reset was answered with its token |
| VertexStub.CountersCount | scripts/vertex_stub.py:208-222 | A counter is the number of mints and calls under its name since the reset |
| VertexStub.RetryOnce | scripts/vertex_stub.py:391-395 | A model call answers 503 iff the model retries and it is the first call since the reset |
| VertexStub.ConfigureReadsKey | scripts/vertex_stub.py:196-205 | Configuring with any armoured encoding of a key installs that key |
| VertexStub.ConfiguredIff | scripts/vertex_stub.py:360-374 | Configuration succeeds iff the four members are there and the key parses, and stores just them |
| VertexStub.ConfigurationFails | scripts/vertex_stub.py:360-374 | Otherwise it answers 400, but raises iff the key is no text or ends too early |
| VertexStub.Confirmed | scripts/vertex_stub.py:355-374 | A reset and a configuration are confirmed, and neither touches what the other sets |
| VertexStub.ConfigIsLatest | scripts/vertex_stub.py:196-222 | The latest configuration is in force; a reset empties counters and tokens, a configuration neither |
| VertexStub.MintsIff | scripts/vertex_stub.py:314-345 | Which assertions mint: honestly signed RS256 tokens with iss and sub the configured client, aud the expected one unless that is null, integer iat and exp, and 0 < exp - iat <= 3600 |
| VertexStub.TokenRefused | scripts/vertex_stub.py:305-339 | What any other token request is answered, from the first check that fails, and that it changes nothing |
| VertexStub.TokenMinted | scripts/vertex_stub.py:341-345 | A mint answers the fixed prefix and the shared counter's next number, and issues just that token |
| VertexStub.BearerIff | scripts/vertex_stub.py:347-353 | A model call gets past 401 iff its header is "Bearer " and an issued token |
| VertexStub.RouteIs | scripts/vertex_stub.py:382-389 | A path names the model behind its last "/" and the action behind its last ":", under /v1/projects/ only |
| VertexStub.NoRoute | scripts/vertex_stub.py:387-407 | Without a ":" a path calls no model |
| VertexStub.CallAnswer | scripts/vertex_stub.py:389-407 | What a model call is answered, by the model's ending, the attempt and the action |
| VertexStub.RunIsApplied | scripts/vertex_stub.py:355-407 | A run of requests is the run of their effects, so the invariants over effects hold of every run |
| Decimal.RenderInjective | scripts/vertex_stub.py:342-342 | Two counters rendered in decimal are the same text only if they are equal |
| Decimal.RenderDigits | scripts/vertex_stub.py:342-342 | The text of a number is that of its other digits and its last digit |
| EventStream.StreamDecodesIff | scripts/v20_bedrock_stub.py:274-308 | A decoder written from the layout, checking both CRCs and all lengths, returns exactly these events iff the octets are their encoding |
| EventStream.FrameLength | scripts/v20_bedrock_stub.py:287-293 | total_len is the real number of octets of the message |
| EventStream.FrameLayout | scripts/v20_bedrock_stub.py:287-293 | The four numbers of a message: total length, headers length, and both checksums modulo 2^32 of what stands before them |
| EventStream.MessageIs | scripts/v20_bedrock_stub.py:281-293 | Every message decodes to the headers :event-type, :content-type application/json and :message-type event, in this order, and its payload |
| EventStream.DecodeFrameOf | scripts/v20_bedrock_stub.py:287-293 | A message is taken off the front of any continuation: framing is self-delimiting |
| EventStream.EsMessageDefined | scripts/v20_bedrock_stub.py:274-293 | Packing succeeds iff the event type fits 16 bits and the message 32 |
| Utf8.DecodeEncode | scripts/v20_bedrock_stub.py:184-186 | Lenient UTF-8 decoding undoes encoding on every string |
| Utf8.DecodeOneIff | scripts/v20_bedrock_stub.py:184-186 | A character is read exactly where its encoding stands |
| Utf8.MaximalSubpart | scripts/v20_bedrock_stub.py:184-186 | One U+FFFD replaces the longest start of an encoding that stands there, or one octet |
| Percent.UnquoteQuote | scripts/v20_bedrock_stub.py:184-186 | unquote undoes quote on every string |
| Percent.CanonicalIdempotent | scripts/v20_bedrock_stub.py:184-186 | Canonicalising a path twice is canonicalising it once |
| Percent.CanonicalIff | scripts/v20_bedrock_stub.py:184-186 | Two paths have one canonical form iff they decode to the same text |
| Percent.ColonCanonical | scripts/v20_bedrock_stub.py:137-144 | ':', '%3A' and '%3a' are interchangeable anywhere in any path |
| Percent.SafeIs | scripts/v20_bedrock_stub.py:184-186 | The path encoding leaves letters, digits and / ~ - . _ alone, and no other ASCII character |
| Percent.EscapeIs | scripts/v20_bedrock_stub.py:184-186 | Every other octet becomes a percent sign and two upper-case digits |
| Percent.QuoteAppend | scripts/v20_bedrock_stub.py:184-186 | Encoding goes character by character |
| Percent.DecodeStep | scripts/v20_bedrock_stub.py:184-186 | An escape in either case is its octet; any other character, a stray percent sign included, stands for itself |
| Percent.HexValueIs | scripts/v20_bedrock_stub.py:184-186 | The digits of an escape, in either case, and nothing else |
| Percent.OneColon | scripts/v20_bedrock_stub.py:184-186 | ':', '%3A' and '%3a' spelled out |
| SigV4.CanonicalIff | scripts/v20_bedrock_stub.py:92-107 | Without line breaks, and with colon-free names, canonical requests are equal iff the requests agree up to padding of header values |
| SigV4.CanonicalRequestIs | scripts/v20_bedrock_stub.py:92-107 | The canonical request is six lines: verb, path, query, a name:value line for each header in code-point order with the value trimmed, the names joined by semicolons, the digest |
| SigV4.SignatureIs | scripts/v20_bedrock_stub.py:90-118 | For any hash and MAC: the keys are chained over date, region, service and aws4_request, and the last one signs algorithm, time, scope and digest |
| SigV4.GetVanilla | apps/gateway/tests/bedrock_sigv4/test_bedrock_sigv4.py:181-197 | The published get-vanilla request and scope, from literals: what the hash and the MAC make of these texts, in hexadecimal, is the signature |
| SigV4.HexIff | scripts/v20_bedrock_stub.py:109-118 | Which text a hexadecimal digest is: two lower-case digits for each octet, the high one first |
| SigV4.SignatureBinds | scripts/v20_bedrock_stub.py:72-118 | Equal signatures in one scope mean the same request, or a named collision of SHA-256 or the MAC |
| SigV4Verify.ParseAuthorization | scripts/v20_bedrock_stub.py:121-134 | The parser's loop computes the fold over segments, None at the first one without "=" or when a part is missing |
| SigV4Verify.FillParts | scripts/v20_bedrock_stub.py:125-131 | The dictionary after the loop is the fold; the last value of a key wins |
| SigV4Verify.LowerHeaders | scripts/v20_bedrock_stub.py:145-146 | The lookup table holds the last header of each lower-cased name, for names within Latin-1 |
| SigV4Verify.CollectSigned | scripts/v20_bedrock_stub.py:167-180 | The signed headers are the listed ones, None when one is absent |
| SigV4Verify.ReadClaim | scripts/v20_bedrock_stub.py:147-160 | The claim returned is the only one the header makes: its credential joins the known key, some date, region, service and aws4_request by slashes, its names join by semicolons; None iff it makes none |
| SigV4Verify.VerifyRequest | scripts/v20_bedrock_stub.py:137-199 | Accepts iff the recomputed signature is the claimed one; raises iff all earlier checks pass and the claimed one is not ASCII; rejects otherwise |
| SigV4Verify.RenderedRaisesIff | scripts/v20_bedrock_stub.py:137-199 | On a rendered header the verifier raises iff the key is known, everything needed is present and the value is not ASCII |
| SigV4Verify.AsciiOnlyIff | scripts/v20_bedrock_stub.py:199-199 | What can be compared: characters below U+0080 |
| SigV4Theorems.LatinSignatureRaises | scripts/v20_bedrock_stub.py:137-199 | Three headers on which the verifier raises, whatever the verb, target and body |
| SigV4Verify.ParseRendered | scripts/v20_bedrock_stub.py:121-134 | Parsing a rendered Authorization header gives back its three parts |
| SigV4Verify.RenderedText | scripts/v20_bedrock_stub.py:121-134 | The rendered header in full |
| SigV4Verify.AuthorizationIff | scripts/v20_bedrock_stub.py:121-134 | Any header is read iff it starts with the algorithm, its segments give a dictionary, and Credential, SignedHeaders and Signature are among its keys |
| SigV4Verify.DictionaryIs | scripts/v20_bedrock_stub.py:125-131 | There is a dictionary iff every segment is a pair; it holds the last value of each key and no other key |
| SigV4Verify.SegmentPairIff | scripts/v20_bedrock_stub.py:125-131 | A segment is a pair iff it has an "="; it comes apart at the first, and both parts are stripped |
| SigV4Verify.LookupIs | scripts/v20_bedrock_stub.py:145-146 | A lookup finds the last header of the name in any case, and nothing when there is none |
| SigV4Verify.VerifyRenderedIff | scripts/v20_bedrock_stub.py:137-199 | A rendered header verifies iff the key is the known one, everything needed is present and the value is the request's signature |
| SigV4Theorems.SignedRequestVerifies | scripts/v20_bedrock_stub.py:72-199 | Signed implies accepted: a signer that quotes the path text it means, over any verb, query, headers, names and body, is accepted under every plain wire spelling of that path |
| SigV4Theorems.VerdictIs | scripts/v20_bedrock_stub.py:137-199 | From literals: what is accepted under the example key carries date, digest of the body and signed headers, and the signature of its own verb, canonical path, query, headers and digest in the scope it names |
| SigV4Theorems.OtherKeyRejected | scripts/v20_bedrock_stub.py:147-160 | Under any other key, or without the header, every request is rejected |
| SigV4Theorems.EverySpellingVerifies | scripts/v20_bedrock_stub.py:137-187 | One signature is accepted with ':', '%3A' and '%3a' in the wire path alike |
| SigV4Theorems.VerdictIgnoresOrderAndCase | scripts/v20_bedrock_stub.py:145-182 | The verdict depends neither on header order nor on the case of header names |
| SigV4Theorems.DistinctNamesIff | scripts/v20_bedrock_stub.py:145-146 | Names are distinct, whatever their case, iff no header is lost in the lookup |
| SigV4Theorems.WireHeadersIff | scripts/v20_bedrock_stub.py:374-374 | What HTTP rules out of a header line |
| SigV4Theorems.VerdictIgnoresSignedHeadersOrder | scripts/v20_bedrock_stub.py:167-182 | Nor on the order or repetition of names in SignedHeaders |
| SigV4Theorems.UrlSplitPlain | scripts/v20_bedrock_stub.py:184-187 | A plain path with or without a plain query comes apart as written |
| SigV4Theorems.QueryCut | scripts/v20_bedrock_stub.py:184-187 | The path ends at the first "?" |
| SigV4Theorems.FragmentDropped | scripts/v20_bedrock_stub.py:184-187 | A fragment is dropped |
| SigV4Theorems.HostDropped | scripts/v20_bedrock_stub.py:184-187 | A network location is no part of the path |
| SigV4Theorems.SchemeCut | scripts/v20_bedrock_stub.py:184-187 | What stands before the first ":" is the scheme, if it can be one |
| SigV4Theorems.RootedSplit | scripts/v20_bedrock_stub.py:184-187 | Parameters are dropped from a rooted target |
| SigV4Theorems.SchemedSplit | scripts/v20_bedrock_stub.py:184-187 | And from any other under thirteen schemes only |
| SigV4Theorems.LastParams | scripts/v20_bedrock_stub.py:184-187 | Parameters are cut off behind the last "/" only |
| SigV4Theorems.AcceptedTogether | scripts/v20_bedrock_stub.py:137-199 | Two requests accepted under one Authorization header and date agree in verb, path, query, body and signed headers, or exhibit a collision |
| BedrockStub.Stub.Handle | scripts/v20_bedrock_stub.py:360-409 | Reset, routing, gate and counters lead to the state and answer specified, raising included |
| BedrockStub.Admit | scripts/v20_bedrock_stub.py:360-377 | Router and gate turn a request away or admit it as specified, before any counter is touched |
| BedrockStub.Stub.Serve | scripts/v20_bedrock_stub.py:379-409 | An admitted call bumps its model's counter and is answered by attempt, suffix and action; an invoke body that is JSON and no object gets no answer |
| BedrockStub.Stub.Increment | scripts/v20_bedrock_stub.py:210-213 | The counter grows by one and its new value is returned |
| BedrockStub.CountersCount | scripts/v20_bedrock_stub.py:210-223 | A counter is the number of verified calls of its model since the reset |
| BedrockStub.RetryOnce | scripts/v20_bedrock_stub.py:379-384 | 503 iff the call is verified, its model retries and it is the first since the reset |
| BedrockStub.RejectedLeaveNoTrace | scripts/v20_bedrock_stub.py:366-379 | Dropping every request the router or the gate turned away changes no later answer |
| BedrockStub.ForbiddenChangesNothing | scripts/v20_bedrock_stub.py:373-377 | 403 comes from the gate alone, and no later answer depends on a request that got it |
| BedrockStub.SignedCallCounts | scripts/v20_bedrock_stub.py:366-379 | A call whose header dictionary is what was signed for the path text it means is never turned away and counts as its own model's |
| BedrockStub.HeaderDictIs | scripts/v20_bedrock_stub.py:374-374 | Headers of distinct names are their own dictionary |
| BedrockStub.HeaderDictHolds | scripts/v20_bedrock_stub.py:374-374 | The dictionary of any headers has one entry for each exact name, with its last value |
| BedrockStub.RouteIs | scripts/v20_bedrock_stub.py:342-350 | A target names the model and the action around the last "/" in front of any query, under /model/ |
| BedrockStub.NotRoutedIff | scripts/v20_bedrock_stub.py:361-371 | Any other target but the reset path is not found |
| BedrockStub.GateIs | scripts/v20_bedrock_stub.py:373-377 | A routed request is admitted, forbidden or crashes with the verdict on it as a POST |
| BedrockStub.ReadableIff | scripts/v20_bedrock_stub.py:398-405 | A body is readable iff it is an object or no JSON at all |
| BedrockStub.AnswersAre | scripts/v20_bedrock_stub.py:361-408 | Every answer, by what the router and the gate made of the request, the model's ending, the calls before it and the action |
| Text.RPartitionIff | scripts/v20_bedrock_stub.py:342-350 | The split at the last separator is the only one whose tail is free of it |
| Text.StripIff | scripts/v20_bedrock_stub.py:96-96 | Stripping takes away white space at both ends, and all of it |
| Text.SpaceIs | scripts/v20_bedrock_stub.py:96-96 | Which characters are white space |
| Text.LowerLetter | scripts/v20_bedrock_stub.py:145-146 | Lower-casing maps A to Z to a to z |
| Text.LowerOther | scripts/v20_bedrock_stub.py:145-146 | And the capitals of Latin-1, apart from the multiplication sign; nothing else |
| FaultStubs.FaultTable.SetBehavior | scripts/v6_fault_stub.py:64-69 | The behaviour is stored and the model's counter zeroed, nothing else changes |
| FaultStubs.FaultTable.IncrementAndGetCount | scripts/v6_fault_stub.py:78-82 | The model's counter grows by one and is returned |
| FaultStubs.FaultTable.HandleCompletion | scripts/v6_fault_stub.py:216-273 | Resolving fail_n and dispatching computes the answer specified, for either stub |
| FaultStubs.FaultTable.Handle | scripts/v8_router_stub.py:143-224 | Every request changes table and counters as specified |
| FaultStubs.StateIsTrace | scripts/v6_fault_stub.py:64-82 | Table and counter of a model are its latest behaviour and its completions since, read off the run |
| FaultStubs.AnswerIsTrace | scripts/v8_router_stub.py:203-224 | Both stubs answer by one per-model trace function |
| FaultStubs.FailNSchedule | scripts/v6_fault_stub.py:216-226 | The i-th completion after an update whose fail_n is N answers 500 iff i <= N, whatever else runs in between |
| FaultStubs.FailureTotal | scripts/v6_fault_stub.py:216-226 | A stretch with c completions holds exactly min(c, max(N, 0)) failures |
| FaultStubs.ReadoutIsTrace | scripts/v8_router_stub.py:83-86 | The read-out lists exactly the models mentioned, each with its completions since its update |
| FaultStubs.ModelsAreIndependent | scripts/v6_fault_stub.py:64-82 | A model's answers depend only on the requests about it |
| FaultStubs.RateLimitedIff | scripts/v6_fault_stub.py:258-269 | v6 answers 429 with the configured delay or 1 iff the latest behaviour asks for it and has no fail_n |
| FaultStubs.CompletionAnswers | scripts/v6_fault_stub.py:220-273 | When a completion is answered at once, streams to its end, breaks off or raises: by "ok", "stream_cut" and fail_n, and 500 for anything else |
| FaultStubs.OtherAnswers | scripts/v6_fault_stub.py:185-201 | An update is confirmed, a malformed body refused, and neither that nor a read-out changes anything |
| FaultStubs.StubsAgreeIff | scripts/v8_router_stub.py:203-224 | When v6 and v8 answer alike: no behaviour only v6 knows, no successful stream |
| FaultInterleaving.CountsWithoutGaps | scripts/v6_fault_stub.py:64-82 | In every interleaving of lock sections the counts handed out between two resets are 1, 2, 3, ... |
| FaultInterleaving.FailuresExactly | scripts/v6_fault_stub.py:64-82 | Between two resets at most N completions that read some fail_n N fail, and min(c, max(N, 0)) of the c there iff each of the first N read one |
| FaultUpdates.KeptIff | scripts/v6_fault_stub.py:64-82 | In every interleaving an update keeps its promise, over the whole log, iff its readers outside its reign count beyond N and the first N completions inside are its readers |
| FaultUpdates.ApartKeeps | scripts/v6_fault_stub.py:64-82 | If no update of the model overlaps another request of it, every update keeps its promise, however completions overlap |
| FaultUpdates.KeptCounts | scripts/v6_fault_stub.py:64-82 | The promise in numbers: as many readers of the update fail over the whole log as are to fail in its reign, and they fail there |
| FaultUpdates.ResetReigns | scripts/v6_fault_stub.py:64-69 | Every reset opens a reign, up to the model's next reset or the end of the log |
| FaultUpdates.SerialIsApart | scripts/v6_fault_stub.py:283-285 | Requests one after the other keep the updates of every model apart |
| FaultUpdates.OverlapIsApart | scripts/v6_fault_stub.py:72-82 | So do two completions that overlap each other, whichever bumps first |
| FaultUpdates.RunTraced | scripts/v6_fault_stub.py:64-75 | In every interleaving a call acts on the behaviour of the update it read, "ok" if none |
| FaultUpdates.CrossedUpdatesLoseTheFault | scripts/v6_fault_stub.py:64-69 | Two overlapping updates after which the one reset last fails nobody |
| FaultUpdates.StaleReaderLosesTheFault | scripts/v6_fault_stub.py:64-82 | A schedule in which an update to fail_n 1 fails nobody, because a reader of the old behaviour takes the count |
| FaultInterleaving.RunCounts | scripts/v6_fault_stub.py:64-82 | The counting invariant holds after every schedule |
| FaultInterleaving.SerialRefines | scripts/v6_fault_stub.py:216-217 | Without overlap the lock-level run reaches the state of the request-level run |
| FaultInterleaving.SerialAnswers | scripts/v6_fault_stub.py:216-226 | Nor does any answer differ: each completion's count and behaviour give the request-level answer |
| FaultUpdates.RaceDoublesTheFault | scripts/v6_fault_stub.py:64-69 | A schedule in which one update to fail_n 1 fails two completions, one before its own reset |
| ReliabilityStub.ExtractRequestMarker | scripts/v19_reliability_stub.py:195-213 | The scan finds the first non-empty user text, capped, then falls back to the input and the clock |
| ReliabilityStub.FirstUserText | scripts/v19_reliability_stub.py:202-208 | The result is the text of the first user message with text, None iff there is none |
| ReliabilityStub.Stub.IncrementCounter | scripts/v19_reliability_stub.py:79-82 | The model's counter grows by one |
| ReliabilityStub.Stub.IncrementRetry | scripts/v19_reliability_stub.py:102-106 | The count of this model and marker grows by one and is returned |
| ReliabilityStub.Stub.HandleCompletion | scripts/v19_reliability_stub.py:258-337 | Counting and dispatch lead to the state and answer specified |
| ReliabilityStub.Stub.Handle | scripts/v19_reliability_stub.py:248-256 | Reset clears both maps; the rest as specified |
| ReliabilityStub.RetriesCount | scripts/v19_reliability_stub.py:102-106 | A retry count is the number of attempts with its marker since the reset |
| ReliabilityStub.RetryOnce | scripts/v19_reliability_stub.py:267-337 | Any request answers 503 iff it is a retry request and the first with its marker since the reset; later ones answer 200 |
| ReliabilityStub.RepeatSucceeds | scripts/v19_reliability_stub.py:280-292 | Repeating such a request at any later time before a reset succeeds |
| ReliabilityStub.ModelsByName | scripts/v19_reliability_stub.py:267-337 | Which requests the retry state decides, and what each other model is answered, by name |
| ReliabilityStub.MarkerSources | scripts/v19_reliability_stub.py:195-213 | The marker is the user text, else the input, cut at 128 characters, else the clock |
| ReliabilityStub.UserTextIff | scripts/v19_reliability_stub.py:204-207 | What counts as user text: a non-empty text in a message of the user's |
| ReliabilityStub.ResetForgets | scripts/v19_reliability_stub.py:91-95 | A reset forgets everything, and a malformed request counts nowhere |
| ReliabilityStub.MarkerIsPrefix | scripts/v19_reliability_stub.py:202-208 | With user text the clock is irrelevant and two requests share a marker iff their first 128 characters do |
| ReliabilityStub.CallsConserved | scripts/v19_reliability_stub.py:79-106 | A call counter is the sum of the model's retry counts over all markers plus the calls that bypass the retry path |
| ReliabilityStub.RetriesWithinCalls | scripts/v19_reliability_stub.py:79-106 | The summed retry counts of a model never exceed its call counter |
| Art12Walk.Assemble | apps/dashboard/lib/art12-bundle.ts:131-201 | The loop computes the walk: result, and the trace of calls it made |
| Art12Walk.WalkOutcome | apps/dashboard/lib/art12-bundle.ts:151-200 | Against any route: every fetch but the last advances, each call carries the caller's period and the previous token, and the result is the assembled pages, the fetch's own error, or too large at the ceiling |
| Art12Walk.OutcomeUnique | apps/dashboard/lib/art12-bundle.ts:151-200 | That determines the number of fetches and the result |
| Art12Walk.WalkEndsAt | apps/dashboard/lib/art12-bundle.ts:151-185 | With the first page without more at P: exactly P fetches within the ceiling, otherwise too large after exactly the ceiling |
| Art12Walk.WalkOver | apps/dashboard/lib/art12-bundle.ts:151-200 | What the walk makes of a given sequence of pages |
| Art12Walk.FailurePropagates | apps/dashboard/lib/art12-bundle.ts:158-158 | A failing fetch ends the walk with its own error and no retry |
| Art12Walk.TruncatedIff | apps/dashboard/lib/art12-bundle.ts:174-184 | A partial bundle is returned iff the route, along its own tokens and within the ceiling, comes to a page with more and no token |
| Art12Walk.WalkHitsCeiling | apps/dashboard/lib/art12-bundle.ts:151-155 | A walk that still advances at the ceiling fails after exactly the ceiling |
| Art12Walk.NeverPartial | apps/dashboard/lib/art12-bundle.ts:174-184 | Against a route that pairs more with a token no partial bundle is returned |
| Art12Walk.PartialBundle | apps/dashboard/lib/art12-bundle.ts:179-184 | A route against which a partial bundle is returned |
| Art12Server.ServerPairsTokens | apps/gateway/src/gateway/compliance/api/router.py:607-638 | The route always pairs has_more with a token |
| Art12Server.AfterCursor | apps/gateway/src/gateway/audit/infrastructure/audit_repository.py:124-157 | Behind a cursor the keyset query finds exactly the rest of the original rows, whatever was added at the head since |
| Art12Server.SectionOfWalk | apps/gateway/src/gateway/compliance/api/router.py:405-427 | The i-th page of a section is its i-th chunk, and the cursor moves to its end |
| Art12Server.Conversation | apps/gateway/src/gateway/compliance/api/router.py:435-680 | Walking along the tokens, the i-th reply is the i-th page of the fixed tables |
| Art12Server.WalkReadsTheTables | apps/gateway/src/gateway/compliance/api/router.py:435-680 | End to end, when no call it gets to takes too long, the walk returns the three sections complete, as they stood when it began, in exactly the pages the longest needs, or too large at the ceiling |
| Art12Server.LogsWithheldIff | apps/gateway/src/gateway/compliance/api/router.py:545-576 | On every page served, log rows come only from a cover without zero-data-retention whose plan includes them; otherwise the section is empty and its note says which is missing |
| Art12Server.WalkedRows | apps/gateway/src/gateway/compliance/api/router.py:435-680 | The whole walk, without the route's own functions: in each section the rows with since <= created_at <= until and no others, newest first, the log rows iff entitled and without zero-data-retention |
| Art12Server.AppendOnlyIff | apps/gateway/src/gateway/audit/infrastructure/audit_repository.py:124-157 | What the walk asks of the tables: newest first, and at most with rows added in front |
| Art12Server.WalkTimesOut | apps/gateway/src/gateway/compliance/api/router.py:465-587 | Otherwise the first call to take too long fails it, right after that call |
| Art12Server.BadPeriodFails | apps/gateway/src/gateway/compliance/api/router.py:215-223 | A period the route rejects fails the walk on its first call |
| Art12Server.PeriodIsPinned | apps/gateway/src/gateway/compliance/api/router.py:457-464 | The token of any page is refused at any later time iff the period is not the one that page was asked for |
| ChangeEvidence.Classify | scripts/soc2/change_evidence.py:114-145 | The classifier computes the evidence specified |
| ChangeEvidence.CheckContexts | scripts/soc2/change_evidence.py:121-129 | The loop sees every required context and lists those not green, in order |
| ChangeEvidence.CleanIff | scripts/soc2/change_evidence.py:114-145 | No exception iff there is a PR, every required context succeeded and someone approved |
| ChangeEvidence.ExceptionsExactly | scripts/soc2/change_evidence.py:114-145 | Each exception is recorded exactly for its own reason |
| ChangeEvidence.ExportReports | scripts/soc2/change_evidence.py:108-170 | Every landing with since <= merged < until is reported with its checks, its approvals marked independent iff not by a self-approval login, and no exception iff it has none to show; nothing else is |
| ChangeEvidence.CountsAre | scripts/soc2/change_evidence.py:170-182 | The three counts are counts of the window's landings themselves |
| ChangeEvidence.BuildEvidence | scripts/soc2/change_evidence.py:148-184 | Filtering, classifying, sorting and counting give the export specified |
| ChangeEvidence.BuildOrdersTheWindow | scripts/soc2/change_evidence.py:165-168 | The export is newest first and a permutation of the window's evidence |
| ChangeEvidence.NewestFirst | scripts/soc2/change_evidence.py:167-168 | Merge times descend, and at one instant the shas do |
| ChangeEvidence.WindowsCompose | scripts/soc2/change_evidence.py:108-171 | The evidence of [a, c) is that of [b, c) followed by that of [a, b), and all three counts add up |
| ChangeEvidence.OrderDoesNotMatterIff | scripts/soc2/change_evidence.py:163-171 | The export is the same for every order of the source iff no two different pieces of the window's evidence share instant and sha |
| ChangeEvidence.DistinctIsDetermined | scripts/soc2/change_evidence.py:167-168 | Which holds when no two different landings of the window do |
| StableSort.SortIs | scripts/soc2/change_evidence.py:168-168 | A sorted list that keeps the order of equal keys is the sort, so nothing else can be |
| StableSort.SortStable | scripts/soc2/access_review.py:208-208 | The sort keeps elements with equal keys in order |
| StableSort.StringLessIff | scripts/soc2/access_review.py:208-208 | Texts compare by the first character in which they differ, a proper start first |
| AccessReview.JustifiedIff | scripts/soc2/access_review.py:120-182 | Justified iff the last policy entry of the login covers the rank and there was activity in the window |
| AccessReview.CoversIff | scripts/soc2/access_review.py:46-48 | Which ceilings cover which permissions: read, write and admin in this order, an unrecognised ceiling all |
| AccessReview.PrivilegedIff | scripts/soc2/access_review.py:124-125 | Every grant but read is privileged, unrecognised ones included |
| AccessReview.StaleIff | scripts/soc2/access_review.py:128-132 | Dormant iff no activity is on record, or none for the days of the window |
| AccessReview.EntryIsLast | scripts/soc2/access_review.py:201-201 | The dictionary of the policy holds the last entry of each login |
| AccessReview.FailsClosedIff | scripts/soc2/access_review.py:135-182 | Over-privileged iff no counting policy entry covers the grant, an unlisted login always; the self-approval mark is that entry's |
| AccessReview.UnknownFailsClosedIff | scripts/soc2/access_review.py:44-48 | An unrecognised grant is over-privileged iff the login's ceiling is a recognised one |
| AccessReview.UnknownCeilingJustifies | scripts/soc2/access_review.py:120-157 | A misspelt ceiling justifies an unrecognised permission |
| AccessReview.LaterOnlyStales | scripts/soc2/access_review.py:128-182 | A later now turns justified into stale and changes nothing else |
| AccessReview.RegisterIsTheReview | scripts/soc2/access_review.py:203-208 | The register is sorted by severity and login, a permutation of the classified privileged grants, ties in source order |
| AccessReview.WorstFirst | scripts/soc2/access_review.py:51-51 | Over-privileged before stale before justified, logins ascending within each |
| AccessReview.InRegister | scripts/soc2/access_review.py:203-208 | What is in the register: each privileged grant with its classification |
| AccessReview.CountsAre | scripts/soc2/access_review.py:215-221 | The counts partition the register's own rows |
| AccessReview.TotalOrderIff | scripts/soc2/access_review.py:207-208 | The register is the same for every order of the roster iff no two different reviewed grants share severity and login |
| AccessReview.OneLoginTwice | scripts/soc2/access_review.py:207-208 | A roster of one login on two surfaces, where they do |
| AccessReview.RegisterLater | scripts/soc2/access_review.py:185-221 | Later the same principals, as many over-privileged, no fewer stale |
| VendorRegister.DocumentedIff | scripts/soc2/vendor_register.py:116-147 | Documented iff signed, filled with more than blanks, reached and not yet expired |
| VendorRegister.FailsClosedIff | scripts/soc2/vendor_register.py:116-147 | Incomplete iff unsigned, undated or some field blank; expired iff complete and at or past its date |
| VendorRegister.LaterOnlyExpires | scripts/soc2/vendor_register.py:127-147 | A later now turns documented and unused into expired and changes nothing else |
| VendorRegister.UseOnlyDocuments | scripts/soc2/vendor_register.py:127-147 | Being reached turns unused into documented and changes nothing else |
| VendorRegister.RegisterIsTheReview | scripts/soc2/vendor_register.py:173-177 | The register is sorted by severity and name, a permutation of the classified customer-data vendors |
| VendorRegister.WorstFirst | scripts/soc2/vendor_register.py:45-45 | Expired before incomplete before documented before unused, names ascending within each |
| VendorRegister.InReview | scripts/soc2/vendor_register.py:174-176 | Exactly the customer-data vendors are classified, by whether their name is reached |
| VendorRegister.UsedIff | scripts/soc2/vendor_register.py:166-175 | A vendor counts as used iff some live reference has its name |
| VendorRegister.CountsAre | scripts/soc2/vendor_register.py:180-188 | The counts partition the register's own rows, and a DPA of any status but "signed" is incomplete |
| VendorRegister.TotalOrderIff | scripts/soc2/vendor_register.py:176-177 | The vendors are the same for every order of declaration iff no two different reviewed ones share severity and name |
| VendorRegister.UndeclaredExactly | scripts/soc2/vendor_register.py:166-172 | Undeclared are exactly the live references with no declared name |
| VendorRegister.NoneUndeclaredIff | scripts/soc2/vendor_register.py:166-172 | None is undeclared iff every live name is declared, customer data or not |
| VendorRegister.RegisterLater | scripts/soc2/vendor_register.py:150-188 | Later as many vendors, incomplete and undeclared, no fewer expired |
| Redact.RedactLine | scripts/live_helios_smoke.py:120-129 | The loop computes the fold of replacements, empty secrets skipped |
| Redact.RedactionComplete | scripts/live_helios_smoke.py:120-129 | If no secret clashes with the mask the output holds none of them, whatever their order or overlap |
| Redact.CompleteIff | scripts/live_helios_smoke.py:120-129 | A set of secrets is removed from every line and in every list iff none of them clashes with the mask |
| Redact.LeavesSecretIff | scripts/live_helios_smoke.py:120-129 | A single secret can survive in some line iff it clashes with the mask |
| Redact.PlainSecretsDoNotClash | scripts/live_helios_smoke.py:96-96 | A secret without '*' that is no part of REDACTED does not clash |
| Redact.CleanLineUnchanged | scripts/live_helios_smoke.py:120-129 | A line with no secret in it is unchanged |
| Redact.FirstMasked | scripts/live_helios_smoke.py:96-129 | The first occurrence becomes ***REDACTED*** and masking goes on behind it |
| Redact.SecretsInTurn | scripts/live_helios_smoke.py:120-129 | Secrets are masked one after the other; empty ones do nothing |
| Redact.StarSurvives | scripts/live_helios_smoke.py:96-129 | The secret "*" is replaced by more of itself |
| LoginRedirect.HasControlChar | apps/dashboard/lib/bff-client.ts:84-90 | The scan finds a control character iff there is one |
| LoginRedirect.ControlIff | apps/dashboard/lib/bff-client.ts:84-90 | Control characters are everything below the blank, and DEL |
| LoginRedirect.Sanitize | apps/dashboard/lib/bff-client.ts:99-106 | The guard returns its argument iff it has no control character, no backslash and no leading blank, and a browser, with all it drops and rewrites, reads it as a path of the own origin; null otherwise |
| LoginRedirect.SanitizeIff | apps/dashboard/lib/bff-client.ts:99-106 | It returns its argument or null, accepts those references and no others, and is idempotent |
| LoginRedirect.SlashedAt | apps/dashboard/lib/bff-client.ts:92-98 | In a browser's reading a backslash is a slash iff no "?" and no "#" stands in front of it |
| LoginRedirect.EndsDropped | apps/dashboard/lib/bff-client.ts:92-98 | And blanks and controls go at both ends |
| LoginRedirect.TargetIsSameOrigin | apps/dashboard/lib/bff-client.ts:109-114 | Whatever the query holds, a browser reads the destination after login as a path of the own origin |
| LoginRedirect.BounceIs | apps/dashboard/lib/bff-client.ts:63-77 | The bounce of any path: /login?next= and its encoding, or /login alone |
| LoginRedirect.QueryReadsBack | apps/dashboard/lib/bff-client.ts:63-77 | Decoding the bounce URL's next parameter gives back the path |
| LoginRedirect.PairIs | apps/dashboard/lib/bff-client.ts:63-77 | Of several pairs the first of the name decides |
| LoginRedirect.PlusIsBlank | apps/dashboard/lib/bff-client.ts:63-77 | A "+" in a query reads as "%20" does |
| LoginRedirect.RoundTripIff | apps/dashboard/lib/bff-client.ts:63-114 | A path survives bounce and login iff it is rooted, not "/", not "//", not under /login, and free of backslashes and control characters |

## Left out

- HTTP servers, sockets, TLS, docker, psql and redis subprocesses, sleep and poll loops: input and output.
- The internals of SHA-256, HMAC, CRC-32 and JSON parsing, and RSA key generation: parameters of the theorems.
- datetime.fromisoformat: instants are integers, so mixed naive and aware values do not arise; the token and cursor strings of the Art. 12 route are the values they encode.
- SigV4Verify.LowerHeaders: lower-cases as Python does only within Latin-1, which is what header lines are read as; other letters are left alone.
- urlparse raising ValueError on malformed bracketed hosts of a "//" target: such targets are split at the next slash.
- Handlers raising on JSON of an unexpected shape (a list where an object is read, an unhashable model id), and json.loads raising RecursionError on deep nesting: only the exceptions named in the answer types are modelled.
- Non-integer numbers (a fractional fail_n, floating-point iat and exp): numbers are integers.
- Canned response bodies: an answer is its status, whether it streams, and what depends on state.
- Lone surrogates in JavaScript strings, on which encodeURIComponent throws: strings are sequences of Unicode scalar values.
- The reason texts and sign-off records of the SOC 2 registers, and IncompleteFetch passing through them: fixed text and a plain propagation.
- The audit write of the Art. 12 route: it only adds rows at the head of the audit table, which the tables may do between any two calls.
- Rows of the Art. 12 sections stand for their sort key (created_at, id); their other columns are carried along unread.
- Lock-level interleavings of the v8, v19 and v20 stubs and of the Vertex stub: v8 shares v6's locks, and the servers run one request at a time.
- The other stubs (v7, v9 to v12, v21, v25, v35, v39), the live scripts, dashboard pages and typed wrappers: canned bodies, counters already covered, or thin wrappers.
