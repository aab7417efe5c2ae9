/**
 * The Vertex stub's mutable state: the configured key, the attempt counters and the issued
 * bearer tokens. The token endpoint shares its counter map with the model endpoints.
 */
module VertexStub {
  import opened Prelude
  import opened Bytes
  import opened Text
  import opened Rsa
  import Decimal
  import Pem

  const TOKEN: string := "token"
  const TOKEN_PREFIX: string := "stub-access-token-"
  const BEARER: string := "Bearer "
  const JWT_BEARER: string := "urn:ietf:params:oauth:grant-type:jwt-bearer"
  const PROJECTS: string := "/v1/projects/"
  const RETRY: string := "-retry"
  const NOT_FOUND_REGION: string := "-notfound-region"
  const ACTIONS: set<string> := {"generateContent", "streamGenerateContent"}
  const MAX_LIFETIME: int := 3600

  datatype Config = Config(key: PublicKey, clientEmail: Json, projectId: Json, expectedAud: Json)

  /** A POST, its form or JSON body already decoded by the library. */
  datatype Request =
    | Reset
    | Configure(payload: Option<Json>)
    | Token(grantType: string, assertion: string)
    | Generate(authorization: string, path: string)

  /** Failed: the handler raised, so no status is sent. */
  datatype Answer = Status(code: nat) | Minted(token: string) | Failed

  /** What a request does to the counters and the token set. */
  datatype Effect =
    | Cleared
    | Configured(config: Config)
    | Mint
    | Bump(model: string, action: string)
    | Idle(answer: Answer)

  datatype State = State(config: Option<Config>, counters: map<string, nat>, issued: set<string>)

  const Fresh: State := State(None, map[], {})

  function Get(counters: map<string, nat>, key: string): nat {
    if key in counters then counters[key] else 0
  }

  /** A JSON field, or null when it is missing. */
  function Field(fields: map<string, Json>, name: string): Json {
    if name in fields then fields[name] else Null
  }

  const CONFIG_FIELDS: set<string> := {"public_key_pem", "client_email", "project_id", "expected_aud"}

  /** The configuration request: 400 for what the handler catches, Failed for what it does not. */
  function Configuration(payload: Option<Json>): Effect {
    if payload.None? || !payload.value.Object? then Idle(Status(400)) else
    var fields := payload.value.fields;
    if exists k | k in CONFIG_FIELDS :: k !in fields then Idle(Status(400))
    else if !fields["public_key_pem"].Text? then Idle(Failed)
    else match Pem.ParsePem(fields["public_key_pem"].text)
      case Ok((n, e)) =>
        Configured(Config(PublicKey(n, e), fields["client_email"], fields["project_id"], fields["expected_aud"]))
      case Err(error) => if error == Pem.BadKey(Pem.Der.OutOfData) then Idle(Failed) else Idle(Status(400))
  }

  /** The checks on the claims of a verified assertion. */
  predicate ClaimsHold(config: Config, fields: map<string, Json>) {
    && Field(fields, "iss") == config.clientEmail && Field(fields, "sub") == config.clientEmail
    && (config.expectedAud == Null || Field(fields, "aud") == config.expectedAud)
    && Field(fields, "iat").Int? && Field(fields, "exp").Int?
    && Field(fields, "iat").number < Field(fields, "exp").number
    && Field(fields, "exp").number - Field(fields, "iat").number <= MAX_LIFETIME
  }

  /** Whether a token request mints, in the order the handler checks. */
  function Assess(lib: Library, config: Option<Config>, grantType: string, assertion: string): Effect {
    if config.None? then Idle(Status(500))
    else if grantType != JWT_BEARER || assertion == "" then Idle(Status(400))
    else match VerifyRs256Jwt(lib, assertion, config.value.key)
      case Raised => Idle(Failed)
      case Rejected => Idle(Status(400))
      case Accepted(payload) =>
        if !payload.Object? then Idle(Failed)
        else if ClaimsHold(config.value, payload.fields) then Mint
        else Idle(Status(400))
  }

  /** The presented header is "Bearer " and an issued token. */
  predicate Authorized(issued: set<string>, authorization: string) {
    StartsWith(authorization, BEARER) && authorization[|BEARER|..] in issued
  }

  /** Model and action of a path: around the last ':', the model after the last '/' before it. */
  function ModelAndAction(path: string): Option<(string, string)> {
    if !StartsWith(path, PROJECTS) then None
    else match RPartition(path, ':')
      case None => None
      case Some((rest, action)) =>
        match RPartition(rest, '/')
        case None => Some((rest, action))
        case Some((_, model)) => Some((model, action))
  }

  /** A model endpoint: the bearer first, then the path. */
  function Dispatch(issued: set<string>, authorization: string, path: string): Effect {
    if !Authorized(issued, authorization) then Idle(Status(401))
    else match ModelAndAction(path)
      case None => Idle(Status(404))
      case Some((model, action)) => Bump(model, action)
  }

  function EffectOf(lib: Library, s: State, r: Request): Effect {
    match r
    case Reset => Cleared
    case Configure(payload) => Configuration(payload)
    case Token(grantType, assertion) => Assess(lib, s.config, grantType, assertion)
    case Generate(authorization, path) => Dispatch(s.issued, authorization, path)
  }

  function TokenText(n: nat): string {
    TOKEN_PREFIX + Decimal.Render(n)
  }

  function StatusOf(model: string, action: string, attempt: nat): nat {
    if EndsWith(model, RETRY) && attempt == 1 then 503
    else if EndsWith(model, NOT_FOUND_REGION) then 404
    else if action in ACTIONS then 200
    else 404
  }

  function Bumped(counters: map<string, nat>, key: string): map<string, nat> {
    counters[key := Get(counters, key) + 1]
  }

  function Apply(s: State, effect: Effect): (State, Answer) {
    match effect
    case Cleared => (s.(counters := map[], issued := {}), Status(200))
    case Configured(config) => (s.(config := Some(config)), Status(200))
    case Mint =>
      var token := TokenText(Get(s.counters, TOKEN) + 1);
      (s.(counters := Bumped(s.counters, TOKEN), issued := s.issued + {token}), Minted(token))
    case Bump(model, action) =>
      (s.(counters := Bumped(s.counters, model)), Status(StatusOf(model, action, Get(s.counters, model) + 1)))
    case Idle(answer) => (s, answer)
  }

  // ---------------------------------------------------------------------------
  // The stub
  // ---------------------------------------------------------------------------

  class Stub {
    var config: Option<Config>
    var counters: map<string, nat>
    var issued: set<string>

    function Snapshot(): State
      reads this
    {
      State(config, counters, issued)
    }

    constructor ()
      ensures Snapshot() == Fresh
    {
      config, counters, issued := None, map[], {};
    }

    /** _increment. */
    method Increment(key: string) returns (n: nat)
      modifies this`counters
      ensures counters == Bumped(old(counters), key) && n == counters[key]
    {
      counters := counters[key := Get(counters, key) + 1];
      n := counters[key];
    }

    /** _handle_token. */
    method HandleToken(lib: Library, grantType: string, assertion: string) returns (answer: Answer)
      modifies this
      ensures (Snapshot(), answer) == Apply(old(Snapshot()), Assess(lib, old(config), grantType, assertion))
    {
      if config.None? {
        return Status(500);
      }
      if grantType != JWT_BEARER || assertion == "" {
        return Status(400);
      }
      var verdict := VerifyRs256Jwt(lib, assertion, config.value.key);
      if verdict.Raised? {
        return Failed;
      }
      if verdict.Rejected? {
        return Status(400);
      }
      if !verdict.payload.Object? {
        return Failed;
      }
      var holds := CheckClaims(verdict.payload.fields);
      if !holds {
        return Status(400);
      }
      var hits := Increment(TOKEN);
      var token := TokenText(hits);
      issued := issued + {token};
      return Minted(token);
    }

    /** The claim checks of _handle_token, in its order. */
    method CheckClaims(fields: map<string, Json>) returns (holds: bool)
      requires config.Some?
      ensures holds == ClaimsHold(config.value, fields)
      ensures holds <==>
        && Field(fields, "iss") == config.value.clientEmail && Field(fields, "sub") == config.value.clientEmail
        && (config.value.expectedAud.Null? || Field(fields, "aud") == config.value.expectedAud)
        && Field(fields, "iat").Int? && Field(fields, "exp").Int?
        && 0 < Field(fields, "exp").number - Field(fields, "iat").number <= 3600
    {
      if Field(fields, "iss") != config.value.clientEmail || Field(fields, "sub") != config.value.clientEmail {
        return false;
      }
      if config.value.expectedAud != Null && Field(fields, "aud") != config.value.expectedAud {
        return false;
      }
      var iat, exp := Field(fields, "iat"), Field(fields, "exp");
      if !iat.Int? || !exp.Int? || exp.number <= iat.number {
        return false;
      }
      return exp.number - iat.number <= MAX_LIFETIME;
    }

    /** The model endpoints. */
    method HandleGenerate(authorization: string, path: string) returns (answer: Answer)
      modifies this
      ensures (Snapshot(), answer) == Apply(old(Snapshot()), Dispatch(old(issued), authorization, path))
    {
      if !StartsWith(authorization, BEARER) || authorization[|BEARER|..] !in issued {
        return Status(401);
      }
      var parsed := ModelAndAction(path);
      if parsed.None? {
        return Status(404);
      }
      var (model, action) := parsed.value;
      var attempt := Increment(model);
      if EndsWith(model, RETRY) && attempt == 1 {
        return Status(503);
      }
      if EndsWith(model, NOT_FOUND_REGION) {
        return Status(404);
      }
      return Status(if action in ACTIONS then 200 else 404);
    }

    /** do_POST. */
    method Handle(lib: Library, r: Request) returns (answer: Answer)
      modifies this
      ensures (Snapshot(), answer) == Apply(old(Snapshot()), EffectOf(lib, old(Snapshot()), r))
    {
      match r
      case Reset =>
        counters, issued := map[], {};
        return Status(200);
      case Configure(payload) =>
        var effect := Configuration(payload);
        if effect.Configured? {
          config := Some(effect.config);
          return Status(200);
        }
        return effect.answer;
      case Token(grantType, assertion) =>
        answer := HandleToken(lib, grantType, assertion);
      case Generate(authorization, path) =>
        answer := HandleGenerate(authorization, path);
    }
  }

  // ---------------------------------------------------------------------------
  // Runs
  // ---------------------------------------------------------------------------

  /** The state after a run of requests, and what each request did. */
  function After(lib: Library, run: seq<Request>): State {
    if run == [] then Fresh
    else
      var s := After(lib, run[..|run| - 1]);
      Apply(s, EffectOf(lib, s, run[|run| - 1])).0
  }

  function Effects(lib: Library, run: seq<Request>): seq<Effect> {
    if run == [] then []
    else Effects(lib, run[..|run| - 1]) + [EffectOf(lib, After(lib, run[..|run| - 1]), run[|run| - 1])]
  }

  function Applied(effects: seq<Effect>): State {
    if effects == [] then Fresh else Apply(Applied(effects[..|effects| - 1]), effects[|effects| - 1]).0
  }

  lemma {:induction false} RunIsApplied(lib: Library, run: seq<Request>)
    ensures After(lib, run) == Applied(Effects(lib, run))
  {
    if run != [] {
      RunIsApplied(lib, run[..|run| - 1]);
      var effects := Effects(lib, run);
      assert effects[..|effects| - 1] == Effects(lib, run[..|run| - 1]);
    }
  }

  /** The tokens handed out since the last reset, oldest first, as the answers carried them. */
  function MintedSince(effects: seq<Effect>): seq<string> {
    if effects == [] || effects[|effects| - 1].Cleared? then []
    else
      var init, last := effects[..|effects| - 1], effects[|effects| - 1];
      MintedSince(init) + (if last.Mint? then [Apply(Applied(init), last).1.token] else [])
  }

  /** What each counter counts: mints under the shared name, and calls of the model. */
  function BumpsSince(effects: seq<Effect>, key: string): nat {
    if effects == [] || effects[|effects| - 1].Cleared? then 0
    else
      var last := effects[|effects| - 1];
      BumpsSince(effects[..|effects| - 1], key)
      + (if (last.Mint? && key == TOKEN) || (last.Bump? && last.model == key) then 1 else 0)
  }

  lemma {:induction false} CountersCount(effects: seq<Effect>, key: string)
    ensures Get(Applied(effects).counters, key) == BumpsSince(effects, key)
  {
    if effects != [] {
      CountersCount(effects[..|effects| - 1], key);
    }
  }

  /** The index of a token text: one at most. */
  lemma TokenTextInjective(m: nat, n: nat)
    requires TokenText(m) == TokenText(n)
    ensures m == n
  {
    assert TokenText(m)[|TOKEN_PREFIX|..] == Decimal.Render(m);
    assert TokenText(n)[|TOKEN_PREFIX|..] == Decimal.Render(n);
    Decimal.RenderInjective(m, n);
  }

  /** The token carries an index between 1 and `bound`. */
  predicate IndexedWithin(token: string, bound: nat) {
    exists i: nat :: 1 <= i <= bound && token == TokenText(i)
  }

  ghost predicate Distinct(tokens: seq<string>) {
    forall i, j :: 0 <= i < j < |tokens| ==> tokens[i] != tokens[j]
  }

  /** The next token is none of those with a smaller index. */
  lemma NextIsNew(token: string, bound: nat)
    requires IndexedWithin(token, bound)
    ensures token != TokenText(bound + 1)
  {
    var i: nat :| 1 <= i <= bound && token == TokenText(i);
    if token == TokenText(bound + 1) {
      TokenTextInjective(i, bound + 1);
    }
  }

  ghost predicate AllWithin(tokens: seq<string>, bound: nat) {
    forall t :: t in tokens ==> IndexedWithin(t, bound)
  }

  lemma WithinMore(tokens: seq<string>, bound: nat, more: nat)
    requires AllWithin(tokens, bound) && bound <= more
    ensures AllWithin(tokens, more)
  {
    forall t | t in tokens
      ensures IndexedWithin(t, more)
    {
      var i: nat :| 1 <= i <= bound && t == TokenText(i);
    }
  }

  /** The next token joins them, unlike any of them. */
  lemma MintedNext(tokens: seq<string>, bound: nat)
    requires AllWithin(tokens, bound) && Distinct(tokens)
    ensures AllWithin(tokens + [TokenText(bound + 1)], bound + 1) && Distinct(tokens + [TokenText(bound + 1)])
  {
    WithinMore(tokens, bound, bound + 1);
    assert IndexedWithin(TokenText(bound + 1), bound + 1);
    var more := tokens + [TokenText(bound + 1)];
    forall i, j | 0 <= i < j < |more|
      ensures more[i] != more[j]
    {
      if j == |tokens| {
        NextIsNew(tokens[i], bound);
      }
    }
  }

  /**
   * The minting invariant over every run: the issued set holds exactly the tokens answered since
   * the last reset, no two of them are equal, and each index is at most the shared counter,
   * which model calls named "token" may have pushed further.
   */
  lemma {:induction false} MintingInvariant(effects: seq<Effect>)
    ensures forall t :: t in Applied(effects).issued <==> t in MintedSince(effects)
    ensures AllWithin(MintedSince(effects), Get(Applied(effects).counters, TOKEN))
    ensures Distinct(MintedSince(effects))
  {
    if effects != [] {
      var init, last := effects[..|effects| - 1], effects[|effects| - 1];
      MintingInvariant(init);
      var bound := Get(Applied(init).counters, TOKEN);
      if last.Mint? {
        MintedNext(MintedSince(init), bound);
      } else if last.Bump? {
        WithinMore(MintedSince(init), bound, Get(Applied(effects).counters, TOKEN));
      }
    }
  }

  /** A bearer is authorised iff some request since the last reset was answered with its token. */
  lemma {:induction false} AuthorisedIffMinted(lib: Library, run: seq<Request>, token: string)
    ensures Authorized(After(lib, run).issued, BEARER + token) <==> token in MintedSince(Effects(lib, run))
  {
    RunIsApplied(lib, run);
    MintingInvariant(Effects(lib, run));
    assert (BEARER + token)[|BEARER|..] == token;
  }

  /** Configuring with the armoured encoding of a key installs that key, whatever the encoding's form. */
  lemma {:induction false} ConfigureReadsKey(
      fields: map<string, Json>, n: nat, e: nat, p: Pem.Der.SpkiParts, der: seq<byte>, lines: seq<string>)
    requires forall k :: k in CONFIG_FIELDS ==> k in fields
    requires Pem.Der.Encodes(der, p, n, e) && Pem.Wraps(lines, der)
    requires forall i :: 0 <= i < |lines| ==> !Pem.HasMarker(lines[i])
    requires fields["public_key_pem"] == Json.Text(Pem.Armor(lines))
    ensures Configuration(Some(Object(fields))) == Configured(
      Config(PublicKey(n, e), fields["client_email"], fields["project_id"], fields["expected_aud"]))
  {
    Pem.PemRoundTrip(n, e, p, der, lines);
  }

  lemma ClaimsAre(config: Config, claims: map<string, Json>)
    ensures ClaimsHold(config, claims) <==>
      && Field(claims, "iss") == config.clientEmail && Field(claims, "sub") == config.clientEmail
      && (config.expectedAud.Null? || Field(claims, "aud") == config.expectedAud)
      && Field(claims, "iat").Int? && Field(claims, "exp").Int?
      && 0 < Field(claims, "exp").number - Field(claims, "iat").number <= 3600
  {
  }

  lemma SignedMints(
      lib: Library, config: Config, d: nat, header: seq<byte>, payload: seq<byte>, signature: seq<byte>)
    requires lib.Valid() && ByteLength(config.key.n) >= 62 && Inverse(config.key, d)
    ensures Assess(lib, Some(config), JWT_BEARER, Compact(header, payload, signature)) == Mint <==>
      && lib.loads(header).Some? && lib.loads(header).value.Object?
      && lib.loads(payload).Some? && lib.loads(payload).value.Object?
      && Field(lib.loads(header).value.fields, "alg") == Json.Text("RS256")
      && signature == Sign(config.key, d, lib.sha256(CompactInput(header, payload)))
      && ClaimsHold(config, lib.loads(payload).value.fields)
  {
    CompactTokenVerdict(lib, config.key, d, header, payload, signature);
    assert Compact(header, payload, signature) != "";
  }

  /**
   * Which assertions mint: those signed with the private exponent of the configured key over a
   * parseable RS256 header and claims that name the configured client twice, the expected audience
   * if one is configured, and a lifetime of at most an hour.
   */
  lemma {:induction false} MintsIff(
      lib: Library, config: Config, d: nat, header: seq<byte>, payload: seq<byte>, signature: seq<byte>)
    requires lib.Valid() && ByteLength(config.key.n) >= 62 && Inverse(config.key, d)
    ensures Assess(lib, Some(config), JWT_BEARER, Compact(header, payload, signature)) == Mint <==>
      && lib.loads(header).Some? && lib.loads(header).value.Object?
      && lib.loads(payload).Some? && lib.loads(payload).value.Object?
      && Field(lib.loads(header).value.fields, "alg") == Json.Text("RS256")
      && signature == Sign(config.key, d, lib.sha256(CompactInput(header, payload)))
      && var claims := lib.loads(payload).value.fields;
      && Field(claims, "iss") == config.clientEmail && Field(claims, "sub") == config.clientEmail
      && (config.expectedAud.Null? || Field(claims, "aud") == config.expectedAud)
      && Field(claims, "iat").Int? && Field(claims, "exp").Int?
      && 0 < Field(claims, "exp").number - Field(claims, "iat").number <= 3600
  {
    SignedMints(lib, config, d, header, payload, signature);
    if lib.loads(payload).Some? && lib.loads(payload).value.Object? {
      ClaimsAre(config, lib.loads(payload).value.fields);
    }
  }

  /** A model call is answered 503 iff its model retries and it is the first since the reset. */
  lemma {:induction false} RetryOnce(effects: seq<Effect>, model: string, action: string)
    ensures Apply(Applied(effects), Bump(model, action)).1 == Status(503) <==>
      EndsWith(model, RETRY) && BumpsSince(effects, model) == 0
  {
    CountersCount(effects, model);
  }

  // ---------------------------------------------------------------------------
  // The endpoints, spelled out
  // ---------------------------------------------------------------------------

  /** A missing member reads as null. */
  lemma FieldIs(fields: map<string, Json>, name: string)
    ensures name in fields ==> Field(fields, name) == fields[name]
    ensures name !in fields ==> Field(fields, name).Null?
  {
  }

  /** What a token request is answered when it does not mint, from the first check that fails. */
  lemma {:induction false} TokenRefused(lib: Library, s: State, grantType: string, assertion: string)
    requires EffectOf(lib, s, Token(grantType, assertion)) != Mint
    ensures Apply(s, EffectOf(lib, s, Token(grantType, assertion))) == (s,
      if s.config.None? then Status(500)
      else if grantType != "urn:ietf:params:oauth:grant-type:jwt-bearer" || assertion == "" then Status(400)
      else match VerifyRs256Jwt(lib, assertion, s.config.value.key)
        case Raised => Failed
        case Rejected => Status(400)
        case Accepted(payload) => if payload.Object? then Status(400) else Failed)
  {
  }

  /** And when it does: the shared counter's next number, under the fixed prefix, issued from now on. */
  lemma {:induction false} TokenMinted(lib: Library, s: State, grantType: string, assertion: string)
    requires EffectOf(lib, s, Token(grantType, assertion)) == Mint
    ensures s.config.Some? && grantType == "urn:ietf:params:oauth:grant-type:jwt-bearer" && assertion != ""
    ensures var n := Get(s.counters, "token") + 1; var token := "stub-access-token-" + Decimal.Render(n);
      Apply(s, Mint)
        == (State(s.config, s.counters["token" := n], s.issued + {token}), Minted(token))
  {
  }

  /** A model call is let in iff its header is "Bearer " and an issued token. */
  lemma {:induction false} BearerIff(lib: Library, s: State, authorization: string, path: string)
    ensures EffectOf(lib, s, Generate(authorization, path)) != Idle(Status(401)) <==>
      exists token :: token in s.issued && authorization == "Bearer " + token
  {
    if Authorized(s.issued, authorization) {
      assert authorization == "Bearer " + authorization[|BEARER|..];
    }
    if token :| token in s.issued && authorization == "Bearer " + token {
      assert authorization[|BEARER|..] == token;
    }
  }

  /** A path comes apart at its last ':' and at the last '/' before it. */
  lemma NamesIs(path: string, rest: string, model: string, action: string)
    requires ':' !in action && '/' !in model && path == rest + ['/'] + model + [':'] + action
    ensures RPartition(path, ':') == Some((rest + ['/'] + model, action))
    ensures RPartition(rest + ['/'] + model, '/') == Some((rest, model))
  {
    RPartitionIff(path, ':', rest + ['/'] + model, action);
    RPartitionIff(rest + ['/'] + model, '/', rest, model);
  }

  /** Which calls a bearer's path makes: everything under "/v1/projects/" with a ':' behind a '/'. */
  lemma {:induction false} RouteIs(
      lib: Library, s: State, token: string, rest: string, model: string, action: string)
    requires token in s.issued && ':' !in action && '/' !in model
    ensures var path := rest + "/" + model + ":" + action;
      EffectOf(lib, s, Generate("Bearer " + token, path))
        == if StartsWith(path, "/v1/projects/") then Bump(model, action) else Idle(Status(404))
  {
    NamesIs(rest + "/" + model + ":" + action, rest, model, action);
    assert ("Bearer " + token)[|BEARER|..] == token;
  }

  lemma {:induction false} NoSeparator(s: string, c: char)
    requires c !in s
    ensures RPartition(s, c).None?
  {
    if s != "" {
      NoSeparator(s[..|s| - 1], c);
    }
  }

  /** Without a ':' there is no model to call. */
  lemma {:induction false} NoRoute(lib: Library, s: State, token: string, path: string)
    requires token in s.issued && ':' !in path
    ensures EffectOf(lib, s, Generate("Bearer " + token, path)) == Idle(Status(404))
  {
    assert ("Bearer " + token)[|BEARER|..] == token;
    NoSeparator(path, ':');
  }

  /** What a model call is answered, by the model's ending, the attempt and the action. */
  lemma {:induction false} CallAnswer(s: State, model: string, action: string)
    ensures var n := Get(s.counters, model) + 1;
      Apply(s, Bump(model, action)) == (s.(counters := s.counters[model := n]), Status(
        if EndsWith(model, "-retry") && n == 1 then 503
        else if EndsWith(model, "-notfound-region") then 404
        else if action == "generateContent" || action == "streamGenerateContent" then 200
        else 404))
  {
  }

  /** Configuration succeeds iff the four members are there and the key parses, and stores just them. */
  lemma {:induction false} ConfiguredIff(payload: Option<Json>, config: Config)
    ensures Configuration(payload) == Configured(config) <==>
      && payload.Some? && payload.value.Object?
      && var fields := payload.value.fields;
      && {"public_key_pem", "client_email", "project_id", "expected_aud"} <= fields.Keys
      && fields["public_key_pem"].Text?
      && Pem.ParsePem(fields["public_key_pem"].text) == Ok((config.key.n, config.key.e))
      && fields["client_email"] == config.clientEmail && fields["project_id"] == config.projectId
      && fields["expected_aud"] == config.expectedAud
  {
  }

  /** Otherwise 400, but for what is no text, and for a key that ends too early: those raise. */
  lemma {:induction false} ConfigurationFails(payload: Option<Json>)
    requires !Configuration(payload).Configured?
    ensures Configuration(payload) == Idle(Failed) || Configuration(payload) == Idle(Status(400))
    ensures Configuration(payload) == Idle(Failed) <==>
      && payload.Some? && payload.value.Object?
      && var fields := payload.value.fields;
      && {"public_key_pem", "client_email", "project_id", "expected_aud"} <= fields.Keys
      && (fields["public_key_pem"].Text? ==>
            Pem.ParsePem(fields["public_key_pem"].text) == Err(Pem.BadKey(Pem.Der.OutOfData)))
  {
  }

  /** A reset and a configuration are confirmed; neither touches what the other sets. */
  lemma {:induction false} Confirmed(lib: Library, s: State, config: Config, payload: Option<Json>)
    ensures Apply(s, EffectOf(lib, s, Reset)) == (State(s.config, map[], {}), Status(200))
    ensures EffectOf(lib, s, Configure(payload)) == Configured(config) <==> Configuration(payload) == Configured(config)
    ensures Apply(s, Configured(config)) == (State(Some(config), s.counters, s.issued), Status(200))
  {
  }

  function LastConfig(effects: seq<Effect>): Option<Config> {
    if effects == [] then None
    else if effects[|effects| - 1].Configured? then Some(effects[|effects| - 1].config)
    else LastConfig(effects[..|effects| - 1])
  }

  /** The latest configuration is in force, resets or not. */
  lemma {:induction false} ConfigIsLatest(effects: seq<Effect>)
    ensures Applied(effects).config == LastConfig(effects)
    ensures effects != [] ==>
      match effects[|effects| - 1]
      case Cleared => Applied(effects).counters == map[] && Applied(effects).issued == {}
      case Configured(_) =>
        && Applied(effects).counters == Applied(effects[..|effects| - 1]).counters
        && Applied(effects).issued == Applied(effects[..|effects| - 1]).issued
      case _ => true
  {
    if effects != [] {
      ConfigIsLatest(effects[..|effects| - 1]);
    }
  }
}
