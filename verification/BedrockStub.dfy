/**
 * The Bedrock stub's request handling: routing, the signature gate, the attempt counters and
 * the retry-once model. What a request is admitted as depends on the request alone; what it is
 * answered depends, besides, only on the counters.
 */
module BedrockStub {
  import opened Prelude
  import opened Bytes
  import opened Text
  import opened SigV4
  import opened SigV4Verify
  import opened SigV4Theorems

  const POST: string := "POST"
  const RESET: string := "/__reset"
  const MODEL_PREFIX: string := "/model/"
  const RETRY_ONCE: string := "retry-once"
  const FB_FAIL: string := "fb-fail"
  const INVOKE: string := "invoke"
  const ACTIONS: set<string> := {"converse", "converse-stream", INVOKE}

  /** Model id and action of a /model/ target; the query is ignored. */
  function ModelAndAction(target: string): Option<(string, string)> {
    var pathOnly := Before(target, '?');
    if StartsWith(pathOnly, MODEL_PREFIX) then RPartition(pathOnly[|MODEL_PREFIX|..], '/') else None
  }

  // ---------------------------------------------------------------------------
  // Admission
  // ---------------------------------------------------------------------------

  datatype Post = Post(target: string, headers: seq<(string, string)>, body: seq<byte>)

  /**
   * The library: hashes and MACs, and what json.loads makes of a body (None: it raises
   * ValueError; otherwise whether it is an object).
   */
  datatype Library = Library(crypto: Crypto, loadsObject: seq<byte> -> Option<bool>)

  /** Crashed: the gate raised. A body is readable unless it is JSON and no object. */
  datatype Admission =
    | Cleared
    | NotRouted
    | Forbidden
    | Crashed
    | Admitted(model: string, action: string, readable: bool)

  /** Failed: the handler raised, so no status is sent. */
  datatype Answer = Status(code: nat) | Failed

  function Readable(lib: Library, body: seq<byte>): bool {
    lib.loadsObject(body) != Some(false)
  }

  /** d[name] = value: in place when the name is there, at the end otherwise. */
  function Upsert(dict: seq<(string, string)>, name: string, value: string): seq<(string, string)> {
    if dict == [] then [(name, value)]
    else if dict[0].0 == name then [(name, value)] + dict[1..]
    else [dict[0]] + Upsert(dict[1..], name, value)
  }

  /** {k: v for k, v in headers.items()}: one entry per exact name, at its first place, with its last value. */
  function HeaderDict(headers: seq<(string, string)>): seq<(string, string)> {
    if headers == [] then []
    else
      var last := headers[|headers| - 1];
      Upsert(HeaderDict(headers[..|headers| - 1]), last.0, last.1)
  }

  lemma {:induction false} UpsertNew(dict: seq<(string, string)>, name: string, value: string)
    requires forall i :: 0 <= i < |dict| ==> dict[i].0 != name
    ensures Upsert(dict, name, value) == dict + [(name, value)]
  {
    if dict != [] {
      UpsertNew(dict[1..], name, value);
      assert dict == [dict[0]] + dict[1..];
    }
  }

  /** Headers of distinct names are their own dictionary. */
  lemma {:induction false} HeaderDictIs(headers: seq<(string, string)>)
    requires forall i, j :: 0 <= i < j < |headers| ==> headers[i].0 != headers[j].0
    ensures HeaderDict(headers) == headers
  {
    if headers != [] {
      var init, last := headers[..|headers| - 1], headers[|headers| - 1];
      HeaderDictIs(init);
      UpsertNew(init, last.0, last.1);
      assert headers == init + [last];
    }
  }

  /** What the verdict on a routed request makes of it. */
  function Gate(model: string, action: string, verdict: Verdict, readable: bool): Admission {
    match verdict
    case Accepted => Admitted(model, action, readable)
    case Rejected => Forbidden
    case Raised => Crashed
  }

  /** What the router and the gate make of a request. */
  function Classify(lib: Library, r: Post): Admission {
    if r.target == RESET then Cleared
    else match ModelAndAction(r.target)
      case None => NotRouted
      case Some((model, action)) =>
        Gate(model, action, VerdictOf(lib.crypto, POST, r.target, HeaderDict(r.headers), r.body), Readable(lib, r.body))
  }

  type Counters = map<string, nat>

  function Get(counters: Counters, model: string): nat {
    if model in counters then counters[model] else 0
  }

  /** The answer to the `attempt`-th admitted call of a model. */
  function AnswerTo(model: string, action: string, readable: bool, attempt: nat): Answer {
    if EndsWith(model, RETRY_ONCE) && attempt == 1 then Status(503)
    else if EndsWith(model, FB_FAIL) then Status(400)
    else if action == INVOKE && !readable then Failed
    else if action in ACTIONS then Status(200)
    else Status(404)
  }

  /** Counters and answer after one request. */
  function Step(counters: Counters, a: Admission): (Counters, Answer) {
    match a
    case Cleared => (map[], Status(200))
    case NotRouted => (counters, Status(404))
    case Forbidden => (counters, Status(403))
    case Crashed => (counters, Failed)
    case Admitted(model, action, readable) =>
      var attempt := Get(counters, model) + 1;
      (counters[model := attempt], AnswerTo(model, action, readable, attempt))
  }

  class Stub {
    var counters: Counters

    constructor ()
      ensures counters == map[]
    {
      counters := map[];
    }

    /** _increment. */
    method Increment(model: string) returns (attempt: nat)
      modifies this
      ensures counters == old(counters)[model := Get(old(counters), model) + 1]
      ensures attempt == counters[model]
    {
      counters := counters[model := Get(counters, model) + 1];
      attempt := counters[model];
    }

    /** The answer to an admitted call. */
    method Serve(model: string, action: string, readable: bool) returns (answer: Answer)
      modifies this
      ensures (counters, answer) == Step(old(counters), Admitted(model, action, readable))
    {
      var attempt := Increment(model);
      if EndsWith(model, RETRY_ONCE) && attempt == 1 {
        return Status(503);
      }
      if EndsWith(model, FB_FAIL) {
        return Status(400);
      }
      if action == INVOKE && !readable {
        return Failed;
      }
      return Status(if action in ACTIONS then 200 else 404);
    }

    /** do_POST. */
    method Handle(lib: Library, r: Post) returns (answer: Answer)
      modifies this
      ensures (counters, answer) == Step(old(counters), Classify(lib, r))
    {
      var admission := Admit(lib, r);
      match admission
      case Cleared =>
        counters := map[];
        return Status(200);
      case NotRouted =>
        return Status(404);
      case Forbidden =>
        return Status(403);
      case Crashed =>
        return Failed;
      case Admitted(model, action, readable) =>
        answer := Serve(model, action, readable);
    }
  }

  /** The checks of do_POST before any counter is touched, in its order. */
  method Admit(lib: Library, r: Post) returns (a: Admission)
    ensures a == Classify(lib, r)
  {
    if r.target == RESET {
      return Cleared;
    }
    var parsed := ModelAndAction(r.target);
    if parsed.None? {
      return NotRouted;
    }
    var verdict := VerifyRequest(lib.crypto, POST, r.target, HeaderDict(r.headers), r.body);
    a := Gate(parsed.value.0, parsed.value.1, verdict, Readable(lib, r.body));
  }

  // ---------------------------------------------------------------------------
  // Runs
  // ---------------------------------------------------------------------------

  /** The counters after a whole run from a fresh stub. */
  function After(run: seq<Admission>): Counters {
    if run == [] then map[] else Step(After(run[..|run| - 1]), run[|run| - 1]).0
  }

  /** The answer the next request gets. */
  function AnswerAfter(run: seq<Admission>, next: Admission): Answer {
    Step(After(run), next).1
  }

  predicate Counts(a: Admission, model: string) {
    a.Admitted? && a.model == model
  }

  /** Admitted calls of a model since the last reset, counted in the run itself. */
  function CallsSinceReset(run: seq<Admission>, model: string): nat {
    if run == [] || run[|run| - 1].Cleared? then 0
    else (if Counts(run[|run| - 1], model) then 1 else 0) + CallsSinceReset(run[..|run| - 1], model)
  }

  /** Every counter is the number of admitted calls since the last reset. */
  lemma {:induction false} CountersCount(run: seq<Admission>, model: string)
    ensures Get(After(run), model) == CallsSinceReset(run, model)
  {
    if run != [] {
      CountersCount(run[..|run| - 1], model);
    }
  }

  /** A 503 is given iff the call is admitted, its model retries, and it is the first since the reset. */
  lemma {:induction false} RetryOnce(run: seq<Admission>, next: Admission)
    ensures AnswerAfter(run, next) == Status(503) <==>
      next.Admitted? && EndsWith(next.model, RETRY_ONCE) && CallsSinceReset(run, next.model) == 0
  {
    if next.Admitted? {
      CountersCount(run, next.model);
    }
  }

  /** Requests the router or the gate did not turn away. */
  predicate TakesEffect(a: Admission) {
    a.Cleared? || a.Admitted?
  }

  /** The run without the requests turned away. */
  function Effective(run: seq<Admission>): seq<Admission> {
    Filter(run, TakesEffect)
  }

  lemma EffectiveSnoc(run: seq<Admission>, last: Admission)
    ensures Effective(run + [last]) == Effective(run) + (if TakesEffect(last) then [last] else [])
  {
    FilterAppend(run, [last], TakesEffect);
    assert [last][1..] == [];
  }

  lemma AfterSnoc(run: seq<Admission>, last: Admission)
    ensures After(run + [last]) == Step(After(run), last).0
  {
    assert (run + [last])[..|run|] == run;
  }

  /** Requests turned away leave no trace: no later answer depends on them. */
  lemma {:induction false} RejectedLeaveNoTrace(run: seq<Admission>)
    ensures After(run) == After(Effective(run))
    ensures forall next :: AnswerAfter(run, next) == AnswerAfter(Effective(run), next)
  {
    if run != [] {
      var init, last := run[..|run| - 1], run[|run| - 1];
      assert run == init + [last];
      RejectedLeaveNoTrace(init);
      AfterSnoc(init, last);
      EffectiveSnoc(init, last);
      if TakesEffect(last) {
        AfterSnoc(Effective(init), last);
      } else {
        assert Effective(init) + [] == Effective(init);
      }
    }
  }

  /** A 403 comes from the gate alone, and changes no answer that follows. */
  lemma {:induction false} ForbiddenChangesNothing(run: seq<Admission>, next: Admission, later: Admission)
    ensures AnswerAfter(run, next) == Status(403) <==> next.Forbidden?
    ensures AnswerAfter(run, next) == Status(403) ==> AnswerAfter(run + [next], later) == AnswerAfter(run, later)
  {
    assert (run + [next])[..|run|] == run;
  }

  /**
   * A correctly signed call is never turned away: it reaches the counters as its own model's call.
   * The wire may repeat headers, as long as their dictionary is what was signed.
   */
  lemma {:induction false} SignedCallCounts(
      lib: Library, r: Post, path: string, text: string, query: string,
      headers: seq<(string, string)>, cred: Credential, names: seq<string>)
    requires r.target != RESET && ModelAndAction(r.target).Some? && Targets(r.target, path, text, query)
    requires Complete(lib.crypto, names, LowerMap(headers), r.body) && AUTHORIZATION !in names
    requires cred.accessKey == FAKE_ACCESS_KEY_ID && Renderable(cred, names, "")
    requires HeaderDict(r.headers) == SignHeaders(lib.crypto, POST, text, query, headers, r.body, cred, names)
    ensures Classify(lib, r)
      == Admitted(ModelAndAction(r.target).value.0, ModelAndAction(r.target).value.1, Readable(lib, r.body))
  {
    SignedRequestVerifies(lib.crypto, POST, r.target, path, text, query, headers, r.body, cred, names);
  }

  // ---------------------------------------------------------------------------
  // Requests and answers, spelled out
  // ---------------------------------------------------------------------------

  predicate DistinctEntries(dict: seq<(string, string)>) {
    forall i, j :: 0 <= i < j < |dict| ==> dict[i].0 != dict[j].0
  }

  /** The header of exactly this name that no later one replaces. */
  predicate LastOf(headers: seq<(string, string)>, i: nat, name: string) {
    i < |headers| && headers[i].0 == name && forall j :: i < j < |headers| ==> headers[j].0 != name
  }

  lemma {:induction false} UpsertIs(dict: seq<(string, string)>, name: string, value: string)
    requires DistinctEntries(dict)
    ensures forall i :: 0 <= i < |dict| && dict[i].0 == name ==> Upsert(dict, name, value) == dict[i := (name, value)]
  {
    if dict != [] && dict[0].0 != name {
      UpsertIs(dict[1..], name, value);
      forall i | 0 <= i < |dict| && dict[i].0 == name
        ensures Upsert(dict, name, value) == dict[i := (name, value)]
      {
        assert dict[1..][i - 1] == dict[i];
        assert dict[i := (name, value)] == [dict[0]] + dict[1..][i - 1 := (name, value)];
      }
    }
  }

  lemma UpsertHolds(dict: seq<(string, string)>, name: string, value: string, entry: (string, string))
    requires DistinctEntries(dict)
    ensures DistinctEntries(Upsert(dict, name, value))
    ensures entry in Upsert(dict, name, value) <==>
      if entry.0 == name then entry.1 == value else entry in dict
  {
    if i :| 0 <= i < |dict| && dict[i].0 == name {
      UpsertIs(dict, name, value);
      var upserted := dict[i := (name, value)];
      assert upserted[i] == (name, value) && forall j :: 0 <= j < |dict| && j != i ==> upserted[j] == dict[j];
    } else {
      UpsertNew(dict, name, value);
    }
  }

  /** The dictionary of the headers has one entry for each exact name, with its last value. */
  lemma {:induction false} HeaderDictHolds(headers: seq<(string, string)>, entry: (string, string))
    ensures DistinctEntries(HeaderDict(headers))
    ensures entry in HeaderDict(headers) <==> exists i: nat :: LastOf(headers, i, entry.0) && headers[i].1 == entry.1
  {
    if headers != [] {
      var init, last := headers[..|headers| - 1], headers[|headers| - 1];
      assert headers == init + [last];
      HeaderDictHolds(init, entry);
      UpsertHolds(HeaderDict(init), last.0, last.1, entry);
      forall i: nat
        ensures LastOf(headers, i, entry.0) <==> if last.0 == entry.0 then i == |init| else LastOf(init, i, entry.0)
      {
        assert forall j :: 0 <= j < |init| ==> headers[j] == init[j];
      }
      if last.0 == entry.0 {
        assert LastOf(headers, |init|, entry.0);
      } else if i: nat :| LastOf(init, i, entry.0) && init[i].1 == entry.1 {
        assert LastOf(headers, i, entry.0);
      }
    }
  }

  /** Model and action of a target, split at the last '/' in front of any query. */
  lemma {:induction false} RouteIs(model: string, action: string, query: string)
    requires '?' !in model && '?' !in action && '/' !in action
    ensures ModelAndAction("/model/" + (model + ['/'] + action)) == Some((model, action))
    ensures ModelAndAction("/model/" + (model + ['/'] + action) + ['?'] + query) == Some((model, action))
  {
    var rest := model + ['/'] + action;
    RPartitionIff(rest, '/', model, action);
    assert '?' !in "/model/";
    RoutePath("/model/" + rest, rest);
    BeforeIs("/model/" + rest, '?', query);
    BeforeAbsent("/model/" + rest, '?');
  }

  lemma RoutePath(path: string, rest: string)
    requires path == "/model/" + rest
    ensures StartsWith(path, MODEL_PREFIX) && path[|MODEL_PREFIX|..] == rest
  {
  }

  /** Any other target but the reset path is not found. */
  lemma {:induction false} NotRoutedIff(lib: Library, r: Post)
    ensures Classify(lib, r).NotRouted? <==>
      && r.target != "/__reset"
      && !(StartsWith(Before(r.target, '?'), "/model/") && '/' in Before(r.target, '?')[|"/model/"|..])
    ensures Classify(lib, r).Cleared? <==> r.target == "/__reset"
  {
    if StartsWith(Before(r.target, '?'), MODEL_PREFIX) {
      HasSeparator(Before(r.target, '?')[|MODEL_PREFIX|..], '/');
    }
  }

  /** A routed request is admitted, forbidden or crashes with the verdict on it as a POST. */
  lemma {:induction false} GateIs(lib: Library, r: Post, model: string, action: string)
    requires r.target != "/__reset" && ModelAndAction(r.target) == Some((model, action))
    ensures var verdict := VerdictOf(lib.crypto, "POST", r.target, HeaderDict(r.headers), r.body);
      && (Classify(lib, r) == Admitted(model, action, Readable(lib, r.body)) <==> verdict == Accepted)
      && (Classify(lib, r) == Forbidden <==> verdict == Rejected)
      && (Classify(lib, r) == Crashed <==> verdict == Raised)
  {
  }

  lemma {:induction false} HasSeparator(s: string, c: char)
    ensures RPartition(s, c).Some? <==> c in s
  {
    if s != "" && s[|s| - 1] != c {
      HasSeparator(s[..|s| - 1], c);
      assert s == s[..|s| - 1] + [s[|s| - 1]];
    }
  }

  /** The answers, by what the router and the gate made of the request. */
  lemma {:induction false} AnswersAre(run: seq<Admission>, next: Admission)
    ensures AnswerAfter(run, next) ==
      match next
      case Cleared => Status(200)
      case NotRouted => Status(404)
      case Forbidden => Status(403)
      case Crashed => Failed
      case Admitted(model, action, readable) =>
        if EndsWith(model, "retry-once") && CallsSinceReset(run, model) == 0 then Status(503)
        else if EndsWith(model, "fb-fail") then Status(400)
        else if action == "invoke" && !readable then Failed
        else if action in ["converse", "converse-stream", "invoke"] then Status(200)
        else Status(404)
  {
    if next.Admitted? {
      CountersCount(run, next.model);
    }
  }

  /** A readable body: an object, or no JSON at all. */
  lemma ReadableIff(lib: Library, body: seq<byte>)
    ensures Readable(lib, body) <==> match lib.loadsObject(body) case None => true case Some(isObject) => isObject
  {
  }
}
