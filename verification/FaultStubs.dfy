/**
 * The fault table of the v6 and v8 upstream stubs: a behaviour and a call counter per model.
 * The two stubs keep the same table and differ in which behaviours they know.
 */
module FaultStubs {
  import opened Prelude

  const OK: string := "ok"
  const FAIL: string := "fail_5xx"
  const CUT: string := "stream_cut"

  /** The value under "fail_n": comparing a count with anything but a number raises TypeError. */
  datatype Limit = Number(n: int) | Incomparable

  /** A JSON behaviour, as far as the stubs look into it. */
  datatype Behavior =
    | Name(text: string)
    | Dict(failN: Option<Limit>, is429: bool, retryAfter: Option<string>)
    | Other

  /** A behaviour {"fail_n": N}, whatever other keys it has. */
  predicate Limits(b: Behavior, n: int) {
    b.Dict? && b.failN == Some(Number(n))
  }

  datatype Version = V6 | V8

  datatype Request =
    | SetFault(model: string, behavior: Behavior)
    | Complete(model: string, stream: bool)
    | ReadCounters
    | Malformed

  datatype Answer =
    | Json(status: nat)
    | Sse(complete: bool)
    | RateLimited(retryAfter: string)
    | Counters(counts: map<string, nat>)
    | Raised

  datatype State = State(table: map<string, Behavior>, counts: map<string, nat>)

  const Fresh: State := State(map[], map[])

  function BehaviorOf(table: map<string, Behavior>, model: string): Behavior {
    if model in table then table[model] else Name(OK)
  }

  function CountOf(counts: map<string, nat>, model: string): nat {
    if model in counts then counts[model] else 0
  }

  /** The behaviour in force for one call; None when the comparison raises. */
  function Effective(b: Behavior, count: nat): Option<Behavior> {
    if b.Dict? && b.failN.Some? then
      match b.failN.value
      case Number(n) => Some(Name(if count <= n then FAIL else OK))
      case Incomparable => None
    else Some(b)
  }

  /** How each stub answers a behaviour; what it does not know is a 500. */
  function Dispatch(v: Version, b: Behavior, stream: bool): Answer {
    if b == Name(OK) then (if v == V6 && stream then Sse(true) else Json(200))
    else if b == Name(FAIL) then Json(500)
    else if v == V6 && b == Name(CUT) then Sse(false)
    else if v == V6 && b.Dict? && b.is429 then RateLimited(b.retryAfter.GetOr("1"))
    else Json(500)
  }

  function AnswerTo(v: Version, b: Behavior, count: nat, stream: bool): Answer {
    match Effective(b, count)
    case None => Raised
    case Some(effective) => Dispatch(v, effective, stream)
  }

  function Step(v: Version, s: State, r: Request): (State, Answer) {
    match r
    case SetFault(m, b) => (State(s.table[m := b], s.counts[m := 0]), Json(200))
    case Complete(m, stream) =>
      var count := CountOf(s.counts, m) + 1;
      (s.(counts := s.counts[m := count]), AnswerTo(v, BehaviorOf(s.table, m), count, stream))
    case ReadCounters => (s, if v == V8 then Counters(s.counts) else Json(501))
    case Malformed => (s, Json(400))
  }

  // ---------------------------------------------------------------------------
  // The stubs
  // ---------------------------------------------------------------------------

  class FaultTable {
    var table: map<string, Behavior>
    var counts: map<string, nat>

    function Snapshot(): State
      reads this
    {
      State(table, counts)
    }

    constructor ()
      ensures Snapshot() == Fresh
    {
      table, counts := map[], map[];
    }

    /** set_fault. */
    method SetBehavior(model: string, behavior: Behavior)
      modifies this
      ensures table == old(table)[model := behavior] && counts == old(counts)[model := 0]
    {
      table := table[model := behavior];
      counts := counts[model := 0];
    }

    /** increment_and_get_count. */
    method IncrementAndGetCount(model: string) returns (count: nat)
      modifies this`counts
      ensures counts == old(counts)[model := CountOf(old(counts), model) + 1]
      ensures count == counts[model]
    {
      counts := counts[model := CountOf(counts, model) + 1];
      count := counts[model];
    }

    /** _handle_completions of either stub. */
    method HandleCompletion(v: Version, model: string, stream: bool) returns (answer: Answer)
      modifies this`counts
      ensures (Snapshot(), answer) == Step(v, old(Snapshot()), Complete(model, stream))
    {
      var behavior := BehaviorOf(table, model);
      var count := IncrementAndGetCount(model);
      var effective := behavior;
      if behavior.Dict? && behavior.failN.Some? {
        if behavior.failN.value.Incomparable? {
          return Raised;
        }
        effective := Name(if count <= behavior.failN.value.n then FAIL else OK);
      }
      if effective == Name(OK) {
        return if v == V6 && stream then Sse(true) else Json(200);
      }
      if effective == Name(FAIL) {
        return Json(500);
      }
      if v == V6 && effective == Name(CUT) {
        return Sse(false);
      }
      if v == V6 && effective.Dict? && effective.is429 {
        return RateLimited(effective.retryAfter.GetOr("1"));
      }
      return Json(500);
    }

    /** One request of either stub. */
    method Handle(v: Version, r: Request) returns (answer: Answer)
      modifies this
      ensures (Snapshot(), answer) == Step(v, old(Snapshot()), r)
    {
      match r
      case SetFault(model, behavior) =>
        SetBehavior(model, behavior);
        return Json(200);
      case Complete(model, stream) =>
        answer := HandleCompletion(v, model, stream);
      case ReadCounters =>
        return if v == V8 then Counters(counts) else Json(501);
      case Malformed =>
        return Json(400);
    }
  }

  // ---------------------------------------------------------------------------
  // Runs
  // ---------------------------------------------------------------------------

  function After(v: Version, run: seq<Request>): State {
    if run == [] then Fresh else Step(v, After(v, run[..|run| - 1]), run[|run| - 1]).0
  }

  /** The answer to `next` after a run. */
  function AnswerAfter(v: Version, run: seq<Request>, next: Request): Answer {
    Step(v, After(v, run), next).1
  }

  /** The latest behaviour set for a model, read off the run. */
  function LatestFault(run: seq<Request>, model: string): Behavior {
    if run == [] then Name(OK)
    else
      var last := run[|run| - 1];
      if last.SetFault? && last.model == model then last.behavior else LatestFault(run[..|run| - 1], model)
  }

  predicate Completes(r: Request, model: string) {
    r.Complete? && r.model == model
  }

  predicate Sets(r: Request, model: string) {
    r.SetFault? && r.model == model
  }

  /** Completions of a model since its latest fault update, read off the run. */
  function CallsSince(run: seq<Request>, model: string): nat {
    if run == [] || Sets(run[|run| - 1], model) then 0
    else CallsSince(run[..|run| - 1], model) + (if Completes(run[|run| - 1], model) then 1 else 0)
  }

  /** Both stubs' tables say what the run says of each model. */
  lemma {:induction false} StateIsTrace(v: Version, run: seq<Request>, model: string)
    ensures BehaviorOf(After(v, run).table, model) == LatestFault(run, model)
    ensures CountOf(After(v, run).counts, model) == CallsSince(run, model)
    ensures model in After(v, run).counts <==>
      exists i :: 0 <= i < |run| && (Completes(run[i], model) || Sets(run[i], model))
  {
    if run != [] {
      StateIsTrace(v, run[..|run| - 1], model);
      assert forall i :: 0 <= i < |run| - 1 ==> run[i] == run[..|run| - 1][i];
    }
  }

  /** One trace function serves both stubs: the latest behaviour, and the call's number since. */
  lemma AnswerIsTrace(v: Version, run: seq<Request>, model: string, stream: bool)
    ensures AnswerAfter(v, run, Complete(model, stream))
      == AnswerTo(v, LatestFault(run, model), CallsSince(run, model) + 1, stream)
  {
    StateIsTrace(v, run, model);
  }

  /** The counter read-out lists exactly the models mentioned, each with its completions since the update. */
  lemma ReadoutIsTrace(run: seq<Request>, model: string)
    ensures var readout := AnswerAfter(V8, run, ReadCounters).counts;
      && (model in readout ==> readout[model] == CallsSince(run, model))
      && (model in readout <==> exists i :: 0 <= i < |run| && (Completes(run[i], model) || Sets(run[i], model)))
  {
    StateIsTrace(V8, run, model);
  }

  /** The requests about one model. */
  function About(run: seq<Request>, model: string): seq<Request> {
    if run == [] then []
    else
      var last := run[|run| - 1];
      About(run[..|run| - 1], model) + (if Completes(last, model) || Sets(last, model) then [last] else [])
  }

  lemma TraceOfSnoc(run: seq<Request>, last: Request, model: string)
    ensures LatestFault(run + [last], model) == if Sets(last, model) then last.behavior else LatestFault(run, model)
    ensures CallsSince(run + [last], model)
      == if Sets(last, model) then 0 else CallsSince(run, model) + (if Completes(last, model) then 1 else 0)
  {
    assert (run + [last])[..|run + [last]| - 1] == run;
  }

  lemma AboutSnoc(run: seq<Request>, last: Request, model: string)
    ensures About(run + [last], model)
      == About(run, model) + (if Completes(last, model) || Sets(last, model) then [last] else [])
  {
    assert (run + [last])[..|run|] == run;
  }

  lemma {:induction false} AboutTrace(run: seq<Request>, model: string)
    ensures LatestFault(About(run, model), model) == LatestFault(run, model)
    ensures CallsSince(About(run, model), model) == CallsSince(run, model)
  {
    if run != [] {
      var init, last := run[..|run| - 1], run[|run| - 1];
      assert run == init + [last];
      AboutTrace(init, model);
      AboutTraceSnoc(init, last, model);
    }
  }

  lemma AboutTraceSnoc(init: seq<Request>, last: Request, model: string)
    requires LatestFault(About(init, model), model) == LatestFault(init, model)
    requires CallsSince(About(init, model), model) == CallsSince(init, model)
    ensures LatestFault(About(init + [last], model), model) == LatestFault(init + [last], model)
    ensures CallsSince(About(init + [last], model), model) == CallsSince(init + [last], model)
  {
    AboutSnoc(init, last, model);
    TraceOfSnoc(init, last, model);
    TraceOfSnoc(About(init, model), last, model);
    assert About(init, model) + [] == About(init, model);
  }

  lemma SameTrace(v: Version, a: seq<Request>, b: seq<Request>, model: string, stream: bool)
    requires LatestFault(a, model) == LatestFault(b, model) && CallsSince(a, model) == CallsSince(b, model)
    ensures AnswerAfter(v, a, Complete(model, stream)) == AnswerAfter(v, b, Complete(model, stream))
  {
    AnswerIsTrace(v, a, model, stream);
    AnswerIsTrace(v, b, model, stream);
  }

  /** A model's answers depend only on the requests about it: other models cannot disturb it. */
  lemma ModelsAreIndependent(v: Version, run: seq<Request>, model: string, stream: bool)
    ensures AnswerAfter(v, About(run, model), Complete(model, stream)) == AnswerAfter(v, run, Complete(model, stream))
  {
    AboutTrace(run, model);
    SameTrace(v, About(run, model), run, model, stream);
  }

  /** How the completions of a model are answered within one stretch of a run, after `before`. */
  function Failures(v: Version, before: seq<Request>, stretch: seq<Request>, model: string): nat {
    if stretch == [] then 0
    else
      var init, last := stretch[..|stretch| - 1], stretch[|stretch| - 1];
      Failures(v, before, init, model)
      + (if Completes(last, model) && AnswerAfter(v, before + init, last) == Json(500) then 1 else 0)
  }

  function Completions(stretch: seq<Request>, model: string): nat {
    if stretch == [] then 0
    else Completions(stretch[..|stretch| - 1], model) + (if Completes(stretch[|stretch| - 1], model) then 1 else 0)
  }

  predicate NoUpdate(stretch: seq<Request>, model: string) {
    forall i :: 0 <= i < |stretch| ==> !Sets(stretch[i], model)
  }

  lemma {:induction false} StretchTrace(before: seq<Request>, b: Behavior, stretch: seq<Request>, model: string)
    requires NoUpdate(stretch, model)
    ensures var run := before + [SetFault(model, b)] + stretch;
      LatestFault(run, model) == b && CallsSince(run, model) == Completions(stretch, model)
  {
    var update := before + [SetFault(model, b)];
    if stretch == [] {
      TraceOfSnoc(before, SetFault(model, b), model);
      assert update + stretch == update;
    } else {
      var init, last := stretch[..|stretch| - 1], stretch[|stretch| - 1];
      StretchTrace(before, b, init, model);
      assert update + stretch == (update + init) + [last];
      TraceOfSnoc(update + init, last, model);
    }
  }

  /** The i-th completion after an update to {"fail_n": N} answers 500 iff i <= N, whatever runs beside it. */
  lemma FailNSchedule(
      v: Version, before: seq<Request>, b: Behavior, n: int, stretch: seq<Request>, model: string, stream: bool)
    requires Limits(b, n) && NoUpdate(stretch, model)
    ensures AnswerAfter(v, before + [SetFault(model, b)] + stretch, Complete(model, stream)) == Json(500)
      <==> Completions(stretch, model) + 1 <= n
  {
    StretchTrace(before, b, stretch, model);
    AnswerIsTrace(v, before + [SetFault(model, b)] + stretch, model, stream);
  }

  /** Hence a stretch with c completions holds exactly min(c, max(N, 0)) failures of the model. */
  lemma {:induction false} FailureTotal(
      v: Version, before: seq<Request>, b: Behavior, n: int, stretch: seq<Request>, model: string)
    requires Limits(b, n) && NoUpdate(stretch, model)
    ensures Failures(v, before + [SetFault(model, b)], stretch, model) == Min(Completions(stretch, model), Max(n, 0))
  {
    if stretch != [] {
      var init, last := stretch[..|stretch| - 1], stretch[|stretch| - 1];
      FailureTotal(v, before, b, n, init, model);
      if last.Complete? {
        FailNSchedule(v, before, b, n, init, model, last.stream);
      }
    }
  }

  /** v6 answers 429, with the configured delay or "1", iff the latest behaviour asks for it and has no fail_n. */
  lemma {:induction false} RateLimitedIff(run: seq<Request>, model: string, stream: bool, delay: string)
    ensures AnswerAfter(V6, run, Complete(model, stream)) == RateLimited(delay) <==>
      var b := LatestFault(run, model);
      b.Dict? && b.failN.None? && b.is429 && delay == b.retryAfter.GetOr("1")
  {
    AnswerIsTrace(V6, run, model, stream);
  }

  predicate OnlyV6(b: Behavior) {
    b == Name(CUT) || (b.Dict? && b.is429 && b.failN.None?)
  }

  /** The stubs answer a completion alike iff the model's behaviour is none of those only v6 knows
      and no successful stream was asked for. */
  lemma StubsAgreeIff(run: seq<Request>, model: string, stream: bool)
    ensures AnswerAfter(V6, run, Complete(model, stream)) == AnswerAfter(V8, run, Complete(model, stream)) <==>
      && !OnlyV6(LatestFault(run, model))
      && !(stream && Effective(LatestFault(run, model), CallsSince(run, model) + 1) == Some(Name(OK)))
  {
    AnswerIsTrace(V6, run, model, stream);
    AnswerIsTrace(V8, run, model, stream);
    AnswersAgreeIff(LatestFault(run, model), CallsSince(run, model) + 1, stream);
  }

  lemma AnswersAgreeIff(b: Behavior, count: nat, stream: bool)
    ensures AnswerTo(V6, b, count, stream) == AnswerTo(V8, b, count, stream) <==>
      !OnlyV6(b) && !(stream && Effective(b, count) == Some(Name(OK)))
  {
  }

  // ---------------------------------------------------------------------------
  // Every answer, by the behaviour in force
  // ---------------------------------------------------------------------------

  /** The model is to answer normally: "ok", or a fail_n that its calls have used up. */
  predicate Succeeds(b: Behavior, count: nat) {
    b == Name("ok") || (b.Dict? && b.failN.Some? && b.failN.value.Number? && b.failN.value.n < count)
  }

  /** A completion streams to its end, streams and breaks off, answers at once, or raises. */
  lemma {:induction false} CompletionAnswers(v: Version, run: seq<Request>, model: string, stream: bool)
    ensures var b, count := LatestFault(run, model), CallsSince(run, model) + 1;
      var answer := AnswerAfter(v, run, Complete(model, stream));
      && (answer == Json(200) <==> Succeeds(b, count) && !(v == V6 && stream))
      && (answer == Sse(true) <==> Succeeds(b, count) && v == V6 && stream)
      && (answer == Sse(false) <==> b == Name("stream_cut") && v == V6)
      && (answer == Raised <==> b.Dict? && b.failN == Some(Incomparable))
      && (answer in {Json(200), Sse(true), Sse(false), Raised, Json(500)} || answer.RateLimited?)
    ensures LatestFault(run, model) == Name("fail_5xx") ==> AnswerAfter(v, run, Complete(model, stream)) == Json(500)
  {
    AnswerIsTrace(v, run, model, stream);
    AnswerInFull(v, LatestFault(run, model), CallsSince(run, model) + 1, stream);
  }

  lemma AnswerInFull(v: Version, b: Behavior, count: nat, stream: bool)
    ensures var answer := AnswerTo(v, b, count, stream);
      && (answer == Json(200) <==> Succeeds(b, count) && !(v == V6 && stream))
      && (answer == Sse(true) <==> Succeeds(b, count) && v == V6 && stream)
      && (answer == Sse(false) <==> b == Name("stream_cut") && v == V6)
      && (answer == Raised <==> b.Dict? && b.failN == Some(Incomparable))
      && (answer in {Json(200), Sse(true), Sse(false), Raised, Json(500)} || answer.RateLimited?)
    ensures b == Name("fail_5xx") ==> AnswerTo(v, b, count, stream) == Json(500)
  {
    assert |"fail_5xx"| == 8 && |"ok"| == 2 && |"stream_cut"| == 10;
  }

  /** The other requests: an update is confirmed, a malformed body refused, only v8 has a read-out. */
  lemma {:induction false} OtherAnswers(v: Version, run: seq<Request>, model: string, behavior: Behavior)
    ensures AnswerAfter(v, run, SetFault(model, behavior)) == Json(200)
    ensures AnswerAfter(v, run, Malformed) == Json(400)
    ensures After(v, run + [Malformed]) == After(v, run) && After(v, run + [ReadCounters]) == After(v, run)
    ensures AnswerAfter(V8, run, ReadCounters).Counters? && AnswerAfter(V6, run, ReadCounters) == Json(501)
  {
    assert (run + [Malformed])[..|run|] == run && (run + [ReadCounters])[..|run|] == run;
  }
}
