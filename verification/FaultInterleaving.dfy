/**
 * The fault table under concurrent requests. Table and counters have a lock each, so a fault
 * update is two atomic steps (write the behaviour, zero the counter) and so is a completion
 * (read the behaviour, bump the counter); steps of different threads interleave in any order.
 */
module FaultInterleaving {
  import opened Prelude
  import opened FaultStubs

  /** An update as written; its place in the list of all writes names it. */
  datatype Write = Write(model: string, behavior: Behavior)

  /**
   * What a thread has done of its request. The id is that of the update written or read; it is
   * kept to say which update a call had read, and no answer depends on it.
   */
  datatype Pending = Written(model: string, id: nat) | Read(model: string, behavior: Behavior, seen: Option<nat>)

  datatype LockStep =
    | WriteBehavior(thread: nat, model: string, behavior: Behavior)
    | ZeroCounter(thread: nat)
    | ReadBehavior(thread: nat, model: string)
    | BumpCounter(thread: nat)

  /** What an observer of the counters lock sees. */
  datatype Event =
    | Zeroed(model: string, id: nat)
    | Counted(model: string, behavior: Behavior, seen: Option<nat>, n: nat)

  datatype World = World(state: State, written: seq<Write>, threads: map<nat, Pending>, log: seq<Event>)

  const Start: World := World(FaultStubs.Fresh, [], map[], [])

  /** The latest update written for a model. */
  function LastWrite(written: seq<Write>, model: string): (id: Option<nat>)
    ensures id.Some? ==> id.value < |written| && written[id.value].model == model
  {
    if written == [] then None
    else if written[|written| - 1].model == model then Some(|written| - 1)
    else LastWrite(written[..|written| - 1], model)
  }

  /** A thread takes its first step when idle and its second after the matching first one. */
  predicate Enabled(w: World, step: LockStep) {
    match step
    case WriteBehavior(t, _, _) => t !in w.threads
    case ZeroCounter(t) => t in w.threads && w.threads[t].Written?
    case ReadBehavior(t, _) => t !in w.threads
    case BumpCounter(t) => t in w.threads && w.threads[t].Read?
  }

  function Do(w: World, step: LockStep): World
    requires Enabled(w, step)
  {
    match step
    case WriteBehavior(t, m, b) =>
      w.(state := w.state.(table := w.state.table[m := b]), written := w.written + [Write(m, b)],
         threads := w.threads[t := Written(m, |w.written|)])
    case ZeroCounter(t) =>
      var Written(m, id) := w.threads[t];
      w.(state := w.state.(counts := w.state.counts[m := 0]), threads := w.threads - {t},
         log := w.log + [Zeroed(m, id)])
    case ReadBehavior(t, m) =>
      w.(threads := w.threads[t := Read(m, BehaviorOf(w.state.table, m), LastWrite(w.written, m))])
    case BumpCounter(t) =>
      var Read(m, b, seen) := w.threads[t];
      var n := CountOf(w.state.counts, m) + 1;
      w.(state := w.state.(counts := w.state.counts[m := n]), threads := w.threads - {t},
         log := w.log + [Counted(m, b, seen, n)])
  }

  /** A schedule: every step enabled where it is taken. */
  predicate Schedule(w: World, steps: seq<LockStep>)
    decreases |steps|
  {
    steps == [] || (Enabled(w, steps[0]) && Schedule(Do(w, steps[0]), steps[1..]))
  }

  function Run(w: World, steps: seq<LockStep>): World
    requires Schedule(w, steps)
    decreases |steps|
  {
    if steps == [] then w else Run(Do(w, steps[0]), steps[1..])
  }

  // ---------------------------------------------------------------------------
  // Counts between resets
  // ---------------------------------------------------------------------------

  predicate Resets(e: Event, model: string) {
    e.Zeroed? && e.model == model
  }

  predicate CountedFor(e: Event, model: string) {
    e.Counted? && e.model == model
  }

  /** The counts handed out for a model, in order. */
  function HandedOut(log: seq<Event>, model: string): seq<nat> {
    if log == [] then []
    else
      var last := log[|log| - 1];
      HandedOut(log[..|log| - 1], model) + (if CountedFor(last, model) then [last.n] else [])
  }

  /** Completions logged for a model since its counter was last zeroed. */
  function SinceZero(log: seq<Event>, model: string): nat {
    if log == [] || Resets(log[|log| - 1], model) then 0
    else SinceZero(log[..|log| - 1], model) + (if CountedFor(log[|log| - 1], model) then 1 else 0)
  }

  /** The invariant: each count continues its model's series, and the counters are where it stands. */
  ghost predicate Counting(w: World) {
    && (forall m :: CountOf(w.state.counts, m) == SinceZero(w.log, m))
    && WellCounted(w.log)
  }

  predicate WellCounted(log: seq<Event>) {
    forall i :: 0 <= i < |log| && log[i].Counted? ==> log[i].n == SinceZero(log[..i], log[i].model) + 1
  }

  lemma DoCounts(w: World, step: LockStep)
    requires Enabled(w, step) && Counting(w)
    ensures Counting(Do(w, step))
  {
    match step
    case WriteBehavior(t, m, b) =>
    case ReadBehavior(t, m) =>
    case ZeroCounter(t) =>
      LogCounts(w, w.threads[t].model, Zeroed(w.threads[t].model, w.threads[t].id), 0);
    case BumpCounter(t) =>
      var Read(m, b, seen) := w.threads[t];
      LogCounts(w, m, Counted(m, b, seen, CountOf(w.state.counts, m) + 1), CountOf(w.state.counts, m) + 1);
  }

  /** Logging a reset or the next count keeps the invariant, with the counter set accordingly. */
  lemma LogCounts(w: World, model: string, e: Event, n: nat)
    requires Counting(w) && e.model == model
    requires n == if e.Zeroed? then 0 else CountOf(w.state.counts, model) + 1
    requires e.Counted? ==> e.n == n
    ensures WellCounted(w.log + [e])
    ensures forall m :: CountOf(w.state.counts[model := n], m) == SinceZero(w.log + [e], m)
  {
    WellCountedMore(w.log, e);
    forall m
      ensures CountOf(w.state.counts[model := n], m) == SinceZero(w.log + [e], m)
    {
      OneMore(w.log, e, m);
    }
  }

  lemma WellCountedMore(log: seq<Event>, e: Event)
    requires WellCounted(log) && (e.Counted? ==> e.n == SinceZero(log, e.model) + 1)
    ensures WellCounted(log + [e])
  {
    forall i | 0 <= i <= |log| && (log + [e])[i].Counted?
      ensures (log + [e])[i].n == SinceZero((log + [e])[..i], (log + [e])[i].model) + 1
    {
      assert (log + [e])[..i] == log[..i];
      assert log[..|log|] == log;
    }
  }

  lemma {:induction false} RunCounts(w: World, steps: seq<LockStep>)
    requires Schedule(w, steps) && Counting(w)
    ensures Counting(Run(w, steps))
    decreases |steps|
  {
    if steps != [] {
      DoCounts(w, steps[0]);
      RunCounts(Do(w, steps[0]), steps[1..]);
    }
  }

  /** log[i..j] lies between two consecutive resets of the model (or before the first). */
  predicate Interval(log: seq<Event>, i: nat, j: nat, model: string) {
    && i <= j <= |log|
    && (i == 0 || Resets(log[i - 1], model))
    && (forall k :: i <= k < j ==> !Resets(log[k], model))
  }

  function OneTo(k: nat): seq<nat> {
    seq(k, i => i + 1)
  }

  lemma OneMore(log: seq<Event>, e: Event, model: string)
    ensures HandedOut(log + [e], model) == HandedOut(log, model) + (if CountedFor(e, model) then [e.n] else [])
    ensures SinceZero(log + [e], model)
      == if Resets(e, model) then 0 else SinceZero(log, model) + (if CountedFor(e, model) then 1 else 0)
  {
    assert (log + [e])[..|log|] == log;
  }

  /** The counts handed out in this part of a log are 1 to the number since the last reset. */
  ghost predicate Series(sinceZero: nat, handed: seq<nat>) {
    sinceZero == |handed| && handed == OneTo(|handed|)
  }

  lemma SeriesMore(sinceZero: nat, handed: seq<nat>)
    requires Series(sinceZero, handed)
    ensures Series(sinceZero + 1, handed + [sinceZero + 1])
  {
  }

  lemma SeriesStep(log: seq<Event>, part: seq<Event>, e: Event, model: string)
    requires Series(SinceZero(log, model), HandedOut(part, model)) && !Resets(e, model)
    requires e.Counted? ==> e.n == SinceZero(log, e.model) + 1
    ensures Series(SinceZero(log + [e], model), HandedOut(part + [e], model))
  {
    OneMore(part, e, model);
    OneMore(log, e, model);
    SeriesMore(SinceZero(log, model), HandedOut(part, model));
  }

  /** Between `before`, which ends in a reset, and the next reset, the counts are a series. */
  lemma {:induction false} PartSeries(before: seq<Event>, part: seq<Event>, model: string)
    requires SinceZero(before, model) == 0 && (forall e :: e in part ==> !Resets(e, model))
    requires WellCounted(before + part)
    ensures Series(SinceZero(before + part, model), HandedOut(part, model))
  {
    if part == [] {
      assert before + part == before;
    } else {
      var init, e := part[..|part| - 1], part[|part| - 1];
      assert part == init + [e];
      assert before + part == (before + init) + [e];
      WellCountedPrefix(before + init, e);
      PartSeries(before, init, model);
      SeriesStep(before + init, init, e, model);
    }
  }

  lemma WellCountedPrefix(log: seq<Event>, e: Event)
    requires WellCounted(log + [e])
    ensures WellCounted(log)
    ensures e.Counted? ==> e.n == SinceZero(log, e.model) + 1
  {
    assert (log + [e])[..|log|] == log;
    forall i | 0 <= i < |log| && log[i].Counted?
      ensures log[i].n == SinceZero(log[..i], log[i].model) + 1
    {
      assert (log + [e])[..i] == log[..i];
    }
  }

  lemma WellCountedTake(log: seq<Event>, j: nat)
    requires WellCounted(log) && j <= |log|
    ensures WellCounted(log[..j])
  {
    forall i | 0 <= i < j && log[..j][i].Counted?
      ensures log[..j][i].n == SinceZero(log[..j][..i], log[..j][i].model) + 1
    {
      assert log[..j][..i] == log[..i];
    }
  }

  lemma IntervalSeries(log: seq<Event>, i: nat, j: nat, model: string)
    requires WellCounted(log) && Interval(log, i, j, model)
    ensures Series(SinceZero(log[..j], model), HandedOut(log[i..j], model))
  {
    assert i > 0 ==> log[..i][i - 1] == log[i - 1];
    assert log[..i] + log[i..j] == log[..j];
    WellCountedTake(log, j);
    PartSeries(log[..i], log[i..j], model);
  }

  /** In every interleaving, the counts between two consecutive resets are 1, 2, 3, ... */
  lemma CountsWithoutGaps(steps: seq<LockStep>, i: nat, j: nat, model: string)
    requires Schedule(Start, steps) && Interval(Run(Start, steps).log, i, j, model)
    ensures var handed := HandedOut(Run(Start, steps).log[i..j], model); handed == OneTo(|handed|)
  {
    RunCounts(Start, steps);
    IntervalSeries(Run(Start, steps).log, i, j, model);
  }

  // ---------------------------------------------------------------------------
  // Failures
  // ---------------------------------------------------------------------------

  /** A completion of interest that is answered 500. */
  predicate Failed(e: Event, model: string, having: Event -> bool) {
    CountedFor(e, model) && having(e) && AnswerTo(V6, e.behavior, e.n, false) == Json(500)
  }

  function FailedCalls(log: seq<Event>, model: string, having: Event -> bool): nat {
    if log == [] then 0
    else FailedCalls(log[..|log| - 1], model, having) + (if Failed(log[|log| - 1], model, having) then 1 else 0)
  }

  /** The completions that read a behaviour {"fail_n": N}. */
  function Limited(n: int): Event -> bool {
    (e: Event) => e.Counted? && Limits(e.behavior, n)
  }

  /** Every completion of the model with a count up to N is one of those. */
  predicate FirstRead(log: seq<Event>, model: string, n: int, having: Event -> bool) {
    forall k :: 0 <= k < |log| && CountedFor(log[k], model) && log[k].n <= n ==> having(log[k])
  }

  lemma FirstReadMore(log: seq<Event>, e: Event, model: string, n: int, having: Event -> bool)
    ensures FirstRead(log + [e], model, n, having) <==>
      FirstRead(log, model, n, having) && (CountedFor(e, model) && e.n <= n ==> having(e))
  {
    assert (log + [e])[|log|] == e;
    assert forall k :: 0 <= k < |log| ==> (log + [e])[k] == log[k];
  }

  /** Where the counts are a series, as many fail as are to fail iff the first N all read the limit. */
  lemma {:induction false} SeriesFailures(log: seq<Event>, model: string, n: int, having: Event -> bool)
    requires HandedOut(log, model) == OneTo(|HandedOut(log, model)|)
    requires forall e :: e in log && e.Counted? && having(e) ==> Limits(e.behavior, n)
    ensures FailedCalls(log, model, having) <= Min(|HandedOut(log, model)|, Max(n, 0))
    ensures FailedCalls(log, model, having) == Min(|HandedOut(log, model)|, Max(n, 0)) <==>
      FirstRead(log, model, n, having)
  {
    if log != [] {
      var init, last := log[..|log| - 1], log[|log| - 1];
      assert log == init + [last];
      OneMore(init, last, model);
      if CountedFor(last, model) {
        LastOfSeries(HandedOut(init, model), last.n);
      }
      SeriesFailures(init, model, n, having);
      FirstReadMore(init, last, model, n, having);
      OneMoreFailure(init, last, model, having);
    }
  }

  lemma LastOfSeries(handed: seq<nat>, n: nat)
    requires handed + [n] == OneTo(|handed| + 1)
    ensures handed == OneTo(|handed|) && n == |handed| + 1
  {
    assert (handed + [n])[..|handed|] == OneTo(|handed|);
    assert (handed + [n])[|handed|] == n;
  }

  lemma OneMoreFailure(log: seq<Event>, e: Event, model: string, having: Event -> bool)
    ensures FailedCalls(log + [e], model, having)
      == FailedCalls(log, model, having) + (if Failed(e, model, having) then 1 else 0)
  {
    assert (log + [e])[..|log|] == log;
  }

  /**
   * In every interleaving at most N completions that read {"fail_n": N} fail between two
   * consecutive resets, and min(c, max(N, 0)) of the c completions there iff each of the first N
   * read it.
   */
  lemma FailuresExactly(steps: seq<LockStep>, i: nat, j: nat, model: string, n: int)
    requires Schedule(Start, steps) && Interval(Run(Start, steps).log, i, j, model)
    ensures var part := Run(Start, steps).log[i..j];
      var promised := Min(|HandedOut(part, model)|, Max(n, 0));
      && FailedCalls(part, model, Limited(n)) <= promised
      && (FailedCalls(part, model, Limited(n)) == promised <==> FirstRead(part, model, n, Limited(n)))
  {
    CountsWithoutGaps(steps, i, j, model);
    SeriesFailures(Run(Start, steps).log[i..j], model, n, Limited(n));
  }

  // ---------------------------------------------------------------------------
  // Serial requests, and the race
  // ---------------------------------------------------------------------------

  /** A request run to completion by thread 0 before the next one starts. */
  function StepsOf(r: Request): seq<LockStep> {
    match r
    case SetFault(m, b) => [WriteBehavior(0, m, b), ZeroCounter(0)]
    case Complete(m, _) => [ReadBehavior(0, m), BumpCounter(0)]
    case ReadCounters => []
    case Malformed => []
  }

  function Serial(run: seq<Request>): seq<LockStep> {
    if run == [] then [] else Serial(run[..|run| - 1]) + StepsOf(run[|run| - 1])
  }

  lemma {:induction false} RunAppend(w: World, a: seq<LockStep>, b: seq<LockStep>)
    requires Schedule(w, a) && Schedule(Run(w, a), b)
    ensures Schedule(w, a + b) && Run(w, a + b) == Run(Run(w, a), b)
    decreases |a|
  {
    if a == [] {
      assert a + b == b;
    } else {
      RunAppend(Do(w, a[0]), a[1..], b);
      assert (a + b)[1..] == a[1..] + b;
    }
  }

  /** The log ends with the completion's own bump, whose answer is the request-level one. */
  predicate Answered(v: Version, before: World, r: Request, log: seq<Event>)
    requires r.Complete?
  {
    && |log| == |before.log| + 1 && CountedFor(log[|before.log|], r.model)
    && AnswerTo(v, log[|before.log|].behavior, log[|before.log|].n, r.stream) == Step(v, before.state, r).1
  }

  lemma RequestRuns(v: Version, w: World, r: Request)
    requires w.threads == map[]
    ensures Schedule(w, StepsOf(r))
    ensures Run(w, StepsOf(r)).threads == map[]
    ensures Run(w, StepsOf(r)).state == Step(v, w.state, r).0
    ensures r.Complete? ==> Answered(v, w, r, Run(w, StepsOf(r)).log)
  {
    var steps := StepsOf(r);
    if |steps| == 2 {
      var middle := Do(w, steps[0]);
      assert Schedule(Do(middle, steps[1]), steps[2..]);
      assert steps[1..] == [steps[1]] && steps[1..][1..] == [];
      assert Schedule(middle, steps[1..]);
      assert Run(middle, steps[1..]) == Do(middle, steps[1]);
      assert Run(w, steps) == Do(middle, steps[1]);
    }
  }

  /** Without overlap the lock-level model is the request-level one. */
  lemma {:induction false} SerialRefines(v: Version, run: seq<Request>)
    ensures Schedule(Start, Serial(run))
    ensures Run(Start, Serial(run)).threads == map[]
    ensures Run(Start, Serial(run)).state == After(v, run)
  {
    if run != [] {
      var init, last := run[..|run| - 1], run[|run| - 1];
      SerialRefines(v, init);
      RequestRuns(v, Run(Start, Serial(init)), last);
      RunAppend(Start, Serial(init), StepsOf(last));
    }
  }

  /** ... and answers every completion as it does. */
  lemma {:induction false} SerialAnswers(v: Version, run: seq<Request>, model: string, stream: bool)
    ensures Schedule(Start, Serial(run)) && Schedule(Run(Start, Serial(run)), StepsOf(Complete(model, stream)))
    ensures var w := Run(Start, Serial(run));
      var log := Run(w, StepsOf(Complete(model, stream))).log;
      && log != [] && CountedFor(log[|log| - 1], model)
      && AnswerTo(v, log[|log| - 1].behavior, log[|log| - 1].n, stream) == AnswerAfter(v, run, Complete(model, stream))
  {
    SerialRefines(v, run);
    RequestRuns(v, Run(Start, Serial(run)), Complete(model, stream));
  }
}
