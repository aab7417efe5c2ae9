/**
 * What one fault update promises when requests overlap: of the completions between its reset and
 * the next one the first N fail, and no other completion that read it does. When that holds.
 */
module FaultUpdates {
  import opened Prelude
  import opened FaultStubs
  import opened FaultInterleaving

  /** The completions that read this update. */
  function ReadersOf(id: nat): Event -> bool {
    (e: Event) => e.Counted? && e.seen == Some(id)
  }

  /** log[i..j] runs from the update's own reset to the model's next one, or to the end. */
  predicate Reign(log: seq<Event>, id: nat, model: string, i: nat, j: nat) {
    && 0 < i <= j <= |log| && log[i - 1] == Zeroed(model, id)
    && Interval(log, i, j, model)
    && (j == |log| || Resets(log[j], model))
  }

  predicate Outside(k: int, i: nat, j: nat) {
    k < i || j <= k
  }

  /** The promise of an update {"fail_n": N}, over a whole log. */
  predicate Kept(log: seq<Event>, id: nat, model: string, n: int, i: nat, j: nat)
    requires i <= j <= |log|
  {
    && (forall k :: 0 <= k < |log| && Outside(k, i, j) ==> !Failed(log[k], model, ReadersOf(id)))
    && FailedCalls(log[i..j], model, ReadersOf(id)) == Min(|HandedOut(log[i..j], model)|, Max(n, 0))
  }

  /** Its readers outside the reign come too late to fail, and inside the first N calls all read it. */
  predicate InTurn(log: seq<Event>, id: nat, model: string, n: int, i: nat, j: nat)
    requires i <= j <= |log|
  {
    && (forall k :: 0 <= k < |log| && Outside(k, i, j) && CountedFor(log[k], model) && ReadersOf(id)(log[k])
          ==> log[k].n > n)
    && FirstRead(log[i..j], model, n, ReadersOf(id))
  }

  // ---------------------------------------------------------------------------
  // A reader of an update saw its behaviour
  // ---------------------------------------------------------------------------

  /** The behaviour of the update seen, "ok" when none was. */
  function BehaviorSeen(written: seq<Write>, seen: Option<nat>): Behavior
    requires seen.Some? ==> seen.value < |written|
  {
    if seen.Some? then written[seen.value].behavior else Name(OK)
  }

  predicate Saw(written: seq<Write>, model: string, b: Behavior, seen: Option<nat>) {
    seen.Some? ==> seen.value < |written| && written[seen.value] == Write(model, b)
  }

  ghost predicate Traced(w: World) {
    && (forall m :: BehaviorOf(w.state.table, m) == BehaviorSeen(w.written, LastWrite(w.written, m)))
    && (forall t :: t in w.threads && w.threads[t].Read? ==>
          Saw(w.written, w.threads[t].model, w.threads[t].behavior, w.threads[t].seen))
    && (forall e :: e in w.log && e.Counted? ==> Saw(w.written, e.model, e.behavior, e.seen))
  }

  lemma LastWriteMore(written: seq<Write>, x: Write, m: string)
    ensures LastWrite(written + [x], m) == if x.model == m then Some(|written|) else LastWrite(written, m)
  {
    assert (written + [x])[..|written|] == written;
  }

  lemma WriteTraced(w: World, t: nat, m: string, b: Behavior)
    requires Traced(w) && t !in w.threads
    ensures Traced(Do(w, WriteBehavior(t, m, b)))
  {
    var w' := Do(w, WriteBehavior(t, m, b));
    forall x
      ensures BehaviorOf(w'.state.table, x) == BehaviorSeen(w'.written, LastWrite(w'.written, x))
    {
      LastWriteMore(w.written, Write(m, b), x);
    }
  }

  lemma DoTraced(w: World, step: LockStep)
    requires Enabled(w, step) && Traced(w)
    ensures Traced(Do(w, step))
  {
    match step
    case WriteBehavior(t, m, b) => WriteTraced(w, t, m, b);
    case ZeroCounter(t) =>
    case ReadBehavior(t, m) =>
    case BumpCounter(t) =>
  }

  lemma {:induction false} RunTraced(w: World, steps: seq<LockStep>)
    requires Schedule(w, steps) && Traced(w)
    ensures Traced(Run(w, steps))
    decreases |steps|
  {
    if steps != [] {
      DoTraced(w, steps[0]);
      RunTraced(Do(w, steps[0]), steps[1..]);
    }
  }

  lemma FailsUnderLimit(e: Event, n: int)
    requires e.Counted? && Limits(e.behavior, n)
    ensures AnswerTo(V6, e.behavior, e.n, false) == Json(500) <==> e.n <= n
  {
  }

  lemma InsideIs(log: seq<Event>, i: nat, j: nat)
    requires i <= j <= |log|
    ensures forall e :: e in log[i..j] ==> e in log
  {
  }

  /**
   * In every interleaving an update {"fail_n": N} that has been reset for keeps its promise iff
   * its readers before the reset and after the next one all count beyond N, and the first N
   * completions in between are its readers.
   */
  lemma {:induction false} KeptIff(steps: seq<LockStep>, id: nat, n: int, i: nat, j: nat)
    requires Schedule(Start, steps) && id < |Run(Start, steps).written|
    requires Limits(Run(Start, steps).written[id].behavior, n)
    requires Reign(Run(Start, steps).log, id, Run(Start, steps).written[id].model, i, j)
    ensures var w := Run(Start, steps);
      Kept(w.log, id, w.written[id].model, n, i, j) <==> InTurn(w.log, id, w.written[id].model, n, i, j)
  {
    var w := Run(Start, steps);
    var model := w.written[id].model;
    RunTraced(Start, steps);
    CountsWithoutGaps(steps, i, j, model);
    InsideIs(w.log, i, j);
    assert forall e :: e in w.log && e.Counted? && ReadersOf(id)(e) ==> Limits(e.behavior, n);
    SeriesFailures(w.log[i..j], model, n, ReadersOf(id));
    OutsideIff(w.log, id, model, n, i, j);
  }

  lemma OutsideIff(log: seq<Event>, id: nat, model: string, n: int, i: nat, j: nat)
    requires forall e :: e in log && e.Counted? && ReadersOf(id)(e) ==> Limits(e.behavior, n)
    ensures (forall k :: 0 <= k < |log| && Outside(k, i, j) ==> !Failed(log[k], model, ReadersOf(id))) <==>
      (forall k :: 0 <= k < |log| && Outside(k, i, j) && CountedFor(log[k], model) && ReadersOf(id)(log[k])
         ==> log[k].n > n)
  {
    forall k | 0 <= k < |log| && CountedFor(log[k], model) && ReadersOf(id)(log[k])
      ensures Failed(log[k], model, ReadersOf(id)) <==> log[k].n <= n
    {
      FailsUnderLimit(log[k], n);
    }
  }

  // ---------------------------------------------------------------------------
  // Updates that overlap nothing
  // ---------------------------------------------------------------------------

  /** An update of the model starts when nothing of the model is pending, a completion when no update is. */
  ghost predicate Waits(w: World, step: LockStep, model: string) {
    match step
    case WriteBehavior(_, m, _) => m == model ==> forall t :: t in w.threads ==> w.threads[t].model != model
    case ReadBehavior(_, m) => m == model ==> NoUpdatePending(w, model)
    case ZeroCounter(_) => true
    case BumpCounter(_) => true
  }

  ghost predicate NoUpdatePending(w: World, model: string) {
    forall t :: t in w.threads && w.threads[t].model == model ==> w.threads[t].Read?
  }

  /** No update of the model overlaps another request of it; completions may overlap each other. */
  ghost predicate Apart(w: World, steps: seq<LockStep>, model: string)
    requires Schedule(w, steps)
    decreases |steps|
  {
    steps == [] || (Waits(w, steps[0], model) && Apart(Do(w, steps[0]), steps[1..], model))
  }

  /** The update whose reset was the model's last. */
  function LastReset(log: seq<Event>, model: string): Option<nat> {
    if log == [] then None
    else if Resets(log[|log| - 1], model) then Some(log[|log| - 1].id)
    else LastReset(log[..|log| - 1], model)
  }

  /** Every completion read the update that was last reset for. */
  predicate ReadInForce(log: seq<Event>, model: string) {
    forall k :: 0 <= k < |log| && CountedFor(log[k], model) ==> log[k].seen == LastReset(log[..k], model)
  }

  /** Updates are reset for in the order they were written, each once. */
  predicate Rising(log: seq<Event>, model: string) {
    forall k, l :: 0 <= k < l < |log| && Resets(log[k], model) && Resets(log[l], model) ==> log[k].id < log[l].id
  }

  predicate ResetsBelow(log: seq<Event>, model: string, bound: nat) {
    forall k :: 0 <= k < |log| && Resets(log[k], model) ==> log[k].id < bound
  }

  /** With an update pending it is the latest written, alone, and not yet reset for. */
  ghost predicate UpdateAlone(w: World, model: string, t: nat) {
    && t in w.threads && w.threads[t].model == model && w.threads[t].Written?
    && LastWrite(w.written, model) == Some(w.threads[t].id)
    && (forall u :: u in w.threads && w.threads[u].model == model ==> u == t)
    && ResetsBelow(w.log, model, w.threads[t].id)
  }

  /** Without one, what was last written is what was last reset for, and what pending calls read. */
  ghost predicate Settled(w: World, model: string) {
    && NoUpdatePending(w, model)
    && LastReset(w.log, model) == LastWrite(w.written, model)
    && (forall t :: t in w.threads && w.threads[t].model == model ==> w.threads[t].seen == LastWrite(w.written, model))
  }

  ghost predicate Tidy(w: World, model: string) {
    && ReadInForce(w.log, model) && Rising(w.log, model) && ResetsBelow(w.log, model, |w.written|)
    && (Settled(w, model) || exists t :: UpdateAlone(w, model, t))
  }

  lemma LogMore(log: seq<Event>, e: Event, model: string)
    requires ReadInForce(log, model) && Rising(log, model)
    requires CountedFor(e, model) ==> e.seen == LastReset(log, model)
    requires Resets(e, model) ==> ResetsBelow(log, model, e.id)
    ensures ReadInForce(log + [e], model) && Rising(log + [e], model)
    ensures LastReset(log + [e], model) == if Resets(e, model) then Some(e.id) else LastReset(log, model)
  {
    var more := log + [e];
    assert more[..|log|] == log;
    forall k | 0 <= k < |more| && CountedFor(more[k], model)
      ensures more[k].seen == LastReset(more[..k], model)
    {
      if k < |log| {
        assert more[..k] == log[..k];
      }
    }
  }

  lemma WriteTidy(w: World, t: nat, m: string, b: Behavior, model: string)
    requires t !in w.threads && Tidy(w, model) && Waits(w, WriteBehavior(t, m, b), model)
    ensures Tidy(Do(w, WriteBehavior(t, m, b)), model)
  {
    var w' := Do(w, WriteBehavior(t, m, b));
    LastWriteMore(w.written, Write(m, b), model);
    if m == model {
      assert UpdateAlone(w', model, t);
    } else if u :| UpdateAlone(w, model, u) {
      assert UpdateAlone(w', model, u);
    }
  }

  lemma ZeroTidy(w: World, t: nat, model: string)
    requires Enabled(w, ZeroCounter(t)) && Tidy(w, model)
    ensures Tidy(Do(w, ZeroCounter(t)), model)
  {
    var w' := Do(w, ZeroCounter(t));
    if w.threads[t].model == model {
      var u :| UpdateAlone(w, model, u);
      LogMore(w.log, Zeroed(model, w.threads[t].id), model);
    } else {
      LogMore(w.log, Zeroed(w.threads[t].model, w.threads[t].id), model);
      if u :| UpdateAlone(w, model, u) {
        assert UpdateAlone(w', model, u);
      }
    }
  }

  lemma ReadTidy(w: World, t: nat, m: string, model: string)
    requires t !in w.threads && Tidy(w, model) && Waits(w, ReadBehavior(t, m), model)
    ensures Tidy(Do(w, ReadBehavior(t, m)), model)
  {
    var w' := Do(w, ReadBehavior(t, m));
    if u :| UpdateAlone(w, model, u) {
      assert UpdateAlone(w', model, u);
    }
  }

  lemma BumpTidy(w: World, t: nat, model: string)
    requires Enabled(w, BumpCounter(t)) && Tidy(w, model)
    ensures Tidy(Do(w, BumpCounter(t)), model)
  {
    var w' := Do(w, BumpCounter(t));
    LogMore(w.log, w'.log[|w.log|], model);
    if u :| UpdateAlone(w, model, u) {
      assert UpdateAlone(w', model, u);
    }
  }

  lemma DoTidy(w: World, step: LockStep, model: string)
    requires Enabled(w, step) && Tidy(w, model) && Waits(w, step, model)
    ensures Tidy(Do(w, step), model)
  {
    match step
    case WriteBehavior(t, m, b) => WriteTidy(w, t, m, b, model);
    case ZeroCounter(t) => ZeroTidy(w, t, model);
    case ReadBehavior(t, m) => ReadTidy(w, t, m, model);
    case BumpCounter(t) => BumpTidy(w, t, model);
  }

  lemma {:induction false} RunTidy(w: World, steps: seq<LockStep>, model: string)
    requires Schedule(w, steps) && Apart(w, steps, model) && Tidy(w, model)
    ensures Tidy(Run(w, steps), model)
    decreases |steps|
  {
    if steps != [] {
      DoTidy(w, steps[0], model);
      RunTidy(Do(w, steps[0]), steps[1..], model);
    }
  }

  /** The last reset before a position is where the log says so. */
  lemma {:induction false} LastResetAt(log: seq<Event>, model: string, k: nat) returns (r: int)
    requires k <= |log|
    ensures -1 <= r < k && (forall l :: r < l < k ==> !Resets(log[l], model))
    ensures if r < 0 then LastReset(log[..k], model) == None
            else Resets(log[r], model) && LastReset(log[..k], model) == Some(log[r].id)
  {
    if k == 0 {
      r := -1;
    } else if Resets(log[k - 1], model) {
      assert log[..k][k - 1] == log[k - 1];
      r := k - 1;
    } else {
      assert log[..k][..k - 1] == log[..k - 1] && log[..k][k - 1] == log[k - 1];
      r := LastResetAt(log, model, k - 1);
    }
  }

  /** A call inside the reign read the update, a call outside did not. */
  lemma ReadersInReign(log: seq<Event>, id: nat, model: string, i: nat, j: nat, k: nat)
    requires ReadInForce(log, model) && Rising(log, model) && Reign(log, id, model, i, j)
    requires k < |log| && CountedFor(log[k], model)
    ensures ReadersOf(id)(log[k]) <==> i <= k < j
  {
    var r := LastResetAt(log, model, k);
    assert i <= k < j ==> r == i - 1;
  }

  /**
   * If no update of a model overlaps another request of it, every update {"fail_n": N} keeps its
   * promise, however completions overlap each other.
   */
  lemma {:induction false} ApartKeeps(steps: seq<LockStep>, id: nat, n: int, i: nat, j: nat)
    requires Schedule(Start, steps) && id < |Run(Start, steps).written|
    requires Limits(Run(Start, steps).written[id].behavior, n)
    requires Reign(Run(Start, steps).log, id, Run(Start, steps).written[id].model, i, j)
    requires Apart(Start, steps, Run(Start, steps).written[id].model)
    ensures Kept(Run(Start, steps).log, id, Run(Start, steps).written[id].model, n, i, j)
  {
    var w := Run(Start, steps);
    var model := w.written[id].model;
    RunTidy(Start, steps, model);
    forall k | 0 <= k < |w.log| && CountedFor(w.log[k], model)
      ensures ReadersOf(id)(w.log[k]) <==> i <= k < j
    {
      ReadersInReign(w.log, id, model, i, j, k);
    }
    AllInTurn(w.log, id, model, n, i, j);
    KeptIff(steps, id, n, i, j);
  }

  lemma AllInTurn(log: seq<Event>, id: nat, model: string, n: int, i: nat, j: nat)
    requires i <= j <= |log|
    requires forall k :: 0 <= k < |log| && CountedFor(log[k], model) ==> (ReadersOf(id)(log[k]) <==> i <= k < j)
    ensures InTurn(log, id, model, n, i, j)
  {
    forall k | 0 <= k < j - i && CountedFor(log[i..j][k], model)
      ensures ReadersOf(id)(log[i..j][k])
    {
      assert log[i..j][k] == log[i + k];
    }
  }

  // ---------------------------------------------------------------------------
  // The two races
  // ---------------------------------------------------------------------------

  /** {"fail_n": 1}. */
  const OneFault: Behavior := Dict(Some(Number(1)), false, None)

  lemma Unroll(w: World, step: LockStep, rest: seq<LockStep>)
    requires Enabled(w, step) && Schedule(Do(w, step), rest)
    ensures Schedule(w, [step] + rest) && Run(w, [step] + rest) == Run(Do(w, step), rest)
  {
    assert ([step] + rest)[1..] == rest;
  }

  lemma Two(w: World, a: LockStep, b: LockStep, rest: seq<LockStep>)
    requires Enabled(w, a) && Enabled(Do(w, a), b) && Schedule(Do(Do(w, a), b), rest)
    ensures Schedule(w, [a, b] + rest) && Run(w, [a, b] + rest) == Run(Do(Do(w, a), b), rest)
  {
    Unroll(Do(w, a), b, rest);
    Unroll(w, a, [b] + rest);
    assert [a, b] + rest == [a] + ([b] + rest);
  }

  /** A completion that falls between the write and the reset of one {"fail_n": 1} update. */
  function Race(model: string): seq<LockStep> {
    [WriteBehavior(0, model, OneFault), ReadBehavior(1, model)]
    + ([BumpCounter(1), ZeroCounter(0)] + ([ReadBehavior(1, model), BumpCounter(1)] + []))
  }

  lemma RaceRuns(model: string)
    ensures Schedule(Start, Race(model))
    ensures var c := Counted(model, OneFault, Some(0), 1);
      Run(Start, Race(model)).log == [c, Zeroed(model, 0), c]
    ensures Run(Start, Race(model)).written == [Write(model, OneFault)]
  {
    var w2 := Do(Do(Start, WriteBehavior(0, model, OneFault)), ReadBehavior(1, model));
    var w4 := Do(Do(w2, BumpCounter(1)), ZeroCounter(0));
    Two(w4, ReadBehavior(1, model), BumpCounter(1), []);
    Two(w2, BumpCounter(1), ZeroCounter(0), [ReadBehavior(1, model), BumpCounter(1)] + []);
    Two(Start, WriteBehavior(0, model, OneFault), ReadBehavior(1, model),
      [BumpCounter(1), ZeroCounter(0)] + ([ReadBehavior(1, model), BumpCounter(1)] + []));
  }

  /** One update to {"fail_n": 1} fails two completions, one of them before its own reset. */
  lemma RaceDoublesTheFault(model: string)
    ensures Schedule(Start, Race(model))
    ensures var log := Run(Start, Race(model)).log;
      && FailedCalls(log, model, ReadersOf(0)) == 2
      && Reign(log, 0, model, 2, 3) && !Kept(log, 0, model, 1, 2, 3)
  {
    RaceRuns(model);
    var c, zero := Counted(model, OneFault, Some(0), 1), Zeroed(model, 0);
    var log := Run(Start, Race(model)).log;
    assert log == [] + [c] + [zero] + [c];
    OneMoreFailure([], c, model, ReadersOf(0));
    OneMoreFailure([] + [c], zero, model, ReadersOf(0));
    OneMoreFailure([] + [c] + [zero], c, model, ReadersOf(0));
    assert Outside(0, 2, 3) && Failed(log[0], model, ReadersOf(0));
  }

  /** A completion that read the old behaviour and bumps the counter the update has just reset. */
  function Stale(model: string): seq<LockStep> {
    [ReadBehavior(1, model), WriteBehavior(0, model, OneFault)]
    + ([ZeroCounter(0), BumpCounter(1)] + ([ReadBehavior(1, model), BumpCounter(1)] + []))
  }

  lemma StaleRuns(model: string)
    ensures Schedule(Start, Stale(model))
    ensures Run(Start, Stale(model)).log
      == [Zeroed(model, 0), Counted(model, Name(OK), None, 1), Counted(model, OneFault, Some(0), 2)]
    ensures Run(Start, Stale(model)).written == [Write(model, OneFault)]
  {
    var w2 := Do(Do(Start, ReadBehavior(1, model)), WriteBehavior(0, model, OneFault));
    var w4 := Do(Do(w2, ZeroCounter(0)), BumpCounter(1));
    Two(w4, ReadBehavior(1, model), BumpCounter(1), []);
    Two(w2, ZeroCounter(0), BumpCounter(1), [ReadBehavior(1, model), BumpCounter(1)] + []);
    Two(Start, ReadBehavior(1, model), WriteBehavior(0, model, OneFault),
      [ZeroCounter(0), BumpCounter(1)] + ([ReadBehavior(1, model), BumpCounter(1)] + []));
  }

  /** It takes the one count that was to fail: the update fails nobody. */
  lemma StaleReaderLosesTheFault(model: string)
    ensures Schedule(Start, Stale(model))
    ensures var log := Run(Start, Stale(model)).log;
      && FailedCalls(log, model, ReadersOf(0)) == 0
      && Reign(log, 0, model, 1, 3) && !Kept(log, 0, model, 1, 1, 3)
  {
    StaleRuns(model);
    var zero, first, second :=
      Zeroed(model, 0), Counted(model, Name(OK), None, 1), Counted(model, OneFault, Some(0), 2);
    var log := Run(Start, Stale(model)).log;
    assert log == [] + [zero] + [first] + [second];
    OneMoreFailure([], zero, model, ReadersOf(0));
    OneMoreFailure([] + [zero], first, model, ReadersOf(0));
    OneMoreFailure([] + [zero] + [first], second, model, ReadersOf(0));
    assert log[1..3][0] == first;
    KeptIff(Stale(model), 0, 1, 1, 3);
  }

  /** Two updates of one model that overlap each other: the later write, the earlier reset. */
  function Crossed(model: string): seq<LockStep> {
    [WriteBehavior(0, model, OneFault), WriteBehavior(1, model, Name(OK))]
    + ([ZeroCounter(1), ZeroCounter(0)] + ([ReadBehavior(2, model), BumpCounter(2)] + []))
  }

  lemma CrossedRuns(model: string)
    ensures Schedule(Start, Crossed(model))
    ensures Run(Start, Crossed(model)).log
      == [Zeroed(model, 1), Zeroed(model, 0), Counted(model, Name(OK), Some(1), 1)]
    ensures Run(Start, Crossed(model)).written == [Write(model, OneFault), Write(model, Name(OK))]
  {
    var w2 := Do(Do(Start, WriteBehavior(0, model, OneFault)), WriteBehavior(1, model, Name(OK)));
    var w4 := Do(Do(w2, ZeroCounter(1)), ZeroCounter(0));
    Two(w4, ReadBehavior(2, model), BumpCounter(2), []);
    Two(w2, ZeroCounter(1), ZeroCounter(0), [ReadBehavior(2, model), BumpCounter(2)] + []);
    Two(Start, WriteBehavior(0, model, OneFault), WriteBehavior(1, model, Name(OK)),
      [ZeroCounter(1), ZeroCounter(0)] + ([ReadBehavior(2, model), BumpCounter(2)] + []));
  }

  /** So it is not enough that no completion overlaps an update: the first update here fails nobody. */
  lemma CrossedUpdatesLoseTheFault(model: string)
    ensures Schedule(Start, Crossed(model))
    ensures var log := Run(Start, Crossed(model)).log;
      Reign(log, 0, model, 2, 3) && !Kept(log, 0, model, 1, 2, 3)
  {
    CrossedRuns(model);
    var log := Run(Start, Crossed(model)).log;
    assert log[2..3][0] == log[2];
    KeptIff(Crossed(model), 0, 1, 2, 3);
  }

  // ---------------------------------------------------------------------------
  // What the promise counts, and which schedules keep updates apart
  // ---------------------------------------------------------------------------

  /** Every reset opens a reign, up to the model's next reset or the end of the log. */
  lemma {:induction false} ResetReigns(log: seq<Event>, id: nat, model: string, i: nat) returns (j: nat)
    requires 0 < i <= |log| && log[i - 1] == Zeroed(model, id)
    ensures i <= j <= |log| && Reign(log, id, model, i, j)
    ensures j == |log| || (log[j].Zeroed? && log[j].model == model)
    ensures forall k :: i <= k < j ==> !(log[k].Zeroed? && log[k].model == model)
  {
    j := i;
    while j < |log| && !Resets(log[j], model)
      invariant i <= j <= |log|
      invariant forall k :: i <= k < j ==> !Resets(log[k], model)
    {
      j := j + 1;
    }
  }

  lemma {:induction false} FailedAppend(a: seq<Event>, b: seq<Event>, model: string, having: Event -> bool)
    ensures FailedCalls(a + b, model, having) == FailedCalls(a, model, having) + FailedCalls(b, model, having)
  {
    if b == [] {
      assert a + b == a;
    } else {
      var init, last := b[..|b| - 1], b[|b| - 1];
      FailedAppend(a, init, model, having);
      assert a + b == (a + init) + [last] && b == init + [last];
      OneMoreFailure(a + init, last, model, having);
      OneMoreFailure(init, last, model, having);
    }
  }

  predicate NoneFails(log: seq<Event>, model: string, having: Event -> bool) {
    forall k :: 0 <= k < |log| ==> !Failed(log[k], model, having)
  }

  lemma NoneFailsMore(log: seq<Event>, e: Event, model: string, having: Event -> bool)
    ensures NoneFails(log + [e], model, having) <==> NoneFails(log, model, having) && !Failed(e, model, having)
  {
    assert (log + [e])[|log|] == e;
    assert forall k :: 0 <= k < |log| ==> (log + [e])[k] == log[k];
  }

  lemma {:induction false} NoneFailed(log: seq<Event>, model: string, having: Event -> bool)
    ensures FailedCalls(log, model, having) == 0 <==> NoneFails(log, model, having)
  {
    if log != [] {
      var init, last := log[..|log| - 1], log[|log| - 1];
      assert log == init + [last];
      NoneFailed(init, model, having);
      NoneFailsMore(init, last, model, having);
      OneMoreFailure(init, last, model, having);
    }
  }

  lemma NoneOutside(log: seq<Event>, model: string, having: Event -> bool, i: nat, j: nat)
    requires i <= j <= |log|
    ensures (forall k :: 0 <= k < |log| && Outside(k, i, j) ==> !Failed(log[k], model, having)) <==>
      NoneFails(log[..i], model, having) && NoneFails(log[j..], model, having)
  {
    var before, after := log[..i], log[j..];
    assert forall k :: 0 <= k < i ==> before[k] == log[k];
    assert forall k :: j <= k < |log| ==> log[k] == after[k - j];
  }

  lemma FailedParts(log: seq<Event>, model: string, having: Event -> bool, i: nat, j: nat)
    requires i <= j <= |log|
    ensures FailedCalls(log, model, having)
      == FailedCalls(log[..i], model, having) + FailedCalls(log[i..j], model, having)
         + FailedCalls(log[j..], model, having)
  {
    assert log == log[..i] + (log[i..j] + log[j..]);
    FailedAppend(log[..i], log[i..j] + log[j..], model, having);
    FailedAppend(log[i..j], log[j..], model, having);
  }

  /**
   * The promise in numbers: over the whole log as many calls that read the update fail as are to
   * fail in its reign, and they fail there.
   */
  lemma {:induction false} KeptCounts(log: seq<Event>, id: nat, model: string, n: int, i: nat, j: nat)
    requires i <= j <= |log|
    ensures Kept(log, id, model, n, i, j) <==>
      var promised := Min(|HandedOut(log[i..j], model)|, Max(n, 0));
      && FailedCalls(log[i..j], model, ReadersOf(id)) == promised
      && FailedCalls(log, model, ReadersOf(id)) == promised
  {
    FailedParts(log, model, ReadersOf(id), i, j);
    NoneOutside(log, model, ReadersOf(id), i, j);
    NoneFailed(log[..i], model, ReadersOf(id));
    NoneFailed(log[j..], model, ReadersOf(id));
  }

  lemma {:induction false} ApartAppend(w: World, a: seq<LockStep>, b: seq<LockStep>, model: string)
    requires Schedule(w, a) && Schedule(Run(w, a), b) && Apart(w, a, model) && Apart(Run(w, a), b, model)
    ensures Schedule(w, a + b) && Apart(w, a + b, model)
    decreases |a|
  {
    RunAppend(w, a, b);
    if a == [] {
      assert a + b == b;
    } else {
      assert (a + b)[1..] == a[1..] + b;
      ApartAppend(Do(w, a[0]), a[1..], b, model);
    }
  }

  lemma ApartOne(w: World, step: LockStep, rest: seq<LockStep>, model: string)
    requires Enabled(w, step) && Schedule(Do(w, step), rest)
    requires Waits(w, step, model) && Apart(Do(w, step), rest, model)
    ensures Schedule(w, [step] + rest) && Apart(w, [step] + rest, model)
  {
    assert ([step] + rest)[1..] == rest;
  }

  lemma ApartTwo(w: World, a: LockStep, b: LockStep, rest: seq<LockStep>, model: string)
    requires Enabled(w, a) && Enabled(Do(w, a), b) && Schedule(Do(Do(w, a), b), rest)
    requires Waits(w, a, model) && Waits(Do(w, a), b, model) && Apart(Do(Do(w, a), b), rest, model)
    ensures Schedule(w, [a, b] + rest) && Apart(w, [a, b] + rest, model)
  {
    ApartOne(Do(w, a), b, rest, model);
    ApartOne(w, a, [b] + rest, model);
    assert [a, b] + rest == [a] + ([b] + rest);
  }

  lemma RequestApart(w: World, r: Request, model: string)
    requires w.threads == map[]
    ensures Schedule(w, StepsOf(r)) && Apart(w, StepsOf(r), model)
  {
    var steps := StepsOf(r);
    if |steps| == 2 {
      ApartTwo(w, steps[0], steps[1], [], model);
      assert [steps[0], steps[1]] + [] == steps;
    }
  }

  /** Requests one after the other keep the updates of every model apart. */
  lemma {:induction false} SerialIsApart(run: seq<Request>, model: string)
    ensures Schedule(Start, Serial(run)) && Apart(Start, Serial(run), model)
  {
    SerialRefines(V6, run);
    if run != [] {
      var init, last := run[..|run| - 1], run[|run| - 1];
      SerialRefines(V6, init);
      SerialIsApart(init, model);
      RequestApart(Run(Start, Serial(init)), last, model);
      ApartAppend(Start, Serial(init), StepsOf(last), model);
    }
  }

  /** So do completions that overlap each other, whichever bumps first. */
  lemma {:induction false} OverlapIsApart(w: World, model: string, bumps: seq<LockStep>)
    requires w.threads == map[]
    requires bumps in [[BumpCounter(1), BumpCounter(2)], [BumpCounter(2), BumpCounter(1)]]
    ensures var steps := [ReadBehavior(1, model), ReadBehavior(2, model)] + bumps;
      Schedule(w, steps) && Apart(w, steps, model)
  {
    var w2 := Do(Do(w, ReadBehavior(1, model)), ReadBehavior(2, model));
    ApartTwo(w2, bumps[0], bumps[1], [], model);
    assert [bumps[0], bumps[1]] + [] == bumps;
    ApartTwo(w, ReadBehavior(1, model), ReadBehavior(2, model), bumps, model);
  }
}
