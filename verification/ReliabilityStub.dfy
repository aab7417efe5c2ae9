/** The v19 reliability stub: call counters, and a retry count per request marker. */
module ReliabilityStub {
  import opened Prelude
  import Decimal

  const RETRY_A: string := "v19/retry-a"
  const FB_A: string := "v19/fb-a"
  const STREAM_A: string := "v19/stream-a"
  const STREAM_B: string := "v19/stream-b"
  const EMBED: string := "v19/embed"
  const CAP: nat := 128

  /** A JSON value where only strings matter. */
  datatype Value = Text(text: string) | NotText

  /** A chat message; an absent content reads as the empty text. */
  datatype Message = Message(isUser: bool, content: Value) | NotAMessage

  /** A decoded payload; messages is None unless it is a list, input is None when the key is absent. */
  datatype Payload = Payload(model: string, stream: bool, messages: Option<seq<Message>>, input: Option<Value>)

  /** A POST; `now` is the clock reading the marker may fall back on. */
  datatype Request = Reset | Malformed | Complete(payload: Payload, now: nat)

  datatype Answer = Json(status: nat) | Sse

  type Key = (string, string)
  datatype State = State(calls: map<string, nat>, retries: map<Key, nat>)

  const Fresh: State := State(map[], map[])

  function CallsOf(calls: map<string, nat>, model: string): nat {
    if model in calls then calls[model] else 0
  }

  function RetriesOf(retries: map<Key, nat>, key: Key): nat {
    if key in retries then retries[key] else 0
  }

  // ---------------------------------------------------------------------------
  // The request marker
  // ---------------------------------------------------------------------------

  predicate HasUserText(m: Message) {
    m.Message? && m.isUser && m.content.Text? && m.content.text != ""
  }

  predicate IsFirst(messages: seq<Message>, i: nat)
    requires i < |messages|
  {
    HasUserText(messages[i]) && forall j :: 0 <= j < i ==> !HasUserText(messages[j])
  }

  /** The first non-empty text of a user message. */
  function FirstUserText(messages: seq<Message>): (r: Option<string>)
    ensures r.None? <==> forall i :: 0 <= i < |messages| ==> !HasUserText(messages[i])
    ensures r.Some? ==> exists i :: 0 <= i < |messages| && IsFirst(messages, i) && r.value == messages[i].content.text
  {
    if messages == [] then None
    else if HasUserText(messages[0]) then Some(messages[0].content.text)
    else
      var r := FirstUserText(messages[1..]);
      assert forall i :: 1 <= i < |messages| ==> messages[i] == messages[1..][i - 1];
      assert forall i :: 0 <= i < |messages| - 1 && IsFirst(messages[1..], i) ==> IsFirst(messages, i + 1);
      r
  }

  function Capped(s: string): string {
    if |s| <= CAP then s else s[..CAP]
  }

  function Marker(p: Payload, now: nat): string {
    var text := if p.messages.Some? then FirstUserText(p.messages.value) else None;
    if text.Some? then Capped(text.value)
    else if p.input.Some? && p.input.value.Text? then Capped(p.input.value.text)
    else Decimal.Render(now)
  }

  // ---------------------------------------------------------------------------
  // One request
  // ---------------------------------------------------------------------------

  predicate Retries(p: Payload) {
    p.input.None? && p.model == RETRY_A
  }

  /** Every completion the retry state does not decide. */
  function Canned(p: Payload): Answer {
    if p.input.Some? || p.model == EMBED then Json(200)
    else if p.model == FB_A then Json(400)
    else if p.model == STREAM_A then Json(500)
    else if p.model == STREAM_B && p.stream then Sse
    else Json(200)
  }

  function Step(s: State, r: Request): (State, Answer) {
    match r
    case Reset => (Fresh, Json(200))
    case Malformed => (s, Json(400))
    case Complete(p, now) =>
      var calls := s.calls[p.model := CallsOf(s.calls, p.model) + 1];
      if Retries(p) then
        var key := (p.model, Marker(p, now));
        var n := RetriesOf(s.retries, key) + 1;
        (State(calls, s.retries[key := n]), Json(if n <= 1 then 503 else 200))
      else (s.(calls := calls), Canned(p))
  }

  class Stub {
    var calls: map<string, nat>
    var retries: map<Key, nat>

    function Snapshot(): State
      reads this
    {
      State(calls, retries)
    }

    constructor ()
      ensures Snapshot() == Fresh
    {
      calls, retries := map[], map[];
    }

    /** _increment_counter. */
    method IncrementCounter(model: string)
      modifies this`calls
      ensures calls == old(calls)[model := CallsOf(old(calls), model) + 1]
    {
      calls := calls[model := CallsOf(calls, model) + 1];
    }

    /** _increment_retry. */
    method IncrementRetry(model: string, marker: string) returns (n: nat)
      modifies this`retries
      ensures retries == old(retries)[(model, marker) := RetriesOf(old(retries), (model, marker)) + 1]
      ensures n == retries[(model, marker)]
    {
      var key := (model, marker);
      retries := retries[key := RetriesOf(retries, key) + 1];
      n := retries[key];
    }

    /** _handle_completions. */
    method HandleCompletion(p: Payload, now: nat) returns (answer: Answer)
      modifies this
      ensures (Snapshot(), answer) == Step(old(Snapshot()), Complete(p, now))
    {
      IncrementCounter(p.model);
      if p.input.Some? || p.model == EMBED {
        return Json(200);
      }
      if p.model == RETRY_A {
        var marker := ExtractRequestMarker(p, now);
        var n := IncrementRetry(p.model, marker);
        return Json(if n <= 1 then 503 else 200);
      }
      if p.model == FB_A {
        return Json(400);
      }
      if p.model == STREAM_A {
        return Json(500);
      }
      return if p.model == STREAM_B && p.stream then Sse else Json(200);
    }

    method Handle(r: Request) returns (answer: Answer)
      modifies this
      ensures (Snapshot(), answer) == Step(old(Snapshot()), r)
    {
      match r
      case Reset =>
        calls := map[];
        retries := map[];
        return Json(200);
      case Malformed =>
        return Json(400);
      case Complete(p, now) =>
        answer := HandleCompletion(p, now);
    }
  }

  /** _extract_request_marker: a scan of the messages, then the two fallbacks. */
  method ExtractRequestMarker(p: Payload, now: nat) returns (marker: string)
    ensures marker == Marker(p, now)
  {
    if p.messages.Some? {
      var messages := p.messages.value;
      for i := 0 to |messages|
        invariant FirstUserText(messages) == FirstUserText(messages[i..])
      {
        if HasUserText(messages[i]) {
          return Capped(messages[i].content.text);
        }
      }
    }
    if p.input.Some? && p.input.value.Text? {
      return Capped(p.input.value.text);
    }
    return Decimal.Render(now);
  }

  // ---------------------------------------------------------------------------
  // Runs
  // ---------------------------------------------------------------------------

  function After(run: seq<Request>): State {
    if run == [] then Fresh else Step(After(run[..|run| - 1]), run[|run| - 1]).0
  }

  function AnswerAfter(run: seq<Request>, next: Request): Answer {
    Step(After(run), next).1
  }

  /** A completion that spends an attempt of this marker. */
  predicate Attempts(r: Request, marker: string) {
    r.Complete? && Retries(r.payload) && Marker(r.payload, r.now) == marker
  }

  /** Requests since the last reset that satisfy `p`. */
  function SinceReset(run: seq<Request>, p: Request -> bool): nat {
    if run == [] || run[|run| - 1].Reset? then 0
    else SinceReset(run[..|run| - 1], p) + (if p(run[|run| - 1]) then 1 else 0)
  }

  /** Each retry count is the number of attempts with its marker since the reset. */
  lemma {:induction false} RetriesCount(run: seq<Request>, marker: string)
    ensures RetriesOf(After(run).retries, (RETRY_A, marker)) == SinceReset(run, r => Attempts(r, marker))
  {
    if run != [] {
      RetriesCount(run[..|run| - 1], marker);
    }
  }

  /**
   * Any request is answered 503 iff it is a retry request and the first with its marker since the
   * reset; the next ones get 200.
   */
  lemma {:induction false} RetryOnce(run: seq<Request>, next: Request)
    ensures AnswerAfter(run, next) == Json(503) <==>
      && next.Complete? && Retries(next.payload)
      && SinceReset(run, r => Attempts(r, Marker(next.payload, next.now))) == 0
    ensures next.Complete? && Retries(next.payload) && AnswerAfter(run, next) != Json(503) ==>
      AnswerAfter(run, next) == Json(200)
  {
    if next.Complete? && Retries(next.payload) {
      RetriesCount(run, Marker(next.payload, next.now));
    }
  }

  /** With user text the clock plays no part, and only the first 128 characters of the text do. */
  lemma {:induction false} MarkerIsPrefix(p: Payload, q: Payload, now: nat, later: nat)
    requires p.messages.Some? && FirstUserText(p.messages.value).Some?
    requires q.messages.Some? && FirstUserText(q.messages.value).Some?
    ensures Marker(p, now) == Marker(q, later) <==>
      var a, b := FirstUserText(p.messages.value).value, FirstUserText(q.messages.value).value;
      a == b || (|a| >= CAP && |b| >= CAP && a[..CAP] == b[..CAP])
  {
    var a, b := FirstUserText(p.messages.value).value, FirstUserText(q.messages.value).value;
    assert |a| == CAP ==> a[..CAP] == a;
    assert |b| == CAP ==> b[..CAP] == b;
  }

  /** Repeating a retry request with user text, at any later time before a reset, succeeds. */
  lemma RepeatSucceeds(before: seq<Request>, between: seq<Request>, p: Payload, now: nat, later: nat)
    requires Retries(p) && p.messages.Some? && FirstUserText(p.messages.value).Some?
    requires Reset !in between
    ensures AnswerAfter(before + [Complete(p, now)] + between, Complete(p, later)) == Json(200)
  {
    MarkerIsPrefix(p, p, now, later);
    SpentStays(before, between, Complete(p, now), Marker(p, later));
    RetryOnce(before + [Complete(p, now)] + between, Complete(p, later));
  }

  lemma {:induction false} SpentStays(before: seq<Request>, between: seq<Request>, spent: Request, marker: string)
    requires Attempts(spent, marker) && Reset !in between
    ensures SinceReset(before + [spent] + between, r => Attempts(r, marker)) >= 1
  {
    var run := before + [spent] + between;
    if between == [] {
      assert run[|run| - 1] == spent;
    } else {
      assert run[..|run| - 1] == before + [spent] + between[..|between| - 1];
      SpentStays(before, between[..|between| - 1], spent, marker);
    }
  }

  // ---------------------------------------------------------------------------
  // Conservation
  // ---------------------------------------------------------------------------

  /** The retry counts of a model summed over its markers. */
  ghost function Total(retries: map<Key, nat>, model: string): nat
    decreases |retries|
  {
    if retries == map[] then 0
    else
      var key :| key in retries;
      (if key.0 == model then retries[key] else 0) + Total(retries - {key}, model)
  }

  /** The sum does not depend on the order in which the map is taken apart. */
  lemma {:induction false} TotalWithout(retries: map<Key, nat>, model: string, key: Key)
    requires key in retries
    ensures Total(retries, model) == (if key.0 == model then retries[key] else 0) + Total(retries - {key}, model)
    decreases |retries|
  {
    var first :| first in retries
      && Total(retries, model) == (if first.0 == model then retries[first] else 0) + Total(retries - {first}, model);
    if first != key {
      TotalWithout(retries - {first}, model, key);
      TotalWithout(retries - {key}, model, first);
      assert retries - {first} - {key} == retries - {key} - {first};
    }
  }

  /** One more attempt under any key adds one to its model's sum. */
  lemma TotalBumped(retries: map<Key, nat>, model: string, key: Key)
    ensures Total(retries[key := RetriesOf(retries, key) + 1], model)
         == Total(retries, model) + (if key.0 == model then 1 else 0)
  {
    var bumped := retries[key := RetriesOf(retries, key) + 1];
    TotalWithout(bumped, model, key);
    if key in retries {
      TotalWithout(retries, model, key);
      assert bumped - {key} == retries - {key};
    } else {
      assert bumped - {key} == retries;
    }
  }

  /** A call of the model that the retry path does not see. */
  predicate BypassesRetry(r: Request, model: string) {
    r.Complete? && r.payload.model == model && !Retries(r.payload)
  }

  /**
   * Every call is counted once, and as a retry attempt exactly when it is one: the call counter
   * is the summed retry counts plus the calls that bypass the retry path.
   */
  lemma {:induction false} CallsConserved(run: seq<Request>, model: string)
    ensures CallsOf(After(run).calls, model)
         == Total(After(run).retries, model) + SinceReset(run, r => BypassesRetry(r, model))
  {
    if run != [] {
      var init, last := run[..|run| - 1], run[|run| - 1];
      CallsConserved(init, model);
      if last.Complete? && Retries(last.payload) {
        TotalBumped(After(init).retries, model, (RETRY_A, Marker(last.payload, last.now)));
      }
    }
  }

  /** So the retry counts of a model never exceed its call counter. */
  lemma RetriesWithinCalls(run: seq<Request>, model: string)
    ensures Total(After(run).retries, model) <= CallsOf(After(run).calls, model)
  {
    CallsConserved(run, model);
  }

  // ---------------------------------------------------------------------------
  // The models, by name
  // ---------------------------------------------------------------------------

  /** Which requests the retry state decides, and what every other one is answered. */
  lemma {:induction false} ModelsByName(run: seq<Request>, p: Payload, now: nat)
    ensures Retries(p) <==> p.input.None? && p.model == "v19/retry-a"
    ensures var answer := AnswerAfter(run, Complete(p, now));
      !Retries(p) ==> match p.model
        case "v19/fb-a" => answer == if p.input.Some? then Json(200) else Json(400)
        case "v19/stream-a" => answer == if p.input.Some? then Json(200) else Json(500)
        case "v19/stream-b" => answer == if p.input.None? && p.stream then Sse else Json(200)
        case _ => answer == Json(200)
  {
    ModelNames();
  }

  lemma ModelNames()
    ensures "v19/embed" != "v19/fb-a" && "v19/embed" != "v19/stream-a" && "v19/embed" != "v19/stream-b"
    ensures "v19/stream-a" != "v19/stream-b" && "v19/fb-a" != "v19/stream-a"
  {
    assert |"v19/embed"| == 9 && |"v19/fb-a"| == 8 && |"v19/stream-a"| == 12 && |"v19/stream-b"| == 12;
    assert "v19/stream-a"[11] == 'a' && "v19/stream-b"[11] == 'b';
  }

  /** Where the marker comes from: the user's text, else the input, else the clock; 128 characters at most. */
  lemma {:induction false} MarkerSources(p: Payload, now: nat)
    ensures var text := if p.messages.Some? then FirstUserText(p.messages.value) else None;
      var m := Marker(p, now);
      if text.Some? then m == (if |text.value| <= 128 then text.value else text.value[..128])
      else match p.input
        case Some(Text(input)) => m == (if |input| <= 128 then input else input[..128])
        case _ => m == Decimal.Render(now)
  {
  }

  /** A reset forgets everything; a malformed request counts nowhere. */
  lemma {:induction false} ResetForgets(run: seq<Request>)
    ensures After(run + [Reset]) == State(map[], map[]) && AnswerAfter(run, Reset) == Json(200)
    ensures After(run + [Malformed]) == After(run) && AnswerAfter(run, Malformed) == Json(400)
  {
    assert (run + [Reset])[..|run|] == run && (run + [Malformed])[..|run|] == run;
  }

  /** User text: a message of the user's whose content is a text, and not the empty one. */
  lemma {:induction false} UserTextIff(m: Message)
    ensures HasUserText(m) <==> exists text :: text != "" && m == Message(true, Text(text))
  {
    if HasUserText(m) {
      assert m == Message(true, Text(m.content.text));
    }
  }
}
