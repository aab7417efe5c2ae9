/**
 * The dashboard's walk over the Art. 12 bundle route: three paginated sections behind one
 * continuation token, under a page ceiling. The route is an arbitrary function of the call's
 * number and arguments, so its answers may change from call to call in any way.
 */
module Art12Walk {
  import opened Prelude
  import opened Art12Types

  datatype Walked = Walked(items: seq<Row>, note: Option<string>)

  datatype Bundle = Bundle(cover: Cover, audit: Walked, logs: Walked, usage: Walked)

  datatype Failure = TooLarge(maxPages: int) | Fetch(error: Error)

  predicate HasMore(p: Page) {
    p.audit.hasMore || p.logs.hasMore || p.usage.hasMore
  }

  /** The walk goes on: there is more, and a token to ask for it. */
  predicate Continues(p: Page) {
    HasMore(p) && p.token.Some?
  }

  // ---------------------------------------------------------------------------
  // The conversation a walk would have, without a ceiling
  // ---------------------------------------------------------------------------

  /** The i-th call: the same period every time, the token of the previous page. */
  function CallAt(route: Route, since: string, until: string, i: nat): Call
    decreases i, 0
  {
    if i == 0 then Call(since, until, None)
    else match ReplyAt(route, since, until, i - 1)
      case Ok(page) => Call(since, until, page.token)
      case Err(_) => Call(since, until, None)
  }

  function ReplyAt(
      route: Route, since: string, until: string, i: nat): Result<Page, Error>
    decreases i, 1
  {
    route(i, CallAt(route, since, until, i))
  }

  predicate Advances(route: Route, since: string, until: string, i: nat) {
    ReplyAt(route, since, until, i).Ok? && Continues(ReplyAt(route, since, until, i).value)
  }

  /** The first n calls are all answered, and all with more to come. */
  predicate AllAdvance(route: Route, since: string, until: string, n: int)
    decreases n
  {
    n <= 0 || (Advances(route, since, until, n - 1) && AllAdvance(route, since, until, n - 1))
  }

  /** The pages received by the first n calls. */
  function Pages(route: Route, since: string, until: string, n: nat): seq<Page> {
    if n == 0 then []
    else match ReplyAt(route, since, until, n - 1)
      case Ok(page) => Pages(route, since, until, n - 1) + [page]
      case Err(_) => Pages(route, since, until, n - 1)
  }

  /** Every page asked for was received. */
  lemma {:induction false} PagesAre(route: Route, since: string, until: string, n: nat)
    requires AllAdvance(route, since, until, n - 1) && (n > 0 ==> ReplyAt(route, since, until, n - 1).Ok?)
    ensures |Pages(route, since, until, n)| == n
    ensures forall i: nat :: i < n ==> Ok(Pages(route, since, until, n)[i]) == ReplyAt(route, since, until, i)
  {
    if n > 0 {
      PagesAre(route, since, until, n - 1);
    }
  }

  /** The first n calls. */
  function Asked(
      route: Route, since: string, until: string, n: nat): (calls: seq<Call>)
    ensures |calls| == n
    ensures forall i: nat :: i < n ==> calls[i] == CallAt(route, since, until, i)
  {
    if n == 0 then [] else Asked(route, since, until, n - 1) + [CallAt(route, since, until, n - 1)]
  }

  /** A section's rows over several pages, in page order. */
  function Items(pages: seq<Page>, part: Part): seq<Row> {
    if pages == [] then []
    else Items(pages[..|pages| - 1], part) + SectionOf(pages[|pages| - 1], part).items
  }

  /** The last note a section carried. */
  function LastNote(pages: seq<Page>, part: Part): Option<string> {
    if pages == [] then None
    else
      var note := SectionOf(pages[|pages| - 1], part).note;
      if note.Some? then note else LastNote(pages[..|pages| - 1], part)
  }

  function WalkedPart(pages: seq<Page>, part: Part): Walked {
    Walked(Items(pages, part), LastNote(pages, part))
  }

  /** The first page's cover, and each section run together. */
  function Assembled(pages: seq<Page>): Bundle
    requires pages != []
  {
    Bundle(pages[0].cover, WalkedPart(pages, Audit), WalkedPart(pages, Logs), WalkedPart(pages, Usage))
  }

  function Ceiling(maxPages: int): nat {
    if maxPages < 0 then 0 else maxPages
  }

  /** The result a walk owes after n fetches. */
  function Due(route: Route, since: string, until: string, maxPages: int, n: nat): Result<Bundle, Failure> {
    if AllAdvance(route, since, until, n) then Err(TooLarge(maxPages))
    else match ReplyAt(route, since, until, n - 1)
      case Err(error) => Err(Fetch(error))
      case Ok(_) => Ok(Assembled(Pages(route, since, until, n)))
  }

  /**
   * What a walk ends with after n fetches: all but the last advance; the last one fails or ends
   * the walk unless the ceiling is reached; and the result is the one due.
   */
  predicate Outcome(
      route: Route, since: string, until: string, maxPages: int, n: nat, result: Result<Bundle, Failure>)
  {
    && n <= Ceiling(maxPages)
    && AllAdvance(route, since, until, n - 1)
    && (n == Ceiling(maxPages) || !AllAdvance(route, since, until, n))
    && result == Due(route, since, until, maxPages, n)
  }

  // ---------------------------------------------------------------------------
  // The walk
  // ---------------------------------------------------------------------------

  /** What a section's two variables hold after these pages. */
  ghost predicate Collected(
      pages: seq<Page>, part: Part, items: seq<Row>, note: Option<string>)
  {
    WalkedPart(pages, part) == Walked(items, note)
  }

  lemma Extended(
      pages: seq<Page>, page: Page, part: Part, items: seq<Row>, note: Option<string>)
    requires Collected(pages, part, items, note)
    ensures var section := SectionOf(page, part);
      Collected(pages + [page], part, items + section.items, if section.note.Some? then section.note else note)
  {
    assert (pages + [page])[..|pages|] == pages;
  }

  /** The walk from a state: the token and pages so far, and the calls already made. */
  function Walk(
      route: Route, since: string, until: string, maxPages: int,
      token: Option<Token>, pages: seq<Page>, calls: seq<Call>): (Result<Bundle, Failure>, seq<Call>)
    decreases Ceiling(maxPages) - |pages|
  {
    if |pages| + 1 > maxPages then (Err(TooLarge(maxPages)), calls)
    else
      var call := Call(since, until, token);
      match route(|pages|, call)
      case Err(error) => (Err(Fetch(error)), calls + [call])
      case Ok(page) =>
        if Continues(page) then Walk(route, since, until, maxPages, page.token, pages + [page], calls + [call])
        else (Ok(Assembled(pages + [page])), calls + [call])
  }

  /** Fetches and result of the whole walk. */
  function Start(route: Route, since: string, until: string, maxPages: int): (Result<Bundle, Failure>, seq<Call>) {
    Walk(route, since, until, maxPages, None, [], [])
  }

  /** assembleArt12Bundle; `calls` is the trace of what was asked of the route. */
  method Assemble(route: Route, since: string, until: string, maxPages: int)
    returns (result: Result<Bundle, Failure>, calls: seq<Call>)
    ensures (result, calls) == Start(route, since, until, maxPages)
  {
    var cover: Option<Cover> := None;
    var audit, logs, usage: seq<Row> := [], [], [];
    var auditNote, logsNote, usageNote: Option<string> := None, None, None;
    var token: Option<Token> := None;
    var page := 0;
    var hasMore := true;
    calls := [];
    ghost var pages: seq<Page> := [];
    while hasMore
      invariant pages == [] ==> hasMore
      invariant |pages| == page && (page == 0 || page <= maxPages)
      invariant cover == if pages == [] then None else Some(pages[0].cover)
      invariant Collected(pages, Audit, audit, auditNote)
      invariant Collected(pages, Logs, logs, logsNote)
      invariant Collected(pages, Usage, usage, usageNote)
      invariant Walk(route, since, until, maxPages, None, [], [])
        == if hasMore then Walk(route, since, until, maxPages, token, pages, calls)
           else (Ok(Assembled(pages)), calls)
      decreases Ceiling(maxPages) - page, hasMore
    {
      page := page + 1;
      if page > maxPages {
        return Err(TooLarge(maxPages)), calls;
      }
      var call := Call(since, until, token);
      var reply := route(page - 1, call);
      calls := calls + [call];
      if reply.Err? {
        return Err(Fetch(reply.error)), calls;
      }
      var resp := reply.value;
      if cover.None? {
        cover := Some(resp.cover);
      }
      Extended(pages, resp, Audit, audit, auditNote);
      Extended(pages, resp, Logs, logs, logsNote);
      Extended(pages, resp, Usage, usage, usageNote);
      pages := pages + [resp];
      audit, logs, usage := audit + resp.audit.items, logs + resp.logs.items, usage + resp.usage.items;
      auditNote := if resp.audit.note.Some? then resp.audit.note else auditNote;
      logsNote := if resp.logs.note.Some? then resp.logs.note else logsNote;
      usageNote := if resp.usage.note.Some? then resp.usage.note else usageNote;
      hasMore := resp.audit.hasMore || resp.logs.hasMore || resp.usage.hasMore;
      token := resp.token;
      if hasMore && token.None? {
        break;
      }
    }
    result := Ok(Bundle(cover.value, Walked(audit, auditNote), Walked(logs, logsNote), Walked(usage, usageNote)));
  }

  /** The loop's walk meets the outcome: declared without a loop, token by token and page by page. */
  lemma {:induction false} WalkFrom(
      route: Route, since: string, until: string, maxPages: int, token: Option<Token>, n: nat)
    requires AllAdvance(route, since, until, n) && n <= Ceiling(maxPages)
    requires CallAt(route, since, until, n) == Call(since, until, token)
    ensures var (result, calls) :=
        Walk(route, since, until, maxPages, token, Pages(route, since, until, n), Asked(route, since, until, n));
      Outcome(route, since, until, maxPages, |calls|, result) && calls == Asked(route, since, until, |calls|)
    decreases Ceiling(maxPages) - n
  {
    PagesAre(route, since, until, n);
    if n + 1 <= maxPages && Advances(route, since, until, n) {
      WalkFrom(route, since, until, maxPages, ReplyAt(route, since, until, n).value.token, n + 1);
    }
  }

  lemma WalkOutcome(route: Route, since: string, until: string, maxPages: int)
    ensures var (result, calls) := Start(route, since, until, maxPages);
      Outcome(route, since, until, maxPages, |calls|, result) && calls == Asked(route, since, until, |calls|)
  {
    WalkFrom(route, since, until, maxPages, None, 0);
  }

  // ---------------------------------------------------------------------------
  // What the outcome means
  // ---------------------------------------------------------------------------

  lemma {:induction false} AllAdvanceLess(route: Route, since: string, until: string, m: nat, n: nat)
    requires m <= n && AllAdvance(route, since, until, n)
    ensures AllAdvance(route, since, until, m)
  {
    if m < n {
      AllAdvanceLess(route, since, until, m, n - 1);
    }
  }

  /** The route determines the number of fetches and the result. */
  lemma OutcomeUnique(
      route: Route, since: string, until: string, maxPages: int,
      n: nat, result: Result<Bundle, Failure>, n': nat, result': Result<Bundle, Failure>)
    requires Outcome(route, since, until, maxPages, n, result)
    requires Outcome(route, since, until, maxPages, n', result')
    ensures n == n' && result == result'
  {
    if n < n' {
      AllAdvanceLess(route, since, until, n, n' - 1);
    }
    if n' < n {
      AllAdvanceLess(route, since, until, n', n - 1);
    }
  }

  /**
   * When p is the first page with nothing more: exactly p fetches, every one with the caller's
   * period and the previous page's token, or too large after exactly the ceiling.
   */
  lemma WalkEndsAt(route: Route, since: string, until: string, maxPages: int, p: nat)
    requires p > 0 && AllAdvance(route, since, until, p - 1)
    requires ReplyAt(route, since, until, p - 1).Ok? && !HasMore(ReplyAt(route, since, until, p - 1).value)
    ensures Start(route, since, until, maxPages) ==
      if p <= maxPages
      then (Ok(Assembled(Pages(route, since, until, p))), Asked(route, since, until, p))
      else (Err(TooLarge(maxPages)), Asked(route, since, until, Ceiling(maxPages)))
  {
    WalkOutcome(route, since, until, maxPages);
    var (result, calls) := Start(route, since, until, maxPages);
    var c := Ceiling(maxPages);
    if p <= maxPages {
      OutcomeUnique(route, since, until, maxPages, |calls|, result, p, Due(route, since, until, maxPages, p));
    } else {
      AllAdvanceLess(route, since, until, c, p - 1);
      AllAdvanceLess(route, since, until, if c == 0 then 0 else c - 1, p - 1);
      OutcomeUnique(route, since, until, maxPages, |calls|, result, c, Due(route, since, until, maxPages, c));
    }
  }

  lemma {:induction false} PagesExpected(route: Route, since: string, until: string, expected: seq<Page>, n: nat)
    requires n <= |expected|
    requires forall i: nat :: i < n ==> ReplyAt(route, since, until, i) == Ok(expected[i])
    requires forall i: nat :: i < n - 1 ==> Continues(expected[i])
    ensures Pages(route, since, until, n) == expected[..n]
    ensures AllAdvance(route, since, until, n - 1)
  {
    if n > 0 {
      PagesExpected(route, since, until, expected, n - 1);
      assert expected[..n] == expected[..n - 1] + [expected[n - 1]];
    }
  }

  lemma {:induction false} AdvancesOver(route: Route, since: string, until: string, expected: seq<Page>, n: nat)
    requires n <= |expected|
    requires forall i: nat :: i < n ==> ReplyAt(route, since, until, i) == Ok(expected[i]) && Continues(expected[i])
    ensures AllAdvance(route, since, until, n)
  {
    if n > 0 {
      AdvancesOver(route, since, until, expected, n - 1);
    }
  }

  /** A route that answers with these pages, all but the last continuing: what the walk makes of them. */
  lemma {:induction false} WalkOver(route: Route, since: string, until: string, maxPages: int, expected: seq<Page>)
    requires expected != [] && !HasMore(expected[|expected| - 1])
    requires forall i: nat :: i < |expected| ==> ReplyAt(route, since, until, i) == Ok(expected[i])
    requires forall i: nat :: i < |expected| - 1 ==> Continues(expected[i])
    ensures Start(route, since, until, maxPages) ==
      if |expected| <= maxPages
      then (Ok(Assembled(expected)), Asked(route, since, until, |expected|))
      else (Err(TooLarge(maxPages)), Asked(route, since, until, Ceiling(maxPages)))
  {
    PagesExpected(route, since, until, expected, |expected|);
    assert expected[..|expected|] == expected;
    WalkEndsAt(route, since, until, maxPages, |expected|);
  }

  /** A walk that still advances at the ceiling is too large. */
  lemma WalkHitsCeiling(route: Route, since: string, until: string, maxPages: int)
    requires AllAdvance(route, since, until, Ceiling(maxPages))
    ensures Start(route, since, until, maxPages)
      == (Err(TooLarge(maxPages)), Asked(route, since, until, Ceiling(maxPages)))
  {
    WalkOutcome(route, since, until, maxPages);
    var (result, calls) := Start(route, since, until, maxPages);
    var c := Ceiling(maxPages);
    AllAdvanceLess(route, since, until, if c == 0 then 0 else c - 1, c);
    OutcomeUnique(route, since, until, maxPages, |calls|, result, c, Due(route, since, until, maxPages, c));
  }

  /** The same, for an error known beforehand. */
  lemma FailsAt(route: Route, since: string, until: string, maxPages: int, k: nat, error: Error)
    requires k < maxPages && AllAdvance(route, since, until, k) && ReplyAt(route, since, until, k) == Err(error)
    ensures Start(route, since, until, maxPages).0 == Err(Fetch(error))
    ensures |Start(route, since, until, maxPages).1| == k + 1
  {
    FailurePropagates(route, since, until, maxPages, k + 1);
  }

  /** A failing fetch within the ceiling ends the walk with its own error, unchanged, and no retry. */
  lemma FailurePropagates(route: Route, since: string, until: string, maxPages: int, p: nat)
    requires 0 < p <= maxPages && AllAdvance(route, since, until, p - 1)
    requires ReplyAt(route, since, until, p - 1).Err?
    ensures Start(route, since, until, maxPages)
      == (Err(Fetch(ReplyAt(route, since, until, p - 1).error)), Asked(route, since, until, p))
  {
    WalkOutcome(route, since, until, maxPages);
    var (result, calls) := Start(route, since, until, maxPages);
    OutcomeUnique(route, since, until, maxPages, |calls|, result, p, Due(route, since, until, maxPages, p));
  }

  /** The walk returned a bundle although its last page had more. */
  predicate Truncated(route: Route, since: string, until: string, maxPages: int) {
    var (result, calls) := Start(route, since, until, maxPages);
    result.Ok? && |calls| > 0 && ReplyAt(route, since, until, |calls| - 1).Ok?
    && HasMore(ReplyAt(route, since, until, |calls| - 1).value)
  }

  /** The route, followed along its tokens, first stops at its p-th page: one with more, but no token. */
  predicate DeadEnd(route: Route, since: string, until: string, p: nat) {
    && p > 0 && AllAdvance(route, since, until, p - 1)
    && ReplyAt(route, since, until, p - 1).Ok?
    && HasMore(ReplyAt(route, since, until, p - 1).value) && ReplyAt(route, since, until, p - 1).value.token.None?
  }

  /** A partial bundle is returned iff the route comes to a dead end within the ceiling. */
  lemma {:induction false} TruncatedIff(route: Route, since: string, until: string, maxPages: int)
    ensures Truncated(route, since, until, maxPages) <==>
      exists p: nat :: p <= maxPages && DeadEnd(route, since, until, p)
  {
    if Truncated(route, since, until, maxPages) {
      TruncatedAtDeadEnd(route, since, until, maxPages);
    }
    if p: nat :| p <= maxPages && DeadEnd(route, since, until, p) {
      DeadEndTruncates(route, since, until, maxPages, p);
    }
  }

  lemma TruncatedAtDeadEnd(route: Route, since: string, until: string, maxPages: int)
    requires Truncated(route, since, until, maxPages)
    ensures var n := |Start(route, since, until, maxPages).1|; n <= maxPages && DeadEnd(route, since, until, n)
  {
    WalkOutcome(route, since, until, maxPages);
  }

  lemma DeadEndTruncates(route: Route, since: string, until: string, maxPages: int, p: nat)
    requires p <= maxPages && DeadEnd(route, since, until, p)
    ensures Truncated(route, since, until, maxPages)
  {
    WalkOutcome(route, since, until, maxPages);
    var (result, calls) := Start(route, since, until, maxPages);
    OutcomeUnique(route, since, until, maxPages, |calls|, result, p, Due(route, since, until, maxPages, p));
  }

  /** The route never says there is more without saying how to get it. */
  ghost predicate PairsTokens(route: Route) {
    forall k: nat, call: Call ::
      route(k, call).Ok? && HasMore(route(k, call).value) ==> route(k, call).value.token.Some?
  }

  /** Against a route that pairs them, no partial bundle is ever returned. */
  lemma NeverPartial(route: Route, since: string, until: string, maxPages: int)
    requires PairsTokens(route)
    ensures !Truncated(route, since, until, maxPages)
  {
    WalkOutcome(route, since, until, maxPages);
    var (result, calls) := Start(route, since, until, maxPages);
    if result.Ok? {
      var last := route(|calls| - 1, CallAt(route, since, until, |calls| - 1));
      assert last == ReplyAt(route, since, until, |calls| - 1);
    }
  }

  /** One page of one row that claims more and carries no token. */
  function Truncating(k: nat, call: Call): Result<Page, Error> {
    var empty := Section([], false, None);
    Ok(Page(Cover(0, None, true), Section([Row(0, k)], true, None), empty, empty, None))
  }

  /** Against such a route the walk returns a bundle although rows are missing. */
  lemma {:induction false} PartialBundle(since: string, until: string)
    ensures Truncated(Truncating, since, until, 500)
  {
    var none: seq<Page>, call := [], Call(since, until, None);
    assert Truncating(|none|, call).Ok? && !Continues(Truncating(|none|, call).value);
    assert Start(Truncating, since, until, 500)
      == (Ok(Assembled(none + [Truncating(|none|, call).value])), [] + [call]);
  }
}
