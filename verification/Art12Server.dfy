/**
 * The gateway's side of the Art. 12 walk: keyset pages of three sections behind one token that
 * pins the cover, the period and a cursor per section. Rows may be added at the head of every
 * table between two pages (each page's own audit record is one), yet the dashboard's walk over
 * the route returns exactly the rows the period held when it began.
 */
module Art12Server {
  import opened Prelude
  import opened Art12Types
  import opened Art12Walk

  const PLAN_NOTE: string := "tenant plan does not include logs_explorer; audit_events and usage_lineage are unaffected"

  /**
   * The gateway over time: datetime parsing and the page limit; per call, the cover it would
   * mint, the tables, and whether reading them takes too long.
   */
  datatype Site = Site(
    parse: string -> Option<int>, limit: nat, mint: nat -> Cover, table: (nat, Part) -> seq<Row>, slow: nat -> bool)

  predicate Older(a: Row, b: Row) {
    a.createdAt < b.createdAt || (a.createdAt == b.createdAt && a.id < b.id)
  }

  predicate InPeriod(r: Row, since: int, until: int) {
    since <= r.createdAt <= until
  }

  predicate Descending(rows: seq<Row>) {
    forall i, j :: 0 <= i < j < |rows| ==> Older(rows[j], rows[i])
  }

  // ---------------------------------------------------------------------------
  // The route
  // ---------------------------------------------------------------------------

  /** The rows of the period strictly after the cursor, newest first. */
  function After(table: seq<Row>, since: int, until: int, cursor: Option<Row>): seq<Row> {
    Filter(table, (r: Row) => InPeriod(r, since, until) && (cursor.Some? ==> Older(r, cursor.value)))
  }

  function Take(rows: seq<Row>, n: nat): seq<Row> {
    if |rows| <= n then rows else rows[..n]
  }

  /** _page_section: one row more than the limit is asked for, to see whether there is more. */
  function PageSection(
      limit: nat, table: seq<Row>, since: int, until: int, cursor: Cursor): (Section, Cursor)
  {
    if cursor.exhausted then (Section([], false, None), cursor)
    else
      var rows := Take(After(table, since, until, cursor.last), limit + 1);
      var hasMore := |rows| > limit;
      var page := Take(rows, limit);
      var last := if page != [] then Some(page[|page| - 1]) else cursor.last;
      (Section(page, hasMore, None), Cursor(last, !hasMore))
  }

  /** Why the log section is withheld, if it is: pinned with the cover for the whole walk. */
  function LogNote(cover: Cover): Option<string> {
    if cover.zdrNote.Some? then cover.zdrNote
    else if !cover.logsEntitled then Some(PLAN_NOTE)
    else None
  }

  function LogSection(
      cover: Cover, limit: nat, table: seq<Row>, since: int, until: int, cursor: Cursor): (Section, Cursor)
  {
    if LogNote(cover).Some? then (Section([], false, LogNote(cover)), Cursor(cursor.last, true))
    else PageSection(limit, table, since, until, cursor)
  }

  /** The token a page starts from; the first page starts from a freshly minted cover. */
  function StartOf(site: Site, k: nat, since: int, until: int, token: Option<Token>): Token {
    if token.Some? then token.value
    else Token(site.mint(k), since, until, Cursor(None, false), Cursor(None, false), Cursor(None, false))
  }

  function PageFrom(site: Site, k: nat, from: Token): Page {
    var (audit, auditCursor) := PageSection(site.limit, site.table(k, Audit), from.since, from.until, from.audit);
    var (usage, usageCursor) := PageSection(site.limit, site.table(k, Usage), from.since, from.until, from.usage);
    var (logs, logsCursor) :=
      LogSection(from.cover, site.limit, site.table(k, Logs), from.since, from.until, from.logs);
    var token :=
      if audit.hasMore || logs.hasMore || usage.hasMore
      then Some(Token(from.cover, from.since, from.until, auditCursor, logsCursor, usageCursor)) else None;
    Page(from.cover, audit, logs, usage, token)
  }

  /** get_art12_bundle. */
  function Serve(site: Site, k: nat, call: Call): Result<Page, Error> {
    var since, until := site.parse(call.since), site.parse(call.until);
    if since.None? || until.None? || since.value > until.value then Err(PayloadInvalid)
    else if call.token.Some? && (call.token.value.since != since.value || call.token.value.until != until.value)
    then Err(CursorInvalid)
    else if site.slow(k) then Err(QueryTimeout)
    else Ok(PageFrom(site, k, StartOf(site, k, since.value, until.value, call.token)))
  }

  function RouteOf(site: Site): Route {
    (k: nat, call: Call) => Serve(site, k, call)
  }

  /** The gateway always pairs has_more with a token, so the walk is never cut short. */
  lemma {:induction false} ServerPairsTokens(site: Site)
    ensures PairsTokens(RouteOf(site))
  {
  }

  // ---------------------------------------------------------------------------
  // Keyset paging
  // ---------------------------------------------------------------------------

  lemma {:induction false} FilterNone(rows: seq<Row>, p: Row -> bool)
    requires forall r :: r in rows ==> !p(r)
    ensures Filter(rows, p) == []
  {
    if rows != [] {
      assert rows[0] in rows;
      FilterNone(rows[1..], p);
    }
  }

  lemma {:induction false} FilterAll(rows: seq<Row>, p: Row -> bool)
    requires forall r :: r in rows ==> p(r)
    ensures Filter(rows, p) == rows
  {
    if rows != [] {
      assert rows[0] in rows;
      FilterAll(rows[1..], p);
    }
  }

  lemma {:induction false} FilterTwice(rows: seq<Row>, p: Row -> bool, q: Row -> bool)
    ensures Filter(Filter(rows, p), q) == Filter(rows, (r: Row) => p(r) && q(r))
  {
    if rows != [] {
      FilterTwice(rows[1..], p, q);
      var rest := Filter(rows[1..], p);
      assert ([rows[0]] + rest)[1..] == rest;
    }
  }

  lemma {:induction false} FilterDescending(rows: seq<Row>, p: Row -> bool)
    requires Descending(rows)
    ensures Descending(Filter(rows, p))
  {
    if rows != [] {
      FilterDescending(rows[1..], p);
      forall r | r in Filter(rows[1..], p)
        ensures Older(r, rows[0])
      {
        InFilter(rows[1..], p, r);
      }
    }
  }

  /** Asking for what follows the j-th row of a descending list gives the rest of the list. */
  lemma CursorSplits(rows: seq<Row>, j: nat)
    requires Descending(rows) && 0 < j <= |rows|
    ensures Filter(rows, (r: Row) => Older(r, rows[j - 1])) == rows[j..]
  {
    var p := (r: Row) => Older(r, rows[j - 1]);
    assert rows == rows[..j] + rows[j..];
    FilterAppend(rows[..j], rows[j..], p);
    FilterNone(rows[..j], p);
    FilterAll(rows[j..], p);
  }

  /** The rows of the period when the walk began. */
  function Rows(site: Site, since: int, until: int, part: Part): seq<Row> {
    Filter(site.table(0, part), (r: Row) => InPeriod(r, since, until))
  }

  /** `now` is `then` with rows added at its head. */
  predicate Grew(before: seq<Row>, now: seq<Row>) {
    |before| <= |now| && now[|now| - |before|..] == before
  }

  /** Tables are listed newest first, and only gain rows newer than those they had. */
  ghost predicate AppendOnly(site: Site) {
    forall k: nat, part: Part :: Descending(site.table(k, part)) && Grew(site.table(0, part), site.table(k, part))
  }

  /** Rows added since do not show up behind a cursor. */
  lemma AfterCursor(site: Site, k: nat, since: int, until: int, part: Part, j: nat)
    requires AppendOnly(site)
    requires 0 < j <= |Rows(site, since, until, part)|
    ensures After(site.table(k, part), since, until, Some(Rows(site, since, until, part)[j - 1]))
         == Rows(site, since, until, part)[j..]
  {
    var before, now := site.table(0, part), site.table(k, part);
    var rows := Rows(site, since, until, part);
    var cursor := rows[j - 1];
    var inPeriod := (r: Row) => InPeriod(r, since, until);
    var older := (r: Row) => Older(r, cursor);
    var both := (r: Row) => inPeriod(r) && older(r);
    assert Descending(before) && Descending(now) && Grew(before, now);
    SamePredicate(now, since, until, cursor);
    var added := now[..|now| - |before|];
    assert now == added + before;
    FilterAppend(added, before, both);
    InFilter(before, inPeriod, cursor);
    AddedAreNewer(added, before, now, cursor);
    FilterNone(added, both);
    FilterTwice(before, inPeriod, older);
    FilterDescending(before, inPeriod);
    CursorSplits(rows, j);
    assert Filter(rows, older) == rows[j..] by {
      FilterSame(rows, older, (r: Row) => Older(r, rows[j - 1]));
    }
  }

  lemma {:induction false} FilterSame(rows: seq<Row>, p: Row -> bool, q: Row -> bool)
    requires forall r :: p(r) == q(r)
    ensures Filter(rows, p) == Filter(rows, q)
  {
    if rows != [] {
      FilterSame(rows[1..], p, q);
    }
  }

  lemma SamePredicate(table: seq<Row>, since: int, until: int, cursor: Row)
    ensures After(table, since, until, Some(cursor))
         == Filter(table, (r: Row) => ((x: Row) => InPeriod(x, since, until))(r) && ((x: Row) => Older(x, cursor))(r))
  {
    FilterSame(table,
      (r: Row) => InPeriod(r, since, until) && (Some(cursor).Some? ==> Older(r, Some(cursor).value)),
      (r: Row) => ((x: Row) => InPeriod(x, since, until))(r) && ((x: Row) => Older(x, cursor))(r));
  }

  lemma AddedAreNewer(added: seq<Row>, before: seq<Row>, now: seq<Row>, cursor: Row)
    requires now == added + before && Descending(now) && cursor in before
    ensures forall r :: r in added ==> !Older(r, cursor)
  {
    var j :| 0 <= j < |before| && before[j] == cursor;
    assert now[|added| + j] == cursor;
    forall r | r in added
      ensures !Older(r, cursor)
    {
      var i :| 0 <= i < |added| && added[i] == r;
      assert now[i] == r;
    }
  }

  // ---------------------------------------------------------------------------
  // Pages of a fixed list
  // ---------------------------------------------------------------------------

  /** How far i pages reach. */
  function Reach(rows: seq<Row>, limit: nat, i: nat): (n: nat)
    ensures n <= |rows|
  {
    Min(i * limit, |rows|)
  }

  /** The cursor after i pages. */
  function CursorAt(rows: seq<Row>, limit: nat, i: nat): Cursor {
    var n := Reach(rows, limit, i);
    Cursor(if n == 0 then None else Some(rows[n - 1]), i > 0 && n == |rows|)
  }

  function Chunk(rows: seq<Row>, limit: nat, i: nat): seq<Row> {
    if Reach(rows, limit, i) <= Reach(rows, limit, i + 1)
    then rows[Reach(rows, limit, i)..Reach(rows, limit, i + 1)] else []
  }

  function SectionAt(rows: seq<Row>, limit: nat, i: nat): Section {
    Section(Chunk(rows, limit, i), Reach(rows, limit, i + 1) < |rows|, None)
  }

  lemma ReachStep(rows: seq<Row>, limit: nat, i: nat)
    ensures Reach(rows, limit, i + 1) == Min(Reach(rows, limit, i) + limit, |rows|)
  {
    assert (i + 1) * limit == i * limit + limit;
  }

  /** Behind any cursor of the walk, the rows still to come; whatever was added since. */
  lemma AfterReach(site: Site, k: nat, since: int, until: int, part: Part, i: nat)
    requires AppendOnly(site) && site.limit > 0 && (i == 0 ==> k == 0)
    ensures var rows := Rows(site, since, until, part);
      !CursorAt(rows, site.limit, i).exhausted ==>
        After(site.table(k, part), since, until, CursorAt(rows, site.limit, i).last)
          == rows[Reach(rows, site.limit, i)..]
  {
    var rows := Rows(site, since, until, part);
    var n := Reach(rows, site.limit, i);
    if i == 0 {
      var none: Option<Row> := None;
      FilterSame(site.table(0, part),
        (r: Row) => InPeriod(r, since, until) && (none.Some? ==> Older(r, none.value)),
        (r: Row) => InPeriod(r, since, until));
    } else if n < |rows| {
      assert i * site.limit >= site.limit;
      AfterCursor(site, k, since, until, part, n);
    }
  }

  /** A page taken from the rows still to come is the chunk, and moves the cursor to its end. */
  lemma PageOfRest(limit: nat, table: seq<Row>, since: int, until: int, rows: seq<Row>, i: nat)
    requires limit > 0 && !CursorAt(rows, limit, i).exhausted
    requires After(table, since, until, CursorAt(rows, limit, i).last) == rows[Reach(rows, limit, i)..]
    ensures PageSection(limit, table, since, until, CursorAt(rows, limit, i))
      == (SectionAt(rows, limit, i), CursorAt(rows, limit, i + 1))
  {
    var rest := rows[Reach(rows, limit, i)..];
    ReachStep(rows, limit, i);
    ChunkIsTake(rows, limit, i);
    ChunkEnds(rows, limit, i);
    TakeTwice(rest, limit);
    assert |Take(rest, limit + 1)| > limit <==> Reach(rows, limit, i + 1) < |rows|;
  }

  /** An exhausted section stays empty, and its cursor where it was. */
  lemma PageOfNothing(limit: nat, rows: seq<Row>, i: nat)
    requires CursorAt(rows, limit, i).exhausted
    ensures SectionAt(rows, limit, i) == Section([], false, None)
    ensures CursorAt(rows, limit, i + 1) == CursorAt(rows, limit, i)
  {
    ReachStep(rows, limit, i);
  }

  /** One section of the i-th page of the walk. */
  lemma SectionOfWalk(site: Site, k: nat, since: int, until: int, part: Part, i: nat)
    requires AppendOnly(site) && site.limit > 0 && (i == 0 ==> k == 0)
    ensures var rows := Rows(site, since, until, part);
      PageSection(site.limit, site.table(k, part), since, until, CursorAt(rows, site.limit, i))
        == (SectionAt(rows, site.limit, i), CursorAt(rows, site.limit, i + 1))
  {
    var rows := Rows(site, since, until, part);
    if CursorAt(rows, site.limit, i).exhausted {
      PageOfNothing(site.limit, rows, i);
    } else {
      AfterReach(site, k, since, until, part, i);
      PageOfRest(site.limit, site.table(k, part), since, until, rows, i);
    }
  }

  lemma ChunkEnds(rows: seq<Row>, limit: nat, i: nat)
    requires limit > 0
    ensures var chunk := Chunk(rows, limit, i);
      if chunk == [] then CursorAt(rows, limit, i + 1).last == CursorAt(rows, limit, i).last
      else CursorAt(rows, limit, i + 1).last == Some(chunk[|chunk| - 1])
  {
    ReachStep(rows, limit, i);
  }

  lemma TakeTwice(rest: seq<Row>, limit: nat)
    ensures Take(Take(rest, limit + 1), limit) == Take(rest, limit)
    ensures |Take(rest, limit + 1)| > limit <==> |rest| > limit
  {
  }

  lemma ChunkIsTake(rows: seq<Row>, limit: nat, i: nat)
    ensures Chunk(rows, limit, i) == Take(rows[Reach(rows, limit, i)..], limit)
  {
    ReachStep(rows, limit, i);
  }

  // ---------------------------------------------------------------------------
  // The walk
  // ---------------------------------------------------------------------------

  /** What the walk is to return of a section: nothing of a withheld log section. */
  function Live(site: Site, since: int, until: int, part: Part): seq<Row> {
    if part == Logs && LogNote(site.mint(0)).Some? then [] else Rows(site, since, until, part)
  }

  function TokenAfter(site: Site, since: int, until: int, i: nat): Token {
    Token(site.mint(0), since, until,
      CursorAt(Live(site, since, until, Audit), site.limit, i),
      CursorAt(Live(site, since, until, Logs), site.limit, i),
      CursorAt(Live(site, since, until, Usage), site.limit, i))
  }

  predicate MoreAfter(site: Site, since: int, until: int, i: nat) {
    var audit, logs := Live(site, since, until, Audit), Live(site, since, until, Logs);
    var usage := Live(site, since, until, Usage);
    || Reach(audit, site.limit, i) < |audit|
    || Reach(logs, site.limit, i) < |logs|
    || Reach(usage, site.limit, i) < |usage|
  }

  /** The i-th page of the walk. */
  function PageAt(site: Site, since: int, until: int, i: nat): Page {
    var l := site.limit;
    Page(site.mint(0),
      SectionAt(Live(site, since, until, Audit), l, i),
      SectionAt(Live(site, since, until, Logs), l, i).(note := LogNote(site.mint(0))),
      SectionAt(Live(site, since, until, Usage), l, i),
      if MoreAfter(site, since, until, i + 1) then Some(TokenAfter(site, since, until, i + 1)) else None)
  }

  lemma PageOfWalk(site: Site, k: nat, since: int, until: int, i: nat)
    requires AppendOnly(site) && site.limit > 0 && (i == 0 ==> k == 0)
    ensures PageFrom(site, k, TokenAfter(site, since, until, i)) == PageAt(site, since, until, i)
  {
    SectionOfWalk(site, k, since, until, Audit, i);
    SectionOfWalk(site, k, since, until, Usage, i);
    SectionOfWalk(site, k, since, until, Logs, i);
  }

  /** A period the route accepts. */
  predicate Period(site: Site, since: string, until: string) {
    site.parse(since).Some? && site.parse(until).Some? && site.parse(since).value <= site.parse(until).value
  }

  function StartToken(site: Site, s: int, u: int, i: nat): Option<Token> {
    if i == 0 then None else Some(TokenAfter(site, s, u, i))
  }

  /** The route accepts a token of the same period, and starts the page from it. */
  lemma ServeIs(site: Site, k: nat, since: string, until: string, token: Option<Token>, from: Token)
    requires Period(site, since, until)
    requires from == StartOf(site, k, site.parse(since).value, site.parse(until).value, token)
    requires from.since == site.parse(since).value && from.until == site.parse(until).value
    ensures Serve(site, k, Call(since, until, token))
      == if site.slow(k) then Err(QueryTimeout) else Ok(PageFrom(site, k, from))
  {
  }

  /** The answer to the i-th call of the walk. */
  function Reply(site: Site, s: int, u: int, i: nat): Result<Page, Error> {
    if site.slow(i) then Err(QueryTimeout) else Ok(PageAt(site, s, u, i))
  }

  /** None of the first i calls times out. */
  ghost predicate InTime(site: Site, i: int) {
    forall j: nat :: j < i ==> !site.slow(j)
  }

  lemma ServeContinues(site: Site, since: string, until: string, i: nat)
    requires AppendOnly(site) && site.limit > 0 && Period(site, since, until)
    ensures var s, u := site.parse(since).value, site.parse(until).value;
      Serve(site, i, Call(since, until, StartToken(site, s, u, i))) == Reply(site, s, u, i)
  {
    var s, u := site.parse(since).value, site.parse(until).value;
    PageOfWalk(site, i, s, u, i);
    StartTokenStarts(site, s, u, i);
    ServeIs(site, i, since, until, StartToken(site, s, u, i), TokenAfter(site, s, u, i));
  }

  lemma StartTokenStarts(site: Site, s: int, u: int, i: nat)
    ensures StartOf(site, i, s, u, StartToken(site, s, u, i)) == TokenAfter(site, s, u, i)
  {
  }

  /** There was more after each of the first i pages. */
  predicate MoreUpTo(site: Site, s: int, u: int, i: nat) {
    i == 0 || (MoreAfter(site, s, u, i) && MoreUpTo(site, s, u, i - 1))
  }

  /** As long as there was more, the i-th call carries the i-th token and gets the i-th page. */
  lemma {:induction false} Conversation(site: Site, since: string, until: string, i: nat)
    requires AppendOnly(site) && site.limit > 0 && Period(site, since, until) && InTime(site, i)
    requires MoreUpTo(site, site.parse(since).value, site.parse(until).value, i)
    ensures var s, u := site.parse(since).value, site.parse(until).value;
      && CallAt(RouteOf(site), since, until, i) == Call(since, until, StartToken(site, s, u, i))
      && ReplyAt(RouteOf(site), since, until, i) == Reply(site, s, u, i)
  {
    if i > 0 {
      Conversation(site, since, until, i - 1);
    }
    ServeContinues(site, since, until, i);
  }

  /** Pages a section needs. */
  function PagesFor(limit: nat, rows: nat): nat
    requires limit > 0
  {
    (rows + limit - 1) / limit
  }

  lemma PagesForIff(limit: nat, rows: nat, i: nat)
    requires limit > 0
    ensures i < PagesFor(limit, rows) <==> i * limit < rows
  {
    var q := PagesFor(limit, rows);
    assert q * limit <= rows + limit - 1 < q * limit + limit;
    if i < q {
      assert (i + 1) * limit <= q * limit;
      assert (i + 1) * limit == i * limit + limit;
    } else {
      assert q * limit <= i * limit;
    }
  }

  /** Pages of the whole walk: at least one, and enough for the longest section. */
  function PagesNeeded(site: Site, s: int, u: int): nat
    requires site.limit > 0
  {
    Max(1, Max(PagesFor(site.limit, |Live(site, s, u, Audit)|),
      Max(PagesFor(site.limit, |Live(site, s, u, Logs)|), PagesFor(site.limit, |Live(site, s, u, Usage)|))))
  }

  lemma MoreIff(site: Site, s: int, u: int, i: nat)
    requires site.limit > 0 && i > 0
    ensures MoreAfter(site, s, u, i) <==> i < PagesNeeded(site, s, u)
  {
    PagesForIff(site.limit, |Live(site, s, u, Audit)|, i);
    PagesForIff(site.limit, |Live(site, s, u, Logs)|, i);
    PagesForIff(site.limit, |Live(site, s, u, Usage)|, i);
  }

  lemma {:induction false} MoreUntilLast(site: Site, s: int, u: int, i: nat)
    requires site.limit > 0 && i < PagesNeeded(site, s, u)
    ensures MoreUpTo(site, s, u, i)
  {
    if i > 0 {
      MoreIff(site, s, u, i);
      MoreUntilLast(site, s, u, i - 1);
    }
  }

  /** The pages of the walk. */
  function Expected(site: Site, s: int, u: int, n: nat): (pages: seq<Page>)
    ensures |pages| == n
    ensures forall i: nat :: i < n ==> pages[i] == PageAt(site, s, u, i)
  {
    if n == 0 then [] else Expected(site, s, u, n - 1) + [PageAt(site, s, u, n - 1)]
  }

  /** What the first n pages hold of a section. */
  lemma {:induction false} ExpectedCollects(site: Site, s: int, u: int, n: nat, part: Part)
    ensures var rows := Live(site, s, u, part);
      && Items(Expected(site, s, u, n), part) == rows[..Reach(rows, site.limit, n)]
      && LastNote(Expected(site, s, u, n), part) == if part == Logs && n > 0 then LogNote(site.mint(0)) else None
  {
    var rows := Live(site, s, u, part);
    if n > 0 {
      ExpectedCollects(site, s, u, n - 1, part);
      var before := Expected(site, s, u, n - 1);
      Extended(before, PageAt(site, s, u, n - 1), part, Items(before, part), LastNote(before, part));
      ChunksJoin(rows, site.limit, n - 1);
      PageHolds(site, s, u, n - 1, part);
    }
  }

  lemma PageHolds(site: Site, s: int, u: int, i: nat, part: Part)
    ensures SectionOf(PageAt(site, s, u, i), part).items == Chunk(Live(site, s, u, part), site.limit, i)
    ensures SectionOf(PageAt(site, s, u, i), part).note == if part == Logs then LogNote(site.mint(0)) else None
  {
  }

  lemma ChunksJoin(rows: seq<Row>, limit: nat, i: nat)
    ensures rows[..Reach(rows, limit, i)] + Chunk(rows, limit, i) == rows[..Reach(rows, limit, i + 1)]
  {
    ReachStep(rows, limit, i);
  }

  /** All the pages together hold the whole section. */
  lemma ExpectedIsWhole(site: Site, s: int, u: int, part: Part)
    requires site.limit > 0
    ensures WalkedPart(Expected(site, s, u, PagesNeeded(site, s, u)), part)
      == Walked(Live(site, s, u, part), if part == Logs then LogNote(site.mint(0)) else None)
  {
    var p := PagesNeeded(site, s, u);
    var rows := Live(site, s, u, part);
    ExpectedCollects(site, s, u, p, part);
    MoreIff(site, s, u, p);
    assert rows[..|rows|] == rows;
  }

  lemma ExpectedContinues(site: Site, s: int, u: int, i: nat)
    requires site.limit > 0
    ensures HasMore(PageAt(site, s, u, i)) <==> MoreAfter(site, s, u, i + 1)
    ensures Continues(PageAt(site, s, u, i)) <==> i + 1 < PagesNeeded(site, s, u)
  {
    MoreIff(site, s, u, i + 1);
  }

  /** What the walk is to return. */
  function WholeBundle(site: Site, s: int, u: int): Bundle {
    Bundle(site.mint(0), Walked(Live(site, s, u, Audit), None),
      Walked(Live(site, s, u, Logs), LogNote(site.mint(0))), Walked(Live(site, s, u, Usage), None))
  }

  lemma ExpectedAssembled(site: Site, s: int, u: int)
    requires site.limit > 0
    ensures Assembled(Expected(site, s, u, PagesNeeded(site, s, u))) == WholeBundle(site, s, u)
  {
    ExpectedIsWhole(site, s, u, Audit);
    ExpectedIsWhole(site, s, u, Logs);
    ExpectedIsWhole(site, s, u, Usage);
  }

  /**
   * End to end: within the ceiling the walk returns the three sections as they stood in the
   * period when it began, newest first and complete, under the first cover, after exactly the
   * pages the longest section needs; otherwise it fails after exactly the ceiling. (No call the
   * walk gets to may take too long: WalkTimesOut says what happens when one does.)
   */
  lemma WalkReadsTheTables(site: Site, since: string, until: string, maxPages: int)
    requires AppendOnly(site) && site.limit > 0 && Period(site, since, until)
    requires InTime(site, Min(PagesNeeded(site, site.parse(since).value, site.parse(until).value), Ceiling(maxPages)))
    ensures var s, u := site.parse(since).value, site.parse(until).value;
      var (result, calls) := Start(RouteOf(site), since, until, maxPages);
      if PagesNeeded(site, s, u) <= maxPages
      then |calls| == PagesNeeded(site, s, u) && result == Ok(WholeBundle(site, s, u))
      else |calls| == Ceiling(maxPages) && result == Err(TooLarge(maxPages))
  {
    var s, u := site.parse(since).value, site.parse(until).value;
    var p, c := PagesNeeded(site, s, u), Ceiling(maxPages);
    if p <= maxPages {
      var expected := Expected(site, s, u, p);
      forall i: nat | i < p
        ensures ReplyAt(RouteOf(site), since, until, i) == Ok(expected[i])
        ensures Continues(expected[i]) <==> i < p - 1
        ensures HasMore(expected[i]) ==> i < p - 1
      {
        ExpectedReply(site, since, until, i);
      }
      ExpectedAssembled(site, s, u);
      WalkOver(RouteOf(site), since, until, maxPages, expected);
    } else {
      AdvancesInTime(site, since, until, c);
      WalkHitsCeiling(RouteOf(site), since, until, maxPages);
    }
  }

  lemma AdvancesInTime(site: Site, since: string, until: string, n: nat)
    requires AppendOnly(site) && site.limit > 0 && Period(site, since, until) && InTime(site, n)
    requires n < PagesNeeded(site, site.parse(since).value, site.parse(until).value)
    ensures AllAdvance(RouteOf(site), since, until, n)
  {
    var expected := Expected(site, site.parse(since).value, site.parse(until).value, n);
    forall i: nat | i < n
      ensures ReplyAt(RouteOf(site), since, until, i) == Ok(expected[i]) && Continues(expected[i])
    {
      ExpectedReply(site, since, until, i);
    }
    AdvancesOver(RouteOf(site), since, until, expected, n);
  }

  lemma ExpectedReply(site: Site, since: string, until: string, i: nat)
    requires AppendOnly(site) && site.limit > 0 && Period(site, since, until) && InTime(site, i)
    requires i < PagesNeeded(site, site.parse(since).value, site.parse(until).value)
    ensures var s, u := site.parse(since).value, site.parse(until).value;
      && ReplyAt(RouteOf(site), since, until, i) == Reply(site, s, u, i)
      && (Continues(PageAt(site, s, u, i)) <==> i + 1 < PagesNeeded(site, s, u))
      && (HasMore(PageAt(site, s, u, i)) ==> i + 1 < PagesNeeded(site, s, u))
  {
    var s, u := site.parse(since).value, site.parse(until).value;
    MoreUntilLast(site, s, u, i);
    Conversation(site, since, until, i);
    ExpectedContinues(site, s, u, i);
    MoreIff(site, s, u, i + 1);
  }

  /** The first call to take too long fails the walk, unless the ceiling comes before it. */
  lemma {:induction false} WalkTimesOut(site: Site, since: string, until: string, maxPages: int, k: nat)
    requires AppendOnly(site) && site.limit > 0 && Period(site, since, until)
    requires InTime(site, k) && site.slow(k) && k < maxPages
    requires k < PagesNeeded(site, site.parse(since).value, site.parse(until).value)
    ensures Start(RouteOf(site), since, until, maxPages).0 == Err(Fetch(QueryTimeout))
    ensures |Start(RouteOf(site), since, until, maxPages).1| == k + 1
  {
    AdvancesInTime(site, since, until, k);
    ExpectedReply(site, since, until, k);
    FailsAt(RouteOf(site), since, until, maxPages, k, QueryTimeout);
  }

  /** A period the route does not accept fails the walk on its first call. */
  lemma {:induction false} BadPeriodFails(site: Site, since: string, until: string, maxPages: int)
    requires !Period(site, since, until) && maxPages > 0
    ensures Start(RouteOf(site), since, until, maxPages).0 == Err(Fetch(PayloadInvalid))
    ensures |Start(RouteOf(site), since, until, maxPages).1| == 1
  {
    assert ReplyAt(RouteOf(site), since, until, 0) == Err(PayloadInvalid);
    FailurePropagates(RouteOf(site), since, until, maxPages, 1);
  }

  /** A token of one page is refused for another period, at any time: the period is pinned with it. */
  lemma {:induction false} PeriodIsPinned(
      site: Site, k: nat, call: Call, k': nat, since: string, until: string)
    requires Serve(site, k, call).Ok? && Serve(site, k, call).value.token.Some? && Period(site, since, until)
    ensures Serve(site, k', Call(since, until, Serve(site, k, call).value.token)) == Err(CursorInvalid) <==>
      site.parse(since) != site.parse(call.since) || site.parse(until) != site.parse(call.until)
  {
    TokenPinsPeriod(site, k, StartOf(site, k, site.parse(call.since).value, site.parse(call.until).value, call.token));
  }

  lemma TokenPinsPeriod(site: Site, k: nat, from: Token)
    ensures var token := PageFrom(site, k, from).token;
      token.Some? ==> token.value.since == from.since && token.value.until == from.until
  {
  }

  // ---------------------------------------------------------------------------
  // What a reader of the bundle finds
  // ---------------------------------------------------------------------------

  /**
   * When a tenant gets its logs: on every page ever served, rows and more to come only from a cover
   * without zero-data-retention whose plan includes them; otherwise a note says which it lacks.
   */
  lemma {:induction false} LogsWithheldIff(site: Site, k: nat, call: Call)
    requires Serve(site, k, call).Ok?
    ensures var page := Serve(site, k, call).value;
      && (page.logs.note.None? <==> page.cover.zdrNote.None? && page.cover.logsEntitled)
      && (page.cover.zdrNote.Some? ==> page.logs.note == page.cover.zdrNote)
      && (page.cover.zdrNote.None? && !page.cover.logsEntitled ==>
            page.logs.note
              == Some("tenant plan does not include logs_explorer; audit_events and usage_lineage are unaffected"))
      && (page.logs.note.Some? ==> page.logs.items == [] && !page.logs.hasMore)
      && page.audit.note.None? && page.usage.note.None?
  {
  }

  /** Newest first, and at one instant the greater id first. */
  predicate Newest(rows: seq<Row>) {
    forall i, j :: 0 <= i < j < |rows| ==>
      rows[j].createdAt < rows[i].createdAt || (rows[j].createdAt == rows[i].createdAt && rows[j].id < rows[i].id)
  }

  /** What is asked of the tables: newest first at all times, and at most with rows added in front. */
  lemma {:induction false} AppendOnlyIff(site: Site)
    ensures AppendOnly(site) <==> forall k: nat, part: Part ::
      Newest(site.table(k, part)) && exists added :: site.table(k, part) == added + site.table(0, part)
  {
    forall k: nat, part: Part
      ensures Newest(site.table(k, part)) <==> Descending(site.table(k, part))
      ensures Grew(site.table(0, part), site.table(k, part)) <==>
        exists added :: site.table(k, part) == added + site.table(0, part)
    {
      GrewIff(site.table(0, part), site.table(k, part));
    }
  }

  lemma GrewIff(before: seq<Row>, now: seq<Row>)
    ensures Grew(before, now) <==> exists added :: now == added + before
  {
    if Grew(before, now) {
      assert now == now[..|now| - |before|] + before;
    }
  }

  /** The rows of a table with since <= created_at <= until, newest first, and no others. */
  ghost predicate Between(rows: seq<Row>, table: seq<Row>, since: int, until: int) {
    Newest(rows) && forall r :: r in rows <==> r in table && since <= r.createdAt && r.createdAt <= until
  }

  lemma RowsBetween(site: Site, since: int, until: int, part: Part)
    requires AppendOnly(site)
    ensures Between(Rows(site, since, until, part), site.table(0, part), since, until)
  {
    var table := site.table(0, part);
    var inPeriod := (r: Row) => InPeriod(r, since, until);
    assert Descending(table);
    FilterDescending(table, inPeriod);
    forall r
      ensures r in Rows(site, since, until, part) <==> r in table && since <= r.createdAt && r.createdAt <= until
    {
      InFilter(table, inPeriod, r);
    }
  }

  /**
   * The whole walk, read off the tables and the first cover: every row of the period in its section,
   * newest first, the log rows only without zero-data-retention and with the plan that has them.
   */
  lemma {:induction false} WalkedRows(site: Site, since: string, until: string, maxPages: int)
    requires AppendOnly(site) && site.limit > 0 && Period(site, since, until)
    requires InTime(site, Min(PagesNeeded(site, site.parse(since).value, site.parse(until).value), Ceiling(maxPages)))
    requires Start(RouteOf(site), since, until, maxPages).0.Ok?
    ensures var b, cover := Start(RouteOf(site), since, until, maxPages).0.value, site.mint(0);
      var s, u := site.parse(since).value, site.parse(until).value;
      && b.cover == cover
      && Between(b.audit.items, site.table(0, Audit), s, u) && b.audit.note.None?
      && Between(b.usage.items, site.table(0, Usage), s, u) && b.usage.note.None?
      && (if cover.zdrNote.None? && cover.logsEntitled
          then Between(b.logs.items, site.table(0, Logs), s, u) && b.logs.note.None?
          else b.logs.items == [] && b.logs.note.Some?)
  {
    var s, u := site.parse(since).value, site.parse(until).value;
    WalkReadsTheTables(site, since, until, maxPages);
    RowsBetween(site, s, u, Audit);
    RowsBetween(site, s, u, Logs);
    RowsBetween(site, s, u, Usage);
  }
}
