/** The Art. 12 bundle's wire types, as the route sends them and the dashboard reads them. */
module Art12Types {
  import opened Prelude

  /** A row of any section; sections are listed newest first, by (createdAt, id). */
  datatype Row = Row(createdAt: int, id: int)

  /** The tenant snapshot pinned on the first page. zdrNote is the note of an enabled zero-data-retention. */
  datatype Cover = Cover(bundleId: int, zdrNote: Option<string>, logsEntitled: bool)

  /** How far a section has been walked: the last row issued, and whether it was the last one. */
  datatype Cursor = Cursor(last: Option<Row>, exhausted: bool)

  /** The continuation token: the pinned cover and period, and a cursor per section. */
  datatype Token = Token(cover: Cover, since: int, until: int, audit: Cursor, logs: Cursor, usage: Cursor)

  datatype Error = PayloadInvalid | CursorInvalid | QueryTimeout

  datatype Section = Section(items: seq<Row>, hasMore: bool, note: Option<string>)

  datatype Page = Page(cover: Cover, audit: Section, logs: Section, usage: Section, token: Option<Token>)

  datatype Call = Call(since: string, until: string, token: Option<Token>)

  /** The route as the walk sees it: the reply to the k-th call. */
  type Route = (nat, Call) -> Result<Page, Error>

  datatype Part = Audit | Logs | Usage

  function SectionOf(p: Page, part: Part): Section {
    match part
    case Audit => p.audit
    case Logs => p.logs
    case Usage => p.usage
  }
}
