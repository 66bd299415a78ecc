/**
 * The accepted-submission status page of the judge site, as the three
 * scraping endpoints see it: an ordered sequence of rows, newest first.
 * Parsing the page's HTML is not modelled; a row that the page does not have
 * is an index past the end of the sequence.
 */
module StatusTable {
  import opened Wrappers
  import Decimal

  /**
   * One row of the status table.
   * titleText: text of the `a.problem_title` link in the third cell (read by today-problems);
   * cellText:  whole trimmed text of the third cell (read by recent-problems);
   * timestamp: the `data-timestamp` attribute of the submission-time link, in seconds.
   */
  datatype Row = Row(titleText: string, cellText: string, timestamp: Option<int>)

  /** The today and yesterday scans probe row positions 1..100 and no further. */
  const MaxProbedRows: nat := 100

  /** How many rows the today and yesterday scans can reach. */
  function ProbeLimit(rows: seq<Row>): (n: nat)
    ensures n <= |rows| && n <= MaxProbedRows
    ensures n == |rows| || n == MaxProbedRows
  {
    if |rows| < MaxProbedRows then |rows| else MaxProbedRows
  }

  /** A timestamp in seconds, as the millisecond instant `new Date(t * 1000)` denotes. */
  function Millis(seconds: int): int {
    seconds * 1000
  }

  /** The row has a timestamp in the half-open millisecond window [start, end). */
  predicate InWindow(row: Row, start: int, end: int) {
    row.timestamp.Some? && start <= Millis(row.timestamp.value) < end
  }

  /** The row has a timestamp strictly before the millisecond instant `start`. */
  predicate Before(row: Row, start: int) {
    row.timestamp.Some? && Millis(row.timestamp.value) < start
  }

  /** The table lists timestamped rows newest first (rows without a timestamp are ignored). */
  predicate Descending(rows: seq<Row>) {
    forall i, j :: 0 <= i < j < |rows| && rows[i].timestamp.Some? && rows[j].timestamp.Some? ==>
      rows[j].timestamp.value <= rows[i].timestamp.value
  }

  /** What the outbound request for the status page produced. */
  datatype Fetch =
    | Fetched(status: int, rows: seq<Row>)   // a response whose body was read and parsed
    | FetchFailed(message: string)           // a network error or a body that could not be read

  /** `response.ok`: the status is in the 2xx range. */
  predicate IsOk(status: int) {
    200 <= status <= 299
  }

  /** The query string of an endpoint request. */
  datatype Request = Request(user: Option<string>, count: Option<int>)

  /** `if (!user)`: a missing or empty `user` parameter is rejected. */
  predicate HasUser(req: Request) {
    req.user.Some? && req.user.value != ""
  }

  /** `count = <default>` in the destructuring of `req.query`. */
  function CountOr(req: Request, default: int): int {
    req.count.GetOr(default)
  }

  /** An item of the recent-problems response, `{ problemId }`. */
  datatype ProblemRef = ProblemRef(problemId: string)

  /** The JSON responses the endpoints send. */
  datatype Response =
    | BadRequest(error: string)                           // 400
    | TodayItems(items: seq<string>)                      // 200 { items: [id, ...] }
    | RecentItems(recent: seq<ProblemRef>)                // 200 { items: [{ problemId }, ...] }
    | SolvedFlag(solved: bool)                            // 200 { solved }
    | ServerError(error: string, detail: Option<string>)  // 500 { error, detail? }

  function StatusCode(r: Response): (code: int)
    ensures code == 400 <==> r.BadRequest?
    ensures code == 500 <==> r.ServerError?
  {
    match r
    case BadRequest(_) => 400
    case ServerError(_, _) => 500
    case _ => 200
  }

  /** The `error` text of the 500 responses of all three endpoints. */
  const CrawlFailed: string := "크롤링 실패"

  /** The message of the error recent-problems throws on a non-OK status. */
  function StatusErrorMessage(status: int): string {
    "Failed to fetch BOJ page, status: " + Decimal.IntToDecimal(status)
  }
}
