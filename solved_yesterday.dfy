/**
 * `GET /api/solved-yesterday?user=<id>`: whether the user has an accepted
 * submission in [startOfYesterday, startOfToday), both in epoch milliseconds
 * (the handler computes them from the host clock's local midnight).
 */
module SolvedYesterday {
  import opened Wrappers
  import opened StatusTable

  const UserRequired: string := "user query parameter is required"

  /** No row before position `j` is older than the window: the scan reaches row `j`. */
  predicate Reaches(rows: seq<Row>, j: nat, startOfYesterday: int)
    requires j <= |rows|
  {
    forall k :: 0 <= k < j ==> !Before(rows[k], startOfYesterday)
  }

  /**
   * The scan's verdict: some probed row lies in the window and no earlier row is
   * older than the window. Rows without a timestamp neither count nor stop it.
   */
  predicate FoundYesterday(rows: seq<Row>, startOfYesterday: int, startOfToday: int) {
    exists j :: 0 <= j < ProbeLimit(rows) && InWindow(rows[j], startOfYesterday, startOfToday) &&
                Reaches(rows, j, startOfYesterday)
  }

  /**
   * The row loop of the handler. It answers true at the first in-window row and
   * reads no row after it; it stops with false at the first row older than the
   * window, at a missing row, or after the 100th row. `examined` counts the rows read.
   */
  method ScanYesterday(rows: seq<Row>, startOfYesterday: int, startOfToday: int)
    returns (solved: bool, examined: nat)
    ensures solved <==> FoundYesterday(rows, startOfYesterday, startOfToday)
    ensures examined <= ProbeLimit(rows)
    ensures forall k :: 0 <= k < examined - 1 ==> !InWindow(rows[k], startOfYesterday, startOfToday)
    ensures solved ==> examined >= 1 && InWindow(rows[examined - 1], startOfYesterday, startOfToday)
    ensures !solved ==> examined == ProbeLimit(rows) || (examined >= 1 && Before(rows[examined - 1], startOfYesterday))
  {
    var i := 0;
    while i < MaxProbedRows
      invariant 0 <= i <= ProbeLimit(rows)
      invariant Reaches(rows, i, startOfYesterday)
      invariant forall k :: 0 <= k < i ==> !InWindow(rows[k], startOfYesterday, startOfToday)
    {
      if i >= |rows| {
        break;
      }
      var row := rows[i];
      if row.timestamp.None? {
        // no data-timestamp attribute: skip the row
        i := i + 1;
        continue;
      }
      var solvedAt := Millis(row.timestamp.value);
      if solvedAt >= startOfYesterday && solvedAt < startOfToday {
        assert InWindow(rows[i], startOfYesterday, startOfToday) && Reaches(rows, i, startOfYesterday);
        return true, i + 1;
      }
      if solvedAt < startOfYesterday {
        // older than yesterday: later rows are older still
        forall j | 0 <= j < ProbeLimit(rows) && InWindow(rows[j], startOfYesterday, startOfToday)
          ensures !Reaches(rows, j, startOfYesterday)
        {
          assert j > i && Before(rows[i], startOfYesterday);
        }
        return false, i + 1;
      }
      i := i + 1;
    }
    return false, i;
  }

  /**
   * With a newest-first table the early stop is sound: the handler answers true
   * exactly when some probed row lies in [startOfYesterday, startOfToday).
   */
  lemma SolvedIffSomeRowInWindow(rows: seq<Row>, startOfYesterday: int, startOfToday: int)
    requires Descending(rows)
    ensures FoundYesterday(rows, startOfYesterday, startOfToday) <==>
            exists j :: 0 <= j < ProbeLimit(rows) && InWindow(rows[j], startOfYesterday, startOfToday)
  {
    if j :| 0 <= j < ProbeLimit(rows) && InWindow(rows[j], startOfYesterday, startOfToday) {
      forall k | 0 <= k < j
        ensures !Before(rows[k], startOfYesterday)
      {
        if rows[k].timestamp.Some? {
          assert rows[j].timestamp.value <= rows[k].timestamp.value;
        }
      }
      assert Reaches(rows, j, startOfYesterday);
    }
  }

  /**
   * The window is half open: a first row exactly at its start gives true
   * whatever follows; a row exactly at its end is not counted and does not stop
   * the scan, so a table holding only that row gives false.
   */
  lemma WindowBoundaries(row: Row, rest: seq<Row>, startOfYesterday: int, startOfToday: int)
    requires row.timestamp.Some?
    ensures Millis(row.timestamp.value) == startOfYesterday < startOfToday ==>
              FoundYesterday([row] + rest, startOfYesterday, startOfToday)
    ensures Millis(row.timestamp.value) == startOfToday && startOfYesterday <= startOfToday ==>
              !InWindow(row, startOfYesterday, startOfToday) && !Before(row, startOfYesterday) &&
              !FoundYesterday([row], startOfYesterday, startOfToday)
  {
    var rows := [row] + rest;
    if Millis(row.timestamp.value) == startOfYesterday < startOfToday {
      assert InWindow(rows[0], startOfYesterday, startOfToday) && Reaches(rows, 0, startOfYesterday);
    }
  }

  /**
   * The handler: a request without `user` is answered 400 before any fetch; a
   * failed request gives 500; otherwise the page, whatever its HTTP status, is
   * scanned and `{ solved }` returned.
   */
  method Handle(req: Request, fetch: Fetch, startOfYesterday: int, startOfToday: int)
    returns (response: Response, requested: Option<string>)
    ensures !HasUser(req) ==> response == BadRequest(UserRequired) && requested == None
    ensures HasUser(req) ==> requested == req.user
    ensures HasUser(req) && fetch.FetchFailed? ==> response == ServerError(CrawlFailed, None)
    ensures HasUser(req) && fetch.Fetched? ==>
              response == SolvedFlag(FoundYesterday(fetch.rows, startOfYesterday, startOfToday))
  {
    if !HasUser(req) {
      return BadRequest(UserRequired), None;
    }
    requested := req.user;
    match fetch {
      case FetchFailed(_) =>
        response := ServerError(CrawlFailed, None);
      case Fetched(_, rows) =>
        var solved, _ := ScanYesterday(rows, startOfYesterday, startOfToday);
        response := SolvedFlag(solved);
    }
  }
}
