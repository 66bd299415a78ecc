/**
 * `GET /api/recent-problems?user=<id>&count=<n>`: the user's `count` most
 * recent distinct accepted problems, with no date filter and no row cap.
 */
module RecentProblems {
  import opened Wrappers
  import opened Seqs
  import opened StatusTable

  const DefaultCount: int := 20
  const UserRequired: string := "Missing 'user' parameter"

  /** The third-cell text of every row, in table order. */
  function CellIds(rows: seq<Row>): (ids: seq<string>)
    ensures |ids| == |rows|
  {
    if rows == [] then [] else CellIds(rows[..|rows| - 1]) + [rows[|rows| - 1].cellText]
  }

  /** Position `j` of the ids is the cell text of row `j`. */
  lemma {:induction false} CellIdsAt(rows: seq<Row>, j: nat)
    requires j < |rows|
    ensures CellIds(rows)[j] == rows[j].cellText
  {
    if j < |rows| - 1 {
      CellIdsAt(rows[..|rows| - 1], j);
    }
  }

  /** The ids of the first `k` rows are the first `k` ids. */
  lemma CellIdsPrefix(rows: seq<Row>, k: nat)
    requires k <= |rows|
    ensures IsPrefix(CellIds(rows[..k]), CellIds(rows))
  {
    forall j | 0 <= j < k
      ensures CellIds(rows[..k])[j] == CellIds(rows)[j]
    {
      CellIdsAt(rows[..k], j);
      CellIdsAt(rows, j);
    }
  }

  /** What recent-problems reports: the first `count` distinct cell ids (none when `count` is below one). */
  function RecentItemsOf(rows: seq<Row>, count: int): seq<string> {
    Take(Dedup(CellIds(rows)), count)
  }

  /** When the loop stops, at the end of the table or at the cap, it holds the report. */
  lemma RecentStopped(rows: seq<Row>, count: int, rowIndex: nat, results: seq<string>)
    requires rowIndex <= |rows|
    requires results == Dedup(CellIds(rows[..rowIndex]))
    requires count >= 0 ==> |results| <= count
    requires count < 0 ==> results == []
    requires rowIndex == |rows| || |results| >= count
    ensures results == RecentItemsOf(rows, count)
  {
    assert rows[..|rows|] == rows;
    if rowIndex < |rows| {
      CellIdsPrefix(rows, rowIndex);
      DedupPrefix(CellIds(rows[..rowIndex]), CellIds(rows));
      TakeOfPrefix(results, Dedup(CellIds(rows)));
    }
  }

  /**
   * The loop of the handler: read rows in order, append each id not yet seen,
   * stop at the first missing row or once `count` ids are collected. The index
   * moves one row per iteration, so any finite table ends the loop.
   */
  method ScanRecent(rows: seq<Row>, count: int) returns (items: seq<string>)
    ensures items == RecentItemsOf(rows, count)
  {
    var results: seq<string> := [];
    var seen: set<string> := {};
    var rowIndex := 0;
    assert rows[..rowIndex] == [];
    while |results| < count
      invariant 0 <= rowIndex <= |rows|
      invariant results == Dedup(CellIds(rows[..rowIndex]))
      invariant forall x :: x in seen <==> x in results
      invariant count >= 0 ==> |results| <= count
      invariant count < 0 ==> results == []
      decreases |rows| - rowIndex
    {
      if rowIndex >= |rows| {
        // no row at this position: end of the table
        break;
      }
      var problemId := rows[rowIndex].cellText;
      assert CellIds(rows[..rowIndex + 1]) == CellIds(rows[..rowIndex]) + [problemId] by {
        assert rows[..rowIndex + 1][..rowIndex] == rows[..rowIndex];
      }
      DedupSnoc(CellIds(rows[..rowIndex]), problemId);
      if problemId !in seen {
        seen := seen + {problemId};
        results := results + [problemId];
      }
      rowIndex := rowIndex + 1;
    }
    RecentStopped(rows, count, rowIndex, results);
    items := results;
  }

  /**
   * The report holds pairwise distinct ids, at most `count` of them, in the
   * order of their first row; a row is dropped only when its id was already
   * reported, so when fewer than `count` ids come back every row's id is there.
   */
  lemma RecentItemsProperties(rows: seq<Row>, count: int)
    ensures var items := RecentItemsOf(rows, count);
      && Distinct(items)
      && |items| <= (if count < 0 then 0 else count)
      && (forall id :: id in items ==> exists j :: 0 <= j < |rows| && rows[j].cellText == id)
      && (forall i, k :: 0 <= i < k < |items| ==>
            FirstSeenBefore(CellIds(rows), items[i], items[k]))
      && (|items| < count ==> forall j :: 0 <= j < |rows| ==> rows[j].cellText in items)
  {
    var ids := CellIds(rows);
    var items := RecentItemsOf(rows, count);
    DedupMembers(ids);
    TakeDistinct(Dedup(ids), count);
    DedupFirstSeenOrder(ids);
    forall id | id in items
      ensures exists j :: 0 <= j < |rows| && rows[j].cellText == id
    {
      var j := FirstIndex(ids, id);
      CellIdsAt(rows, j);
    }
    if |items| < count {
      forall j | 0 <= j < |rows|
        ensures rows[j].cellText in items
      {
        CellIdsAt(rows, j);
        assert ids[j] in Dedup(ids);
      }
    }
  }

  /**
   * The handler: a request without `user` is answered 400 before any fetch; a
   * failed request or a non-OK status gives 500 with the error's message as
   * `detail` and no items.
   */
  method Handle(req: Request, fetch: Fetch) returns (response: Response, requested: Option<string>)
    ensures !HasUser(req) ==> response == BadRequest(UserRequired) && requested == None
    ensures HasUser(req) ==> requested == req.user
    ensures HasUser(req) && fetch.FetchFailed? ==> response == ServerError(CrawlFailed, Some(fetch.message))
    ensures HasUser(req) && fetch.Fetched? && !IsOk(fetch.status) ==>
              response == ServerError(CrawlFailed, Some(StatusErrorMessage(fetch.status)))
    ensures HasUser(req) && fetch.Fetched? && IsOk(fetch.status) ==>
              response.RecentItems? &&
              |response.recent| == |RecentItemsOf(fetch.rows, CountOr(req, DefaultCount))| &&
              forall i :: 0 <= i < |response.recent| ==>
                response.recent[i] == ProblemRef(RecentItemsOf(fetch.rows, CountOr(req, DefaultCount))[i])
  {
    if !HasUser(req) {
      return BadRequest(UserRequired), None;
    }
    requested := req.user;
    match fetch {
      case FetchFailed(message) =>
        response := ServerError(CrawlFailed, Some(message));
      case Fetched(status, rows) =>
        if !IsOk(status) {
          response := ServerError(CrawlFailed, Some(StatusErrorMessage(status)));
        } else {
          var ids := ScanRecent(rows, CountOr(req, DefaultCount));
          response := RecentItems(seq(|ids|, i requires 0 <= i < |ids| => ProblemRef(ids[i])));
        }
    }
  }
}
