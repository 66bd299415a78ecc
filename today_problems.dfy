/**
 * `GET /api/today-problems?user=<id>&count=<n>`: the distinct problems a user
 * solved today, newest first, at most `count` of them.
 *
 * The window [startOfToday, startOfTomorrow) is given in epoch milliseconds;
 * the handler computes it from the host clock's local midnight.
 */
module TodayProblems {
  import opened Wrappers
  import opened Seqs
  import opened StatusTable

  const DefaultCount: int := 10
  const UserRequired: string := "user query parameter is required"

  /** A row without a timestamp, or one older than today, ends the scan. */
  predicate EndsScan(row: Row, startOfToday: int) {
    row.timestamp.None? || Before(row, startOfToday)
  }

  /** Index of the first row of `rows` that ends the scan, or `|rows|` when none does. */
  function FirstEnd(rows: seq<Row>, startOfToday: int): (k: nat)
    ensures k <= |rows|
    ensures forall j :: 0 <= j < k ==> !EndsScan(rows[j], startOfToday)
    ensures k < |rows| ==> EndsScan(rows[k], startOfToday)
  {
    if rows == [] || EndsScan(rows[0], startOfToday) then 0
    else 1 + FirstEnd(rows[1..], startOfToday)
  }

  /** How many leading rows the scan may use: up to the first row that ends it, within the probe limit. */
  function ScanEnd(rows: seq<Row>, startOfToday: int): (k: nat)
    ensures k <= ProbeLimit(rows)
    ensures forall j :: 0 <= j < k ==> !EndsScan(rows[j], startOfToday)
    ensures k < ProbeLimit(rows) ==> EndsScan(rows[k], startOfToday)
  {
    FirstEnd(rows[..ProbeLimit(rows)], startOfToday)
  }

  /** Problem ids of the first `n` rows that lie inside the window, in table order, repeats included. */
  function WindowIds(rows: seq<Row>, n: nat, start: int, end: int): (ids: seq<string>)
    requires n <= |rows|
    ensures |ids| <= n
  {
    if n == 0 then []
    else WindowIds(rows, n - 1, start, end) + (if InWindow(rows[n - 1], start, end) then [rows[n - 1].titleText] else [])
  }

  /** The ids are exactly those of the in-window rows among the first `n`. */
  lemma {:induction false} WindowIdsMembers(rows: seq<Row>, n: nat, start: int, end: int)
    requires n <= |rows|
    ensures forall id :: id in WindowIds(rows, n, start, end) ==>
              exists j :: 0 <= j < n && InWindow(rows[j], start, end) && rows[j].titleText == id
    ensures forall j :: 0 <= j < n && InWindow(rows[j], start, end) ==>
              rows[j].titleText in WindowIds(rows, n, start, end)
  {
    if n > 0 {
      WindowIdsMembers(rows, n - 1, start, end);
    }
  }

  /** The `results.length >= count` test stops after the first push when `count` is below one. */
  function Cap(count: int): (c: nat)
    ensures c >= 1
    ensures count >= 1 ==> c == count
  {
    if count >= 1 then count else 1
  }

  /**
   * What today-problems reports for a table: the first `Cap(count)` distinct ids
   * among the in-window rows that precede the first row ending the scan.
   */
  function TodayItemsOf(rows: seq<Row>, startOfToday: int, startOfTomorrow: int, count: int): seq<string> {
    Take(Dedup(WindowIds(rows, ScanEnd(rows, startOfToday), startOfToday, startOfTomorrow)), Cap(count))
  }

  /** Reading one more row adds its id when it lies in the window. */
  lemma WindowIdsStep(rows: seq<Row>, i: nat, start: int, end: int)
    requires i < |rows|
    ensures InWindow(rows[i], start, end) ==>
              WindowIds(rows, i + 1, start, end) == WindowIds(rows, i, start, end) + [rows[i].titleText]
    ensures !InWindow(rows[i], start, end) ==>
              WindowIds(rows, i + 1, start, end) == WindowIds(rows, i, start, end)
  {
    assert WindowIds(rows, i, start, end) + [] == WindowIds(rows, i, start, end);
  }

  /** The ids of a shorter prefix of the table begin the ids of a longer one. */
  lemma {:induction false} WindowIdsPrefix(rows: seq<Row>, a: nat, b: nat, start: int, end: int)
    requires a <= b <= |rows|
    ensures IsPrefix(WindowIds(rows, a, start, end), WindowIds(rows, b, start, end))
    decreases b - a
  {
    if a < b {
      WindowIdsPrefix(rows, a, b - 1, start, end);
      WindowIdsStep(rows, b - 1, start, end);
    }
  }

  /** Rows outside the window contribute no ids. */
  lemma {:induction false} WindowIdsUnchanged(rows: seq<Row>, a: nat, b: nat, start: int, end: int)
    requires a <= b <= |rows|
    requires forall j :: a <= j < b ==> !InWindow(rows[j], start, end)
    ensures WindowIds(rows, b, start, end) == WindowIds(rows, a, start, end)
    decreases b - a
  {
    if a < b {
      WindowIdsUnchanged(rows, a, b - 1, start, end);
      WindowIdsStep(rows, b - 1, start, end);
    }
  }

  /**
   * What the report promises: ids are pairwise distinct, there are at most
   * `count` of them (one when `count` is below one), each comes from a scanned
   * row inside [startOfToday, startOfTomorrow), and they are listed in the order
   * of their first in-window row; a scanned in-window row is dropped only when
   * its id was already reported, so when fewer than the cap come back every
   * such row's id is there.
   */
  lemma TodayItemsProperties(rows: seq<Row>, startOfToday: int, startOfTomorrow: int, count: int)
    ensures var items := TodayItemsOf(rows, startOfToday, startOfTomorrow, count);
      && Distinct(items)
      && |items| <= Cap(count)
      && (forall id :: id in items ==>
            exists j :: 0 <= j < ScanEnd(rows, startOfToday) && rows[j].titleText == id &&
                        rows[j].timestamp.Some? &&
                        startOfToday <= rows[j].timestamp.value * 1000 < startOfTomorrow)
      && (forall i, k :: 0 <= i < k < |items| ==>
            var ids := WindowIds(rows, ScanEnd(rows, startOfToday), startOfToday, startOfTomorrow);
            FirstSeenBefore(ids, items[i], items[k]))
      && (|items| < Cap(count) ==>
            forall j :: 0 <= j < ScanEnd(rows, startOfToday) && InWindow(rows[j], startOfToday, startOfTomorrow) ==>
              rows[j].titleText in items)
  {
    var n := ScanEnd(rows, startOfToday);
    var ids := WindowIds(rows, n, startOfToday, startOfTomorrow);
    var items := TodayItemsOf(rows, startOfToday, startOfTomorrow, count);
    DedupMembers(ids);
    TakeDistinct(Dedup(ids), Cap(count));
    DedupFirstSeenOrder(ids);
    WindowIdsMembers(rows, n, startOfToday, startOfTomorrow);
    forall id | id in items
      ensures exists j :: 0 <= j < n && rows[j].titleText == id && rows[j].timestamp.Some? &&
                          startOfToday <= rows[j].timestamp.value * 1000 < startOfTomorrow
    {
      assert id in ids;
      var j :| 0 <= j < n && InWindow(rows[j], startOfToday, startOfTomorrow) && rows[j].titleText == id;
    }
    if |items| < Cap(count) {
      assert items == Dedup(ids);
    }
  }

  /**
   * When the table is newest first and every probed row carries a timestamp,
   * stopping at the first row older than today loses no row of today: the scan
   * sees the same in-window ids as a scan of all probed rows.
   */
  lemma SortedScanMissesNothing(rows: seq<Row>, startOfToday: int, startOfTomorrow: int)
    requires Descending(rows)
    requires forall j :: 0 <= j < ProbeLimit(rows) ==> rows[j].timestamp.Some?
    ensures WindowIds(rows, ScanEnd(rows, startOfToday), startOfToday, startOfTomorrow) ==
            WindowIds(rows, ProbeLimit(rows), startOfToday, startOfTomorrow)
  {
    var n := ScanEnd(rows, startOfToday);
    var limit := ProbeLimit(rows);
    if n < limit {
      assert Before(rows[n], startOfToday);
      forall j | n <= j < limit
        ensures !InWindow(rows[j], startOfToday, startOfTomorrow)
      {
        assert rows[j].timestamp.value <= rows[n].timestamp.value;
      }
      WindowIdsUnchanged(rows, n, limit, startOfToday, startOfTomorrow);
    }
  }

  /** The loop state after reading the first `i` rows without reaching the cap. */
  predicate Scanned(rows: seq<Row>, startOfToday: int, startOfTomorrow: int, count: int,
                    i: nat, results: seq<string>)
  {
    && i <= ProbeLimit(rows)
    && (forall j :: 0 <= j < i ==> !EndsScan(rows[j], startOfToday))
    && results == Dedup(WindowIds(rows, i, startOfToday, startOfTomorrow))
    && |results| < Cap(count)
  }

  /** A row that does not end the scan and is outside the window, or repeats a kept id, changes nothing. */
  lemma SkipRow(rows: seq<Row>, startOfToday: int, startOfTomorrow: int, count: int,
                i: nat, results: seq<string>)
    requires Scanned(rows, startOfToday, startOfTomorrow, count, i, results)
    requires i < ProbeLimit(rows) && !EndsScan(rows[i], startOfToday)
    requires !InWindow(rows[i], startOfToday, startOfTomorrow) || rows[i].titleText in results
    ensures Scanned(rows, startOfToday, startOfTomorrow, count, i + 1, results)
  {
    WindowIdsStep(rows, i, startOfToday, startOfTomorrow);
    DedupSnoc(WindowIds(rows, i, startOfToday, startOfTomorrow), rows[i].titleText);
  }

  /** An in-window row with a new id appends that id. */
  lemma PushRow(rows: seq<Row>, startOfToday: int, startOfTomorrow: int, count: int,
                i: nat, results: seq<string>)
    requires Scanned(rows, startOfToday, startOfTomorrow, count, i, results)
    requires i < ProbeLimit(rows) && !EndsScan(rows[i], startOfToday)
    requires InWindow(rows[i], startOfToday, startOfTomorrow) && rows[i].titleText !in results
    ensures results + [rows[i].titleText] == Dedup(WindowIds(rows, i + 1, startOfToday, startOfTomorrow))
    ensures |results| + 1 < Cap(count) ==>
              Scanned(rows, startOfToday, startOfTomorrow, count, i + 1, results + [rows[i].titleText])
  {
    WindowIdsStep(rows, i, startOfToday, startOfTomorrow);
    DedupSnoc(WindowIds(rows, i, startOfToday, startOfTomorrow), rows[i].titleText);
  }

  /** A scan that stops at row `i` without reaching the cap has read exactly the rows up to `ScanEnd`. */
  lemma StoppedAtScanEnd(rows: seq<Row>, startOfToday: int, startOfTomorrow: int, count: int,
                         i: nat, results: seq<string>)
    requires Scanned(rows, startOfToday, startOfTomorrow, count, i, results)
    requires i == ProbeLimit(rows) || EndsScan(rows[i], startOfToday)
    ensures ScanEnd(rows, startOfToday) == i
    ensures results == TodayItemsOf(rows, startOfToday, startOfTomorrow, count)
  {
  }

  /** A scan that reaches the cap at row `i` has already collected everything the report holds. */
  lemma StoppedAtCap(rows: seq<Row>, startOfToday: int, startOfTomorrow: int, count: int,
                     i: nat, results: seq<string>)
    requires i < ProbeLimit(rows)
    requires forall j :: 0 <= j <= i ==> !EndsScan(rows[j], startOfToday)
    requires results == Dedup(WindowIds(rows, i + 1, startOfToday, startOfTomorrow))
    requires |results| == Cap(count)
    ensures results == TodayItemsOf(rows, startOfToday, startOfTomorrow, count)
  {
    var n := ScanEnd(rows, startOfToday);
    assert i < n;
    WindowIdsPrefix(rows, i + 1, n, startOfToday, startOfTomorrow);
    DedupPrefix(WindowIds(rows, i + 1, startOfToday, startOfTomorrow),
                WindowIds(rows, n, startOfToday, startOfTomorrow));
    TakeOfPrefix(results, Dedup(WindowIds(rows, n, startOfToday, startOfTomorrow)));
  }

  /**
   * The row loop of the handler: the scan stops at a missing row, at a row
   * without a timestamp, at a row older than today, after the 100th row, or
   * right after the push that reaches `count`.
   */
  method ScanToday(rows: seq<Row>, startOfToday: int, startOfTomorrow: int, count: int)
    returns (items: seq<string>)
    ensures items == TodayItemsOf(rows, startOfToday, startOfTomorrow, count)
  {
    var results: seq<string> := [];
    var seen: set<string> := {};
    var i := 0;
    while i < MaxProbedRows
      invariant Scanned(rows, startOfToday, startOfTomorrow, count, i, results)
      invariant forall x :: x in seen <==> x in results
    {
      if i >= |rows| {
        break; // no row at this position: end of the table
      }
      var row := rows[i];
      var problemId := row.titleText;
      if row.timestamp.None? {
        break;
      }
      var solvedAt := Millis(row.timestamp.value);
      if solvedAt < startOfToday {
        break;
      }
      if solvedAt >= startOfToday && solvedAt < startOfTomorrow {
        if problemId in seen {
          SkipRow(rows, startOfToday, startOfTomorrow, count, i, results);
          i := i + 1;
          continue;
        }
        PushRow(rows, startOfToday, startOfTomorrow, count, i, results);
        seen := seen + {problemId};
        results := results + [problemId];
        if |results| >= count {
          StoppedAtCap(rows, startOfToday, startOfTomorrow, count, i, results);
          return results;
        }
      } else {
        SkipRow(rows, startOfToday, startOfTomorrow, count, i, results);
      }
      i := i + 1;
    }
    StoppedAtScanEnd(rows, startOfToday, startOfTomorrow, count, i, results);
    return results;
  }

  /**
   * The handler: a request without `user` is answered 400 before any fetch;
   * otherwise the status page of that user is requested, and a failed request
   * gives 500. The HTTP status of the page is not checked: whatever page came
   * back is scanned.
   */
  method Handle(req: Request, fetch: Fetch, startOfToday: int, startOfTomorrow: int)
    returns (response: Response, requested: Option<string>)
    ensures !HasUser(req) ==> response == BadRequest(UserRequired) && requested == None
    ensures HasUser(req) ==> requested == req.user
    ensures HasUser(req) && fetch.FetchFailed? ==> response == ServerError(CrawlFailed, None)
    ensures HasUser(req) && fetch.Fetched? ==>
              response == TodayItems(TodayItemsOf(fetch.rows, startOfToday, startOfTomorrow,
                                                  CountOr(req, DefaultCount)))
  {
    if !HasUser(req) {
      return BadRequest(UserRequired), None;
    }
    requested := req.user;
    match fetch {
      case FetchFailed(_) =>
        response := ServerError(CrawlFailed, None);
      case Fetched(_, rows) =>
        var items := ScanToday(rows, startOfToday, startOfTomorrow, CountOr(req, DefaultCount));
        response := TodayItems(items);
    }
  }
}
