/** Paging through raw history by the last timestamp seen, while rows may arrive. Times are milliseconds. */
module CursorPaging {
  import opened Text

  /** The rows of one series by timestamp. */
  type Store = map<int, string>

  datatype Point = Point(ts: int, row: string)

  datatype Page = Page(points: seq<Point>, nextCursor: Option<int>)

  const DEFAULT_PAGE := 1000

  function Clamp(x: int, low: int, high: int): int {
    if x < low then low else if x > high then high else x
  }

  /** The largest row count one read may ask for: one below the limit at which the server refuses. */
  function MaxRowsPerQuery(serverLimit: int): int {
    if serverLimit - 1 < 1 then 1 else serverLimit - 1
  }

  function PageSize(maxCount: int, serverLimit: int): int {
    Clamp(if maxCount <= 0 then DEFAULT_PAGE else maxCount, 1, MaxRowsPerQuery(serverLimit))
  }

  /** The LIMIT the query carries; the query builder clamps the page size once more. */
  function SqlLimit(pageSize: int, serverLimit: int): int {
    Clamp(pageSize, 1, MaxRowsPerQuery(serverLimit))
  }

  function FromOf(start: int, cursor: Option<int>): int {
    if cursor.Some? && cursor.value >= start then cursor.value + 1 else start
  }

  /** The first rows, in time order, with from <= time < end. */
  function Query(store: Store, from: int, end: int, limit: int): seq<Point>
    decreases end - from
  {
    if from >= end || limit <= 0 then []
    else if from in store then [Point(from, store[from])] + Query(store, from + 1, end, limit - 1)
    else Query(store, from + 1, end, limit)
  }

  /** GET /raw/cursor */
  function ReadPage(store: Store, start: int, end: int, maxCount: int, cursor: Option<int>, serverLimit: int): Page {
    var size := PageSize(maxCount, serverLimit);
    var points := Query(store, FromOf(start, cursor), end, SqlLimit(size, serverLimit));
    Page(points, if |points| == size && |points| > 0 then Some(points[|points| - 1].ts) else None)
  }

  /** A page never reaches the server's row limit, for every requested size, exactly when that limit is at least 2. */
  lemma PageBelowServerLimit(maxCount: int, serverLimit: int)
    ensures 1 <= PageSize(maxCount, serverLimit) == SqlLimit(PageSize(maxCount, serverLimit), serverLimit)
    ensures PageSize(maxCount, serverLimit) < serverLimit <==> serverLimit >= 2
  {
  }

  /** The page size is what was asked for, or 1000, but never above one less than the server's limit. */
  lemma PageSizeIs(maxCount: int, serverLimit: int)
    ensures serverLimit < 2 ==> PageSize(maxCount, serverLimit) == 1
    ensures 1 <= maxCount < serverLimit ==> PageSize(maxCount, serverLimit) == maxCount
    ensures maxCount >= serverLimit >= 2 ==> PageSize(maxCount, serverLimit) == serverLimit - 1
    ensures maxCount <= 0 && serverLimit >= 2 ==> PageSize(maxCount, serverLimit) == if serverLimit <= 1000 then serverLimit - 1 else 1000
  {
  }

  predicate Rising(points: seq<Point>) {
    forall i, j :: 0 <= i < j < |points| ==> points[i].ts < points[j].ts
  }

  ghost predicate Returns(points: seq<Point>, t: int, row: string) {
    exists i :: 0 <= i < |points| && points[i] == Point(t, row)
  }

  /** A page is in time order and holds only rows of the range. */
  lemma {:induction false} QueryIs(store: Store, from: int, end: int, limit: int)
    ensures var p := Query(store, from, end, limit);
            && Rising(p) && (limit >= 0 ==> |p| <= limit)
            && (forall i :: 0 <= i < |p| ==> from + i <= p[i].ts < end && p[i].ts in store && p[i].row == store[p[i].ts])
    decreases end - from
  {
    if from < end && limit > 0 {
      if from in store {
        QueryIs(store, from + 1, end, limit - 1);
      } else {
        QueryIs(store, from + 1, end, limit);
      }
    }
  }

  /** It leaves out no row of the range, except behind its last when it is full. */
  lemma {:induction false} QueryComplete(store: Store, from: int, end: int, limit: int, t: int)
    requires limit > 0 && from <= t < end && t in store
    ensures var p := Query(store, from, end, limit);
            Returns(p, t, store[t]) || (|p| == limit && p[|p| - 1].ts < t)
    decreases end - from
  {
    var p := Query(store, from, end, limit);
    if from in store {
      var rest := Query(store, from + 1, end, limit - 1);
      assert p[0] == Point(from, store[from]) && p == [p[0]] + rest;
      if t > from && limit > 1 {
        QueryComplete(store, from + 1, end, limit - 1, t);
        if Returns(rest, t, store[t]) {
          var i :| 0 <= i < |rest| && rest[i] == Point(t, store[t]);
          assert p[i + 1] == Point(t, store[t]);
        }
      }
    } else {
      QueryComplete(store, from + 1, end, limit, t);
    }
  }

  /** The pages a caller gets that passes each cursor on; page k is read from the store as it is then. */
  function Walk(stores: nat -> Store, k: nat, start: int, end: int, size: int, cursor: Option<int>): seq<Page>
    requires size >= 1
    decreases end - FromOf(start, cursor)
  {
    var from := FromOf(start, cursor);
    var points := Query(stores(k), from, end, size);
    if |points| == size then
      QueryIs(stores(k), from, end, size);
      [Page(points, Some(points[size - 1].ts))] + Walk(stores, k + 1, start, end, size, Some(points[size - 1].ts))
    else [Page(points, None)]
  }

  /** The walk is what the endpoint answers, page by page. */
  lemma WalkIsReadPage(stores: nat -> Store, k: nat, start: int, end: int, maxCount: int, cursor: Option<int>, serverLimit: int)
    ensures var page := ReadPage(stores(k), start, end, maxCount, cursor, serverLimit);
            var walk := Walk(stores, k, start, end, PageSize(maxCount, serverLimit), cursor);
            walk == if page.nextCursor.None? then [page]
                    else [page] + Walk(stores, k + 1, start, end, PageSize(maxCount, serverLimit), page.nextCursor)
  {
    PageBelowServerLimit(maxCount, serverLimit);
  }

  function AllPoints(pages: seq<Page>): seq<Point> {
    if pages == [] then [] else pages[0].points + AllPoints(pages[1..])
  }

  /** The read that covers time t: the first one whose page ends at t or later. */
  function ReaderOf(stores: nat -> Store, k: nat, start: int, end: int, size: int, cursor: Option<int>, t: int): nat
    requires size >= 1
    decreases end - FromOf(start, cursor)
  {
    var from := FromOf(start, cursor);
    var points := Query(stores(k), from, end, size);
    if |points| == size && points[size - 1].ts < t then
      QueryIs(stores(k), from, end, size);
      ReaderOf(stores, k + 1, start, end, size, Some(points[size - 1].ts), t)
    else k
  }

  /** One turn of the walk: the page it reads, and what is left of the walk. */
  lemma WalkUnfold(stores: nat -> Store, k: nat, start: int, end: int, size: int, cursor: Option<int>)
    requires size >= 1
    ensures var from := FromOf(start, cursor);
            var points := Query(stores(k), from, end, size);
            var walk := Walk(stores, k, start, end, size, cursor);
            if |points| < size then
              walk == [Page(points, None)] && AllPoints(walk) == points
            else
              |points| == size && from <= points[size - 1].ts < end && from + size <= points[size - 1].ts + 1 &&
              var rest := Walk(stores, k + 1, start, end, size, Some(points[size - 1].ts));
              walk == [Page(points, Some(points[size - 1].ts))] + rest && AllPoints(walk) == points + AllPoints(rest)
  {
    QueryIs(stores(k), FromOf(start, cursor), end, size);
    hide Query;
    var walk := Walk(stores, k, start, end, size, cursor);
    assert AllPoints([]) == [];
    assert walk[0].points + [] == walk[0].points;
  }

  /** A walk returns everything in strictly rising time, so nothing twice. */
  lemma {:induction false} WalkRising(stores: nat -> Store, k: nat, start: int, end: int, size: int, cursor: Option<int>)
    requires size >= 1
    ensures var all := AllPoints(Walk(stores, k, start, end, size, cursor));
            Rising(all) && forall i :: 0 <= i < |all| ==> FromOf(start, cursor) <= all[i].ts < end
    decreases end - FromOf(start, cursor)
  {
    WalkUnfold(stores, k, start, end, size, cursor);
    var from := FromOf(start, cursor);
    var points := Query(stores(k), from, end, size);
    QueryIs(stores(k), from, end, size);
    hide Query, Walk, AllPoints;
    if |points| == size {
      WalkRising(stores, k + 1, start, end, size, Some(points[size - 1].ts));
    }
  }

  /** The walk returns time t exactly when the row is there at the read that covers t, with the row of that moment. */
  lemma {:induction false} WalkExact(stores: nat -> Store, k: nat, start: int, end: int, size: int, cursor: Option<int>,
                                     t: int, row: string)
    requires size >= 1 && FromOf(start, cursor) <= t < end
    ensures Returns(AllPoints(Walk(stores, k, start, end, size, cursor)), t, row) <==>
            var store := stores(ReaderOf(stores, k, start, end, size, cursor, t)); t in store && store[t] == row
    decreases end - FromOf(start, cursor)
  {
    WalkUnfold(stores, k, start, end, size, cursor);
    var from := FromOf(start, cursor);
    var points := Query(stores(k), from, end, size);
    PageReturns(stores(k), from, end, size, points, t, row);
    hide Query, Walk, AllPoints, Returns;
    if |points| == size {
      var last := points[size - 1].ts;
      var rest := AllPoints(Walk(stores, k + 1, start, end, size, Some(last)));
      ReturnsSum(points, rest, t, row);
      if last < t {
        WalkExact(stores, k + 1, start, end, size, Some(last), t, row);
      } else {
        WalkRising(stores, k + 1, start, end, size, Some(last));
        NotBefore(rest, last + 1, t, row);
      }
    }
  }

  lemma NotBefore(points: seq<Point>, from: int, t: int, row: string)
    requires t < from && forall i :: 0 <= i < |points| ==> from <= points[i].ts
    ensures !Returns(points, t, row)
  {
  }

  lemma ReturnsSum(a: seq<Point>, b: seq<Point>, t: int, row: string)
    ensures Returns(a + b, t, row) <==> Returns(a, t, row) || Returns(b, t, row)
  {
    var s := a + b;
    assert forall i :: 0 <= i < |a| ==> s[i] == a[i];
    assert forall i :: 0 <= i < |b| ==> s[|a| + i] == b[i];
  }

  /** Within the range it covers, a page returns exactly the rows the store holds. */
  lemma PageReturns(store: Store, from: int, end: int, size: int, points: seq<Point>, t: int, row: string)
    requires size >= 1 && points == Query(store, from, end, size) && from <= t < end
    ensures |points| == size && t > points[size - 1].ts ==> !Returns(points, t, row)
    ensures |points| < size || t <= points[|points| - 1].ts ==> (Returns(points, t, row) <==> t in store && store[t] == row)
  {
    QueryIs(store, from, end, size);
    if t in store {
      QueryComplete(store, from, end, size, t);
    }
    hide Query;
  }

  /** A row that is there throughout, unchanged, is returned. */
  lemma PresentIsReturned(stores: nat -> Store, start: int, end: int, size: int, t: int, row: string)
    requires size >= 1 && start <= t < end && forall k :: t in stores(k) && stores(k)[t] == row
    ensures Returns(AllPoints(Walk(stores, 0, start, end, size, None)), t, row)
  {
    WalkExact(stores, 0, start, end, size, None, t, row);
  }

  /** How much of a window a number of full pages takes. */
  function Taken(pages: int, size: int): int {
    pages * size
  }

  /** Every page but the last takes its full size out of the window, so the walk ends. */
  lemma {:induction false} WalkEnds(stores: nat -> Store, k: nat, start: int, end: int, size: int, cursor: Option<int>)
    requires size >= 1 && FromOf(start, cursor) <= end
    ensures var walk := Walk(stores, k, start, end, size, cursor);
            && |walk| >= 1 && Taken(|walk| - 1, size) <= end - FromOf(start, cursor)
            && walk[|walk| - 1].nextCursor.None?
    decreases end - FromOf(start, cursor)
  {
    WalkUnfold(stores, k, start, end, size, cursor);
    var from := FromOf(start, cursor);
    var points := Query(stores(k), from, end, size);
    var walk := Walk(stores, k, start, end, size, cursor);
    OneMorePage(|walk| - 1, size);
    hide Query, Walk, AllPoints, Taken;
    if |points| == size {
      var last := points[size - 1].ts;
      WalkEnds(stores, k + 1, start, end, size, Some(last));
    }
  }

  lemma OneMorePage(pages: int, size: int)
    ensures Taken(pages, size) == Taken(pages - 1, size) + size && Taken(0, size) == 0
  {
  }
}
