/** Message rows, cursors and the cursor query on a fixed table
    (crates/store/src/ops/messages.rs, crates/store/src/types/message.rs). */
module Messages {
  import opened Outcomes
  import opened Queries

  datatype NewMessage = NewMessage(
    id: string, group: string, channel: string, sender: string, content: string, createdAt: int)

  /** A row of the table. `writer` is the transaction that inserted it. */
  datatype Row = Row(seqNo: int, msg: NewMessage, writer: nat)

  /** An exclusive lower bound on `seqNo`. */
  datatype Cursor = Cursor(seqNo: int) {
    static function Beginning(): Cursor { Cursor(0) }
    static function After(seqNo: int): Cursor { Cursor(seqNo) }
  }

  predicate BySeq(a: Row, b: Row) { a.seqNo < b.seqNo }

  predicate Wanted(group: string, cursor: Cursor, row: Row) {
    row.msg.group == group && row.seqNo > cursor.seqNo
  }

  /** Everything of the group after the cursor, in `seq` order. */
  function Since(rows: seq<Row>, group: string, cursor: Cursor): seq<Row> {
    Sort(Filter(rows, row => Wanted(group, cursor, row)), BySeq)
  }

  function GetMessagesSince(rows: seq<Row>, group: string, cursor: Cursor, limit: Limit): Result<seq<Row>> {
    match ClampedTake(limit)
    case Err(error) => Err(error)
    case Ok(take) =>
      if take == 0 then Ok([])
      else Ok(Select(rows, row => Wanted(group, cursor, row), BySeq, take))
  }

  /** The caller's next cursor: after the last row of the page, if there is one. */
  function NextCursor(cursor: Cursor, page: seq<Row>): Cursor {
    if page == [] then cursor else Cursor.After(page[|page| - 1].seqNo)
  }

  /** `seq` is a primary key and starts at 1. */
  ghost predicate Table(rows: seq<Row>) {
    && (forall i, j | 0 <= i < j < |rows| :: rows[i].seqNo != rows[j].seqNo)
    && (forall i | 0 <= i < |rows| :: rows[i].seqNo >= 1)
  }

  lemma SinceIsAscending(rows: seq<Row>, group: string, cursor: Cursor)
    requires Table(rows)
    ensures Ascending(Since(rows, group, cursor), BySeq)
    ensures forall row :: row in Since(rows, group, cursor) <==> row in rows && Wanted(group, cursor, row)
  {
    var keep := row => Wanted(group, cursor, row);
    FilterKeepsPairs(rows, keep, (a, b) => BySeq(a, b) || BySeq(b, a));
    SortIsAscending(Filter(rows, keep), BySeq);
    SameElements(Since(rows, group, cursor), Filter(rows, keep));
  }

  lemma InSuffix(all: seq<Row>, n: nat, row: Row)
    requires Ascending(all, BySeq) && n <= |all|
    ensures row in all[n..] <==> row in all && (n == 0 || row.seqNo > all[n - 1].seqNo)
  {
    if row in all {
      var i :| 0 <= i < |all| && all[i] == row;
      assert i >= n > 0 ==> BySeq(all[n - 1], all[i]);
      assert i >= n ==> all[n..][i - n] == row;
      assert i < n - 1 ==> BySeq(all[i], all[n - 1]);
    }
    assert row in all[n..] ==> row in all;
  }

  lemma CursorAfterPrefix(all: seq<Row>, cursor: Cursor, n: nat)
    requires n <= |all|
    ensures NextCursor(cursor, all[..n]) == if n == 0 then cursor else Cursor.After(all[n - 1].seqNo)
  {}

  /** What is left after a page is what follows it. */
  lemma SinceAfterPage(rows: seq<Row>, group: string, cursor: Cursor, all: seq<Row>, n: nat)
    requires Table(rows) && all == Since(rows, group, cursor) && n <= |all|
    ensures Since(rows, group, NextCursor(cursor, all[..n])) == all[n..]
  {
    var next := NextCursor(cursor, all[..n]);
    CursorAfterPrefix(all, cursor, n);
    SinceIsAscending(rows, group, cursor);
    SinceIsAscending(rows, group, next);
    assert n > 0 ==> all[n - 1] in all;
    forall row ensures row in all[n..] <==> row in Since(rows, group, next) {
      InSuffix(all, n, row);
    }
    AscendingIsUnique(all[n..], Since(rows, group, next), BySeq);
  }

  /** Negative limits and only those are errors; a page is never longer than the limit or
      the cap, and a shorter one holds everything there was. */
  lemma OnlyNegativeLimitsFail(rows: seq<Row>, group: string, cursor: Cursor, limit: Limit)
    ensures GetMessagesSince(rows, group, cursor, limit) == Err(InvalidLimit) <==> limit < 0
    ensures limit >= 0 ==>
              var answer, all := GetMessagesSince(rows, group, cursor, limit), Since(rows, group, cursor);
              && answer.Ok? && answer.value <= all
              && |answer.value| <= limit as int && |answer.value| <= 10_000
              && (answer.value == all || |answer.value| == limit as int || |answer.value| == 10_000)
  {
    ClampedTakeBounds(limit);
  }

  /** From the beginning, position 0, nothing of the group is missed. */
  lemma BeginningSeesEverything(rows: seq<Row>, group: string)
    requires Table(rows)
    ensures Cursor.Beginning() == Cursor(0)
    ensures forall row :: row in Since(rows, group, Cursor.Beginning()) <==> row in rows && row.msg.group == group
  {
    SinceIsAscending(rows, group, Cursor.Beginning());
  }

  // ---- Paging through a fixed table ----

  lemma PageIsPrefix(rows: seq<Row>, group: string, cursor: Cursor, limit: Limit)
    requires limit > 0
    ensures GetMessagesSince(rows, group, cursor, limit) == Ok(Take(Since(rows, group, cursor), NextTake(limit)))
    ensures NextTake(limit) > 0
  {}

  /** Repeated calls, each resuming after the last row of the page before it. */
  function PageThrough(rows: seq<Row>, group: string, cursor: Cursor, limits: seq<Limit>): seq<Row>
    requires AllPositive(limits)
    decreases |limits|
  {
    if limits == [] then []
    else
      var page := GetMessagesSince(rows, group, cursor, limits[0]).value;
      page + PageThrough(rows, group, NextCursor(cursor, page), limits[1..])
  }

  /** One page: the first rows of what is left, and what is left afterwards. */
  lemma OnePage(rows: seq<Row>, group: string, cursor: Cursor, limit: Limit, all: seq<Row>) returns (page: seq<Row>)
    requires Table(rows) && limit > 0 && all == Since(rows, group, cursor)
    ensures page == Take(all, NextTake(limit)) && NextTake(limit) > 0
    ensures GetMessagesSince(rows, group, cursor, limit) == Ok(page)
    ensures Since(rows, group, NextCursor(cursor, page)) == all[|page|..]
  {
    PageIsPrefix(rows, group, cursor, limit);
    var n := NextTake(limit);
    page := Take(all, n);
    assert all[..|all|] == all;
    SinceAfterPage(rows, group, cursor, all, if n <= |all| then n else |all|);
  }

  /** A first page and what the remaining pages return, put together. */
  lemma PagesCompose(
    rows: seq<Row>, group: string, cursor: Cursor, limits: seq<Limit>, all: seq<Row>, page: seq<Row>, rest: seq<Row>)
    requires AllPositive(limits) && limits != []
    requires GetMessagesSince(rows, group, cursor, limits[0]) == Ok(page)
    requires rest == PageThrough(rows, group, NextCursor(cursor, page), limits[1..])
    requires page == Take(all, NextTake(limits[0])) && rest == Take(all[|page|..], TotalTake(limits[1..]))
    ensures PageThrough(rows, group, cursor, limits) == Take(all, TotalTake(limits))
  {
    TakeTwice(all, NextTake(limits[0]), TotalTake(limits[1..]));
  }

  /** However the reads are cut into pages, together they return the next rows in order,
      as many as the clamped limits add up to: no gap, no repetition. */
  lemma {:induction false} PagesConcatenate(rows: seq<Row>, group: string, cursor: Cursor, limits: seq<Limit>)
    requires Table(rows) && AllPositive(limits)
    ensures PageThrough(rows, group, cursor, limits) == Take(Since(rows, group, cursor), TotalTake(limits))
    decreases |limits|
  {
    if limits != [] {
      var all := Since(rows, group, cursor);
      var page := OnePage(rows, group, cursor, limits[0], all);
      var next := NextCursor(cursor, page);
      PagesConcatenate(rows, group, next, limits[1..]);
      PagesCompose(rows, group, cursor, limits, all, page, PageThrough(rows, group, next, limits[1..]));
    }
  }

  /** Paging drains: once the clamped limits add up to the number of rows, every page size
      has delivered the whole group in `seq` order. Any |group| many positive limits do. */
  lemma PagingDrains(rows: seq<Row>, group: string, limits: seq<Limit>)
    requires Table(rows) && AllPositive(limits)
    requires |limits| >= |Since(rows, group, Cursor.Beginning())|
    ensures PageThrough(rows, group, Cursor.Beginning(), limits) == Since(rows, group, Cursor.Beginning())
  {
    PagesConcatenate(rows, group, Cursor.Beginning(), limits);
    TotalTakeGrows(limits);
  }

  /** A page leaves nothing behind exactly when the clamped limit covers what was there; so
      a page shorter than the clamped limit is the last one. */
  lemma ShortPageIsLast(rows: seq<Row>, group: string, cursor: Cursor, limit: Limit)
    requires Table(rows) && limit > 0
    ensures var page := GetMessagesSince(rows, group, cursor, limit).value;
            && (Since(rows, group, NextCursor(cursor, page)) == [] <==> |Since(rows, group, cursor)| <= NextTake(limit))
            && (|page| < NextTake(limit) ==> Since(rows, group, NextCursor(cursor, page)) == [])
  {
    var page := OnePage(rows, group, cursor, limit, Since(rows, group, cursor));
  }
}
