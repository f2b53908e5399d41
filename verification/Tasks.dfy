/** Scheduled tasks: stored encodings, the due query, and recording of runs
    (crates/store/src/ops/tasks.rs, crates/store/src/types/task.rs). */
module Tasks {
  import opened Outcomes
  import opened Queries

  datatype ScheduleKind = Cron | Interval | Once

  datatype TaskStatus = Active | Paused | Completed | Failed

  function KindAsStr(k: ScheduleKind): string {
    match k
    case Cron => "cron"
    case Interval => "interval"
    case Once => "once"
  }

  function KindFromStr(s: string): Option<ScheduleKind> {
    if s == "cron" then Some(Cron)
    else if s == "interval" then Some(Interval)
    else if s == "once" then Some(Once)
    else None
  }

  function StatusAsStr(status: TaskStatus): string {
    match status
    case Active => "active"
    case Paused => "paused"
    case Completed => "completed"
    case Failed => "failed"
  }

  function StatusFromStr(s: string): Option<TaskStatus> {
    if s == "active" then Some(Active)
    else if s == "paused" then Some(Paused)
    else if s == "completed" then Some(Completed)
    else if s == "failed" then Some(Failed)
    else None
  }

  /** Parsing inverts the encoding and accepts exactly the seven texts of the columns. */
  lemma EncodingsAreExact(s: string, kind: ScheduleKind, status: TaskStatus)
    ensures KindFromStr(s) == Some(kind) <==> s == KindAsStr(kind)
    ensures StatusFromStr(s) == Some(status) <==> s == StatusAsStr(status)
    ensures KindFromStr(s) == Some(Cron) <==> s == "cron"
    ensures KindFromStr(s) == Some(Interval) <==> s == "interval"
    ensures KindFromStr(s) == Some(Once) <==> s == "once"
    ensures StatusFromStr(s) == Some(Active) <==> s == "active"
    ensures StatusFromStr(s) == Some(Paused) <==> s == "paused"
    ensures StatusFromStr(s) == Some(Completed) <==> s == "completed"
    ensures StatusFromStr(s) == Some(Failed) <==> s == "failed"
  {
    assert "cron"[0] == 'c' && "interval"[0] == 'i' && "once"[0] == 'o';
    assert "active"[0] == 'a' && "paused"[0] == 'p' && "completed"[0] == 'c' && "failed"[0] == 'f';
  }

  datatype NewTask = NewTask(
    group: string, prompt: string, kind: ScheduleKind, schedule: string, status: TaskStatus, nextRun: Option<int>)

  datatype RunOutcome = Success(detail: Option<string>) | Failure(error: string)

  datatype TaskRunResult = TaskRunResult(
    ranAt: int, outcome: RunOutcome, nextRun: Option<int>, status: TaskStatus)

  /** A row as the database holds it: kind and status are text. */
  datatype TaskRow = TaskRow(
    id: string, group: string, prompt: string, kind: string, schedule: string, status: string,
    nextRun: Option<int>, lastResult: Option<string>, createdAt: int, updatedAt: int)

  datatype StoredTask = StoredTask(
    id: string, group: string, prompt: string, kind: ScheduleKind, schedule: string, status: TaskStatus,
    nextRun: Option<int>, lastResult: Option<string>, createdAt: int, updatedAt: int)

  /** What the database brings along: its collation of ids, and the JSON text of a result. */
  datatype Backend = Backend(before: (string, string) -> bool, encode: TaskRunResult -> string)

  ghost predicate IsBackend(db: Backend) {
    StrictOrder(db.before) && forall a: string, b: string | a != b :: db.before(a, b) || db.before(b, a)
  }

  // ---- Rows ----

  function InitialRow(id: string, task: NewTask, now: int): TaskRow {
    TaskRow(id, task.group, task.prompt, KindAsStr(task.kind), task.schedule, StatusAsStr(task.status),
            task.nextRun, None, now, now)
  }

  /** The columns that a recorded run sets. */
  function Recorded(db: Backend, row: TaskRow, result: TaskRunResult): TaskRow {
    row.(status := StatusAsStr(result.status), nextRun := result.nextRun,
         lastResult := Some(db.encode(result)), updatedAt := result.ranAt)
  }

  function RowToStored(row: TaskRow): Result<StoredTask> {
    match KindFromStr(row.kind)
    case None => Err(SchemaDrift("schedule_kind"))
    case Some(kind) =>
      match StatusFromStr(row.status)
      case None => Err(SchemaDrift("status"))
      case Some(status) =>
        Ok(StoredTask(row.id, row.group, row.prompt, kind, row.schedule, status,
                         row.nextRun, row.lastResult, row.createdAt, row.updatedAt))
  }

  /** `collect`: the first error, or everything. */
  function RowsToStored(rows: seq<TaskRow>): Result<seq<StoredTask>> {
    if rows == [] then Ok([])
    else
      match RowToStored(rows[0])
      case Err(error) => Err(error)
      case Ok(task) =>
        match RowsToStored(rows[1..])
        case Err(error) => Err(error)
        case Ok(tasks) => Ok([task] + tasks)
  }

  predicate Parses(row: TaskRow) {
    KindFromStr(row.kind).Some? && StatusFromStr(row.status).Some?
  }

  /** The task a row stands for, read the other way round. */
  predicate StandsFor(row: TaskRow, task: StoredTask) {
    row == TaskRow(task.id, task.group, task.prompt, KindAsStr(task.kind), task.schedule, StatusAsStr(task.status),
                   task.nextRun, task.lastResult, task.createdAt, task.updatedAt)
  }

  /** Decoding succeeds exactly on the known texts and loses nothing; otherwise it names the
      column, the kind before the status. */
  lemma StoredStandsForRow(row: TaskRow)
    ensures Parses(row) <==> RowToStored(row).Ok?
    ensures Parses(row) ==> StandsFor(row, RowToStored(row).value)
    ensures RowToStored(row) == Err(SchemaDrift("schedule_kind")) <==> row.kind !in {"cron", "interval", "once"}
    ensures RowToStored(row) == Err(SchemaDrift("status")) <==>
            && row.kind in {"cron", "interval", "once"}
            && row.status !in {"active", "paused", "completed", "failed"}
  {
    EncodingsAreExact(row.kind, Cron, Active);
    EncodingsAreExact(row.status, Cron, Active);
    assert |"schedule_kind"| != |"status"|;
    if Parses(row) {
      EncodingsAreExact(row.kind, KindFromStr(row.kind).value, Active);
      EncodingsAreExact(row.status, Cron, StatusFromStr(row.status).value);
    }
  }

  /** Create, then read: the task comes back as it was given. */
  lemma CreatedTaskReadsBack(id: string, task: NewTask, now: int)
    ensures RowToStored(InitialRow(id, task, now))
            == Ok(StoredTask(id, task.group, task.prompt, task.kind, task.schedule, task.status,
                             task.nextRun, None, now, now))
  {
    EncodingsAreExact(KindAsStr(task.kind), task.kind, task.status);
    EncodingsAreExact(StatusAsStr(task.status), task.kind, task.status);
  }

  /** Record a run, then read: the result's status, next run and time, its text as last
      result, and everything else as before. An unknown status is repaired by this, an
      unknown kind is not. */
  lemma RecordedRunReadsBack(db: Backend, row: TaskRow, result: TaskRunResult)
    ensures RowToStored(Recorded(db, row, result))
            == match KindFromStr(row.kind)
               case None => Err(SchemaDrift("schedule_kind"))
               case Some(kind) =>
                 Ok(StoredTask(row.id, row.group, row.prompt, kind, row.schedule, result.status, result.nextRun,
                               Some(db.encode(result)), row.createdAt, result.ranAt))
  {
    EncodingsAreExact(StatusAsStr(result.status), Cron, result.status);
  }

  // ---- The due query ----

  predicate IsDue(row: TaskRow, now: int) {
    row.status == StatusAsStr(Active) && row.nextRun.Some? && row.nextRun.value <= now
  }

  function RunTime(row: TaskRow): int {
    if row.nextRun.Some? then row.nextRun.value else 0
  }

  /** `(next_run ASC, id ASC)`; rows without a next run never reach the sort. */
  predicate RunsBefore(db: Backend, a: TaskRow, b: TaskRow) {
    RunTime(a) < RunTime(b) || (RunTime(a) == RunTime(b) && db.before(a.id, b.id))
  }

  function Order(db: Backend): (TaskRow, TaskRow) -> bool {
    (a, b) => RunsBefore(db, a, b)
  }

  function Due(db: Backend, rows: seq<TaskRow>, now: int): seq<TaskRow> {
    Sort(Filter(rows, (row: TaskRow) => IsDue(row, now)), Order(db))
  }

  function GetDueTasks(db: Backend, rows: seq<TaskRow>, now: int, limit: Limit): Result<seq<StoredTask>> {
    match ClampedTake(limit)
    case Err(error) => Err(error)
    case Ok(take) =>
      if take == 0 then Ok([])
      else RowsToStored(Select(rows, (row: TaskRow) => IsDue(row, now), Order(db), take))
  }

  /** `id` is the primary key. */
  ghost predicate UniqueIds(rows: seq<TaskRow>) {
    forall i, j | 0 <= i < j < |rows| :: rows[i].id != rows[j].id
  }

  ghost predicate AllParse(rows: seq<TaskRow>) {
    forall i | 0 <= i < |rows| :: Parses(rows[i])
  }

  lemma OrderIsStrict(db: Backend)
    requires IsBackend(db)
    ensures StrictOrder(Order(db))
  {}

  lemma DueIsAscending(db: Backend, rows: seq<TaskRow>, now: int)
    requires IsBackend(db) && UniqueIds(rows)
    ensures Ascending(Due(db, rows, now), Order(db))
    ensures forall row :: row in Due(db, rows, now) <==> row in rows && IsDue(row, now)
  {
    var keep, lt := (row: TaskRow) => IsDue(row, now), Order(db);
    FilterKeepsPairs(rows, keep, (a, b) => lt(a, b) || lt(b, a));
    OrderIsStrict(db);
    SortIsAscending(Filter(rows, keep), lt);
    SameElements(Due(db, rows, now), Filter(rows, keep));
  }

  lemma {:induction false} ParsedRowsAreStored(rows: seq<TaskRow>)
    requires forall row | row in rows :: Parses(row)
    ensures RowsToStored(rows).Ok?
    ensures |RowsToStored(rows).value| == |rows|
    ensures forall i | 0 <= i < |rows| :: StandsFor(rows[i], RowsToStored(rows).value[i])
  {
    if rows != [] {
      StoredStandsForRow(rows[0]);
      ParsedRowsAreStored(rows[1..]);
    }
  }

  /** On a table whose columns parse, the due query reports no schema drift: it returns the
      first due rows, decoded, in an order that does not depend on the order of the table. */
  lemma DueTasksAreTheFirstDueRows(db: Backend, rows: seq<TaskRow>, now: int, limit: Limit)
    requires IsBackend(db) && UniqueIds(rows) && AllParse(rows) && limit > 0
    ensures var answer, page := GetDueTasks(db, rows, now, limit), Take(Due(db, rows, now), NextTake(limit));
            && answer.Ok? && |answer.value| == |page|
            && forall i | 0 <= i < |page| :: StandsFor(page[i], answer.value[i])
  {
    DueIsAscending(db, rows, now);
    var page := Take(Due(db, rows, now), NextTake(limit));
    forall row | row in page ensures Parses(row) {
      assert row in Due(db, rows, now);
      var i :| 0 <= i < |rows| && rows[i] == row;
    }
    ParsedRowsAreStored(page);
  }

  /** What the page of due rows looks like once decoded. */
  lemma DecodedPage(db: Backend, rows: seq<TaskRow>, now: int, limit: Limit, page: seq<TaskRow>, i: nat)
    requires IsBackend(db) && UniqueIds(rows) && AllParse(rows) && limit > 0
    requires page == Take(Due(db, rows, now), NextTake(limit)) && i < |page|
    ensures var answer := GetDueTasks(db, rows, now, limit);
            && answer.Ok? && |answer.value| == |page|
            && page[i] in rows && RowToStored(page[i]) == Ok(answer.value[i])
            && answer.value[i].status.Active? && answer.value[i].nextRun.Some? && answer.value[i].nextRun.value <= now
  {
    DueTasksAreTheFirstDueRows(db, rows, now, limit);
    DueIsAscending(db, rows, now);
    var task := GetDueTasks(db, rows, now, limit).value[i];
    assert page[i] in Due(db, rows, now);
    assert StandsFor(page[i], task);
    EncodingsAreExact(page[i].kind, task.kind, task.status);
    EncodingsAreExact(page[i].status, task.kind, task.status);
  }

  /** A due row is on the page, or the page is full and every task on it runs earlier. */
  lemma OnPageOrBehindIt(db: Backend, rows: seq<TaskRow>, now: int, n: nat, row: TaskRow)
    requires IsBackend(db) && UniqueIds(rows) && row in rows && IsDue(row, now)
    ensures var page := Take(Due(db, rows, now), n);
            row in page || (|page| == n && forall i | 0 <= i < n :: RunsBefore(db, page[i], row))
  {
    var due := Due(db, rows, now);
    DueIsAscending(db, rows, now);
    var j :| 0 <= j < |due| && due[j] == row;
    var page := Take(due, n);
    if j < |page| {
      assert page[j] == row;
    } else {
      assert forall i | 0 <= i < n :: Order(db)(due[i], due[j]);
    }
  }

  /** The due query in terms of stored tasks: every answer is a stored task that is active
      with a next run at or before `now`; earlier runs come first, then smaller ids. */
  lemma DueTasksAreActiveAndOrdered(
    db: Backend, rows: seq<TaskRow>, now: int, limit: Limit) returns (tasks: seq<StoredTask>)
    requires IsBackend(db) && UniqueIds(rows) && AllParse(rows) && limit > 0
    ensures GetDueTasks(db, rows, now, limit) == Ok(tasks)
    ensures |tasks| <= limit as int && |tasks| <= 10_000
    ensures forall i | 0 <= i < |tasks| ::
              && (exists row | row in rows :: RowToStored(row) == Ok(tasks[i]))
              && tasks[i].status == Active && tasks[i].nextRun.Some? && tasks[i].nextRun.value <= now
    ensures forall i, j | 0 <= i < j < |tasks| ::
              || tasks[i].nextRun.value < tasks[j].nextRun.value
              || (tasks[i].nextRun == tasks[j].nextRun && db.before(tasks[i].id, tasks[j].id))
  {
    var page := Take(Due(db, rows, now), NextTake(limit));
    DueTasksAreTheFirstDueRows(db, rows, now, limit);
    ClampedTakeBounds(limit);
    tasks := GetDueTasks(db, rows, now, limit).value;
    forall i | 0 <= i < |tasks|
      ensures page[i] in rows && RowToStored(page[i]) == Ok(tasks[i])
      ensures tasks[i].status == Active && tasks[i].nextRun.Some? && tasks[i].nextRun.value <= now
    {
      DecodedPage(db, rows, now, limit, page, i);
    }
    forall i, j | 0 <= i < j < |tasks|
      ensures || tasks[i].nextRun.value < tasks[j].nextRun.value
              || (tasks[i].nextRun == tasks[j].nextRun && db.before(tasks[i].id, tasks[j].id))
    {
      DueIsAscending(db, rows, now);
      assert Order(db)(page[i], page[j]);
    }
  }

  /** A stored task is in the answer whenever it is active with a next run at or before `now`,
      unless the answer is full, and then everything in it runs before that task. */
  lemma NoEarlierTaskIsLeftOut(
    db: Backend, rows: seq<TaskRow>, now: int, limit: Limit, row: TaskRow) returns (task: StoredTask)
    requires IsBackend(db) && UniqueIds(rows) && AllParse(rows) && limit > 0 && row in rows
    ensures RowToStored(row) == Ok(task)
    ensures GetDueTasks(db, rows, now, limit).Ok?
    ensures var tasks := GetDueTasks(db, rows, now, limit).value;
            task.status == Active && task.nextRun.Some? && task.nextRun.value <= now ==>
              || task in tasks
              || (&& (|tasks| == limit as int || |tasks| == 10_000)
                  && forall i | 0 <= i < |tasks| ::
                       && tasks[i].nextRun.Some?
                       && (|| tasks[i].nextRun.value < task.nextRun.value
                           || (tasks[i].nextRun == task.nextRun && db.before(tasks[i].id, task.id))))
  {
    var n := NextTake(limit);
    var page := Take(Due(db, rows, now), n);
    var k :| 0 <= k < |rows| && rows[k] == row;
    StoredStandsForRow(row);
    task := RowToStored(row).value;
    DueTasksAreTheFirstDueRows(db, rows, now, limit);
    ClampedTakeBounds(limit);
    var tasks := GetDueTasks(db, rows, now, limit).value;
    if IsDue(row, now) {
      OnPageOrBehindIt(db, rows, now, n, row);
      if i :| 0 <= i < |page| && page[i] == row {
        DecodedPage(db, rows, now, limit, page, i);
      } else {
        forall i | 0 <= i < |tasks| ensures tasks[i].nextRun.Some? && RunsBefore(db, page[i], row) {
          DecodedPage(db, rows, now, limit, page, i);
        }
      }
    }
  }

  lemma {:induction false} ActiveRowsDriftInKindOnly(rows: seq<TaskRow>)
    requires forall row | row in rows :: row.status == "active"
    ensures if forall row | row in rows :: row.kind in {"cron", "interval", "once"}
            then RowsToStored(rows).Ok? else RowsToStored(rows) == Err(SchemaDrift("schedule_kind"))
  {
    if rows != [] {
      assert rows == [rows[0]] + rows[1..];
      ActiveRowsDriftInKindOnly(rows[1..]);
      EncodingsAreExact(rows[0].kind, Cron, Active);
      EncodingsAreExact(rows[0].status, Cron, Active);
    }
  }

  /** On any table, tampered with or not: the due query reports schema drift exactly when a
      row of the page has an unknown kind, whatever the rows behind the page hold. An unknown
      status is never reported; the filter leaves such a row out. */
  lemma DueDriftsExactlyWhen(db: Backend, rows: seq<TaskRow>, now: int, limit: Limit)
    requires IsBackend(db) && UniqueIds(rows) && limit > 0
    ensures var answer, page := GetDueTasks(db, rows, now, limit), Take(Due(db, rows, now), NextTake(limit));
            if forall row | row in page :: row.kind in {"cron", "interval", "once"}
            then answer.Ok? else answer == Err(SchemaDrift("schedule_kind"))
  {
    DueIsAscending(db, rows, now);
    var page := Take(Due(db, rows, now), NextTake(limit));
    forall row | row in page ensures row.status == "active" {
      assert row in Due(db, rows, now);
    }
    ActiveRowsDriftInKindOnly(page);
  }

  lemma DueIgnoresTableOrder(db: Backend, rows: seq<TaskRow>, other: seq<TaskRow>, now: int)
    requires IsBackend(db) && UniqueIds(rows) && UniqueIds(other)
    requires forall row :: row in rows <==> row in other
    ensures Due(db, rows, now) == Due(db, other, now)
  {
    DueIsAscending(db, rows, now);
    DueIsAscending(db, other, now);
    OrderIsStrict(db);
    AscendingIsUnique(Due(db, rows, now), Due(db, other, now), Order(db));
  }

  // ---- Writing ----

  predicate Has(rows: seq<TaskRow>, id: string) {
    exists i | 0 <= i < |rows| :: rows[i].id == id
  }

  /** The table after the update of one row. */
  function Record(db: Backend, rows: seq<TaskRow>, id: string, result: TaskRunResult): (r: seq<TaskRow>)
    ensures |r| == |rows|
    ensures forall i | 0 <= i < |rows| ::
              r[i] == if rows[i].id == id then Recorded(db, rows[i], result) else rows[i]
  {
    seq(|rows|, i requires 0 <= i < |rows| =>
      if rows[i].id == id then Recorded(db, rows[i], result) else rows[i])
  }

  /** The `tasks` table of one store. */
  class TaskTable {
    const db: Backend
    var rows: seq<TaskRow>

    ghost predicate Valid()
      reads this
    {
      IsBackend(db) && UniqueIds(rows)
    }

    constructor (db: Backend)
      requires IsBackend(db)
      ensures Valid() && rows == [] && this.db == db
    {
      this.db := db;
      rows := [];
    }

    /** The store draws the id; a clash is an error and leaves the table alone. */
    method CreateTask(id: string, task: NewTask, now: int) returns (ok: bool)
      requires Valid()
      modifies this
      ensures Valid() && (AllParse(old(rows)) ==> AllParse(rows))
      ensures ok <==> !Has(old(rows), id)
      ensures rows == if ok then old(rows) + [InitialRow(id, task, now)] else old(rows)
    {
      ok := !Has(rows, id);
      if ok {
        EncodingsAreExact(KindAsStr(task.kind), task.kind, task.status);
        EncodingsAreExact(StatusAsStr(task.status), task.kind, task.status);
        rows := rows + [InitialRow(id, task, now)];
      }
    }

    method FindById(id: string) returns (found: bool, at: nat)
      ensures found <==> Has(rows, id)
      ensures found ==> at < |rows| && rows[at].id == id
    {
      at := 0;
      while at < |rows|
        invariant at <= |rows|
        invariant forall i | 0 <= i < at :: rows[i].id != id
      {
        if rows[at].id == id {
          return true, at;
        }
        at := at + 1;
      }
      found := false;
    }

    /** Load, then update; a missing row is `NotFound` and changes nothing. */
    method UpdateTaskAfterRun(id: string, result: TaskRunResult) returns (r: Result<()>)
      requires Valid()
      modifies this
      ensures Valid() && (AllParse(old(rows)) ==> AllParse(rows))
      ensures r == if Has(old(rows), id) then Ok(()) else Err(NotFound)
      ensures rows == Record(db, old(rows), id, result)
    {
      var found, at := FindById(id);
      if !found {
        return Err(NotFound);
      }
      EncodingsAreExact(StatusAsStr(result.status), Cron, result.status);
      var encoded := db.encode(result);
      var am := rows[at];
      am := am.(status := StatusAsStr(result.status));
      am := am.(nextRun := result.nextRun);
      am := am.(lastResult := Some(encoded));
      am := am.(updatedAt := result.ranAt);
      assert forall i | 0 <= i < |rows| && i != at :: rows[i].id != id;
      rows := rows[at := am];
      r := Ok(());
    }
  }
}
