/** Running due tasks page by page, and concurrent recording of runs
    (crates/store/src/ops/tasks.rs). */
module TaskRuns {
  import opened Outcomes
  import opened Queries
  import opened Tasks

  // ---- Draining the due tasks ----

  /** After this result the task is not due at `now` any more. */
  predicate Retires(result: TaskRunResult, now: int) {
    !result.status.Active? || result.nextRun.None? || result.nextRun.value > now
  }

  function Ids(rows: seq<TaskRow>): (r: seq<string>)
    ensures |r| == |rows|
    ensures forall i | 0 <= i < |rows| :: r[i] == rows[i].id
  {
    seq(|rows|, i requires 0 <= i < |rows| => rows[i].id)
  }

  function TaskIds(tasks: seq<StoredTask>): (r: seq<string>)
    ensures |r| == |tasks|
    ensures forall i | 0 <= i < |tasks| :: r[i] == tasks[i].id
  {
    seq(|tasks|, i requires 0 <= i < |tasks| => tasks[i].id)
  }

  /** Record one run after the other. */
  function RecordAll(db: Backend, rows: seq<TaskRow>, ids: seq<string>, results: string -> TaskRunResult): seq<TaskRow>
    decreases |ids|
  {
    if ids == [] then rows
    else RecordAll(db, Record(db, rows, ids[0], results(ids[0])), ids[1..], results)
  }

  /** Ask for due tasks, run each task of the page, ask again; one limit for each question. */
  function Drain(db: Backend, rows: seq<TaskRow>, now: int, limits: seq<Limit>, results: string -> TaskRunResult):
    (seq<string>, seq<TaskRow>)
    decreases |limits|
  {
    if limits == [] then ([], rows)
    else
      match GetDueTasks(db, rows, now, limits[0])
      case Ok(page) =>
        var (ran, final) := Drain(db, RecordAll(db, rows, TaskIds(page), results), now, limits[1..], results);
        (TaskIds(page) + ran, final)
      case Err(_) => ([], rows)
  }

  ghost predicate Healthy(db: Backend, rows: seq<TaskRow>) {
    IsBackend(db) && UniqueIds(rows) && AllParse(rows)
  }

  lemma RecordKeepsHealth(db: Backend, rows: seq<TaskRow>, id: string, result: TaskRunResult)
    requires Healthy(db, rows)
    ensures Healthy(db, Record(db, rows, id, result))
  {
    EncodingsAreExact(StatusAsStr(result.status), Cron, result.status);
  }

  /** A retiring result takes one row out of the due rows and touches no other. */
  lemma OneRowRetires(db: Backend, rows: seq<TaskRow>, now: int, at: nat, result: TaskRunResult, row: TaskRow)
    requires UniqueIds(rows) && at < |rows| && Retires(result, now)
    ensures row in Record(db, rows, rows[at].id, result) && IsDue(row, now)
            <==> row in rows && IsDue(row, now) && row != rows[at]
  {
    var after := Record(db, rows, rows[at].id, result);
    EncodingsAreExact(StatusAsStr(result.status), Cron, Active);
    assert forall i | 0 <= i < |rows| && i != at :: rows[i].id != rows[at].id && after[i] == rows[i];
    assert !IsDue(after[at], now);
    if row in rows {
      var i :| 0 <= i < |rows| && rows[i] == row;
      assert row != rows[at] ==> after[i] == row;
    }
    if row in after {
      var i :| 0 <= i < |after| && after[i] == row;
      assert i != at ==> rows[i] == row;
    }
  }

  lemma TailOfAscending<T(!new)>(s: seq<T>, lt: (T, T) -> bool, x: T)
    requires StrictOrder(lt) && Ascending(s, lt) && s != []
    ensures x in s[1..] <==> x in s && x != s[0]
  {
    assert s == [s[0]] + s[1..];
    assert forall i | 1 <= i < |s| :: lt(s[0], s[i]) && s[i] != s[0];
  }

  /** Recording the first due task leaves the others due, in the same order. */
  lemma FirstDueRetires(db: Backend, rows: seq<TaskRow>, now: int, result: TaskRunResult)
    requires Healthy(db, rows) && Retires(result, now) && Due(db, rows, now) != []
    ensures Due(db, Record(db, rows, Due(db, rows, now)[0].id, result), now) == Due(db, rows, now)[1..]
  {
    var due, lt := Due(db, rows, now), Order(db);
    var after := Record(db, rows, due[0].id, result);
    DueIsAscending(db, rows, now);
    RecordKeepsHealth(db, rows, due[0].id, result);
    DueIsAscending(db, after, now);
    OrderIsStrict(db);
    assert due[0] in due;
    var at :| 0 <= at < |rows| && rows[at] == due[0];
    forall row ensures row in due[1..] <==> row in Due(db, after, now) {
      OneRowRetires(db, rows, now, at, result, row);
      TailOfAscending(due, lt, row);
    }
    assert Ascending(due[1..], lt);
    AscendingIsUnique(due[1..], Due(db, after, now), lt);
  }

  /** The results of the due tasks retire them; nothing is asked of other results. */
  ghost predicate DueRetire(db: Backend, rows: seq<TaskRow>, now: int, results: string -> TaskRunResult) {
    forall row | row in Due(db, rows, now) :: Retires(results(row.id), now)
  }

  lemma {:induction false} PrefixRetires(
    db: Backend, rows: seq<TaskRow>, now: int, n: nat, results: string -> TaskRunResult)
    requires Healthy(db, rows) && DueRetire(db, rows, now, results)
    requires n <= |Due(db, rows, now)|
    ensures var after := RecordAll(db, rows, Ids(Due(db, rows, now)[..n]), results);
            Healthy(db, after) && Due(db, after, now) == Due(db, rows, now)[n..]
    decreases n
  {
    var due := Due(db, rows, now);
    if n > 0 {
      var id := due[0].id;
      var next := Record(db, rows, id, results(id));
      assert due[0] in due;
      FirstDueRetires(db, rows, now, results(id));
      RecordKeepsHealth(db, rows, id, results(id));
      PrefixRetires(db, next, now, n - 1, results);
      assert Ids(due[..n])[1..] == Ids(due[1..][..n - 1]);
      assert Ids(due[..n])[0] == id;
    } else {
      assert Ids(due[..0]) == [];
    }
  }

  lemma {:induction false} RecordAllAppend(
    db: Backend, rows: seq<TaskRow>, a: seq<string>, b: seq<string>, results: string -> TaskRunResult)
    ensures RecordAll(db, rows, a + b, results) == RecordAll(db, RecordAll(db, rows, a, results), b, results)
    decreases |a|
  {
    if a == [] {
      assert a + b == b;
    } else {
      assert (a + b)[1..] == a[1..] + b;
      RecordAllAppend(db, Record(db, rows, a[0], results(a[0])), a[1..], b, results);
    }
  }

  /** `ran` are the first `n` due tasks in order, `final` is the table after their runs, and
      what is still due is what follows them. */
  ghost predicate RanFirst(db: Backend, rows: seq<TaskRow>, now: int, n: nat, results: string -> TaskRunResult,
                           ran: seq<string>, final: seq<TaskRow>)
  {
    var due := Due(db, rows, now);
    && ran == Ids(Take(due, n))
    && final == RecordAll(db, rows, ran, results)
    && Due(db, final, now) == due[|ran|..]
  }

  lemma PageAndRest(due: seq<TaskRow>, n: nat, m: nat)
    ensures var page := Take(due, n);
            var rest := Take(due[|page|..], m);
            && Ids(page) + Ids(rest) == Ids(Take(due, n + m))
            && due[|page|..][|rest|..] == due[|page| + |rest|..]
  {
    TakeTwice(due, n, m);
    var page := Take(due, n);
    var rest := Take(due[|page|..], m);
    assert Ids(page) + Ids(rest) == Ids(page + rest);
  }

  lemma RunsCompose(db: Backend, rows: seq<TaskRow>, now: int, n: nat, m: nat, results: string -> TaskRunResult,
                    ran1: seq<string>, mid: seq<TaskRow>, ran2: seq<string>, final: seq<TaskRow>)
    requires RanFirst(db, rows, now, n, results, ran1, mid) && RanFirst(db, mid, now, m, results, ran2, final)
    ensures RanFirst(db, rows, now, n + m, results, ran1 + ran2, final)
  {
    PageAndRest(Due(db, rows, now), n, m);
    RecordAllAppend(db, rows, ran1, ran2, results);
  }

  /** One question and the runs of its page. */
  lemma OnePage(db: Backend, rows: seq<TaskRow>, now: int, limit: Limit, results: string -> TaskRunResult)
    requires Healthy(db, rows) && limit > 0 && DueRetire(db, rows, now, results)
    ensures GetDueTasks(db, rows, now, limit).Ok?
    ensures var page := TaskIds(GetDueTasks(db, rows, now, limit).value);
            var after := RecordAll(db, rows, page, results);
            Healthy(db, after) && RanFirst(db, rows, now, NextTake(limit), results, page, after)
  {
    var due := Due(db, rows, now);
    var page := Take(due, NextTake(limit));
    DueTasksAreTheFirstDueRows(db, rows, now, limit);
    assert TaskIds(GetDueTasks(db, rows, now, limit).value) == Ids(page);
    assert page == due[..|page|];
    PrefixRetires(db, rows, now, |page|, results);
  }

  /** However the questions are cut into pages, they run the initially due tasks in
      `(next_run, id)` order, as many as the clamped limits allow, and nothing else. */
  lemma {:induction false} DrainRunsInOrder(
    db: Backend, rows: seq<TaskRow>, now: int, limits: seq<Limit>, results: string -> TaskRunResult)
    requires Healthy(db, rows) && AllPositive(limits) && DueRetire(db, rows, now, results)
    ensures var (ran, final) := Drain(db, rows, now, limits, results);
            RanFirst(db, rows, now, TotalTake(limits), results, ran, final)
    decreases |limits|
  {
    if limits == [] {
      assert Take(Due(db, rows, now), 0) == [];
    } else {
      OnePage(db, rows, now, limits[0], results);
      var page := TaskIds(GetDueTasks(db, rows, now, limits[0]).value);
      var mid := RecordAll(db, rows, page, results);
      assert DueRetire(db, mid, now, results);
      DrainRunsInOrder(db, mid, now, limits[1..], results);
      var (ran, final) := Drain(db, mid, now, limits[1..], results);
      RunsCompose(db, rows, now, NextTake(limits[0]), TotalTake(limits[1..]), results, page, mid, ran, final);
    }
  }

  lemma {:induction false} RecordAllAt(
    db: Backend, rows: seq<TaskRow>, ids: seq<string>, results: string -> TaskRunResult
  )
    requires forall i, j | 0 <= i < j < |ids| :: ids[i] != ids[j]
    ensures var r := RecordAll(db, rows, ids, results);
            && |r| == |rows|
            && forall k | 0 <= k < |rows| ::
                 r[k] == if rows[k].id in ids then Recorded(db, rows[k], results(rows[k].id)) else rows[k]
    decreases |ids|
  {
    if ids != [] {
      var next := Record(db, rows, ids[0], results(ids[0]));
      RecordAllAt(db, next, ids[1..], results);
      assert ids == [ids[0]] + ids[1..];
      forall k | 0 <= k < |rows| ensures next[k].id == rows[k].id {}
    }
  }

  lemma DueIdsAreDistinct(db: Backend, rows: seq<TaskRow>, now: int)
    requires Healthy(db, rows)
    ensures var ids := Ids(Due(db, rows, now)); forall i, j | 0 <= i < j < |ids| :: ids[i] != ids[j]
    ensures forall k | 0 <= k < |rows| :: rows[k].id in Ids(Due(db, rows, now)) <==> IsDue(rows[k], now)
  {
    var due := Due(db, rows, now);
    var ids := Ids(due);
    DueIsAscending(db, rows, now);
    OrderIsStrict(db);
    forall i, j | 0 <= i < j < |ids| ensures ids[i] != ids[j] {
      assert due[i] in due && due[j] in due;
      var k :| 0 <= k < |rows| && rows[k] == due[i];
      var l :| 0 <= l < |rows| && rows[l] == due[j];
      assert Order(db)(due[i], due[j]) && !Order(db)(due[i], due[i]);
      assert k != l;
    }
    forall k | 0 <= k < |rows| ensures rows[k].id in ids <==> IsDue(rows[k], now) {
      if IsDue(rows[k], now) {
        assert rows[k] in due;
        var i :| 0 <= i < |due| && due[i] == rows[k];
        assert ids[i] == rows[k].id;
      }
      if rows[k].id in ids {
        var i :| 0 <= i < |ids| && ids[i] == rows[k].id;
        assert due[i] in due;
        var l :| 0 <= l < |rows| && rows[l] == due[i];
        assert k == l;
      }
    }
  }

  /** Draining: as many positive limits as there are due tasks are enough. Each initially due
      task runs exactly once, in order; its row carries its result, every other row is
      untouched, and nothing is due any more. */
  lemma DueTasksDrain(
    db: Backend, rows: seq<TaskRow>, now: int, limits: seq<Limit>, results: string -> TaskRunResult)
    requires Healthy(db, rows) && AllPositive(limits) && DueRetire(db, rows, now, results)
    requires |limits| >= |Due(db, rows, now)|
    ensures var (ran, final) := Drain(db, rows, now, limits, results);
            && ran == Ids(Due(db, rows, now))
            && (forall i, j | 0 <= i < j < |ran| :: ran[i] != ran[j])
            && Due(db, final, now) == []
            && |final| == |rows|
            && forall k | 0 <= k < |rows| ::
                 final[k] == if rows[k].status == "active" && rows[k].nextRun.Some? && rows[k].nextRun.value <= now
                             then Recorded(db, rows[k], results(rows[k].id)) else rows[k]
  {
    var due := Due(db, rows, now);
    TotalTakeGrows(limits);
    assert Take(due, TotalTake(limits)) == due;
    DrainRunsInOrder(db, rows, now, limits, results);
    DueIdsAreDistinct(db, rows, now);
    RecordAllAt(db, rows, Ids(due), results);
  }

  // ---- Interleaved creates, loads and updates ----

  datatype Update = Missing | Loaded(row: TaskRow, result: TaskRunResult) | Written

  datatype State = State(rows: seq<TaskRow>, updates: seq<Update>)

  /** `Load` is the first half of `update_task_after_run`, `Write(u)` the second half of the
      `u`th call. */
  datatype Step =
    | Create(id: string, task: NewTask, now: int)
    | Load(id: string, result: TaskRunResult)
    | Write(u: nat)

  const START: State := State([], [])

  function RowOf(rows: seq<TaskRow>, id: string): (row: TaskRow)
    requires Has(rows, id)
    ensures row in rows && row.id == id
  {
    if rows[0].id == id then rows[0] else RowOf(rows[1..], id)
  }

  predicate Enabled(s: State, step: Step) {
    step.Write? ==> step.u < |s.updates| && s.updates[step.u].Loaded?
  }

  function Apply(db: Backend, s: State, step: Step): State
    requires Enabled(s, step)
  {
    match step
    case Create(id, task, now) =>
      if Has(s.rows, id) then s else s.(rows := s.rows + [InitialRow(id, task, now)])
    case Load(id, result) =>
      s.(updates := s.updates + [if Has(s.rows, id) then Loaded(RowOf(s.rows, id), result) else Missing])
    case Write(u) =>
      var call := s.updates[u];
      State(Record(db, s.rows, call.row.id, call.result), s.updates[u := Written])
  }

  ghost predicate ValidRun(db: Backend, steps: seq<Step>)
    decreases |steps|, 0
  {
    steps != [] ==>
      ValidRun(db, steps[..|steps| - 1]) && Enabled(Exec(db, steps[..|steps| - 1]), steps[|steps| - 1])
  }

  ghost function Exec(db: Backend, steps: seq<Step>): State
    requires ValidRun(db, steps)
    decreases |steps|, 1
  {
    if steps == [] then START else Apply(db, Exec(db, steps[..|steps| - 1]), steps[|steps| - 1])
  }

  // ---- Reference: the same facts read off the list of steps ----

  /** The first creation of the id; later ones are rejected. */
  function Creation(steps: seq<Step>, id: string): Option<TaskRow> {
    if steps == [] then None
    else
      var earlier, last := Creation(steps[..|steps| - 1], id), steps[|steps| - 1];
      if earlier.None? && last.Create? && last.id == id then Some(InitialRow(id, last.task, last.now)) else earlier
  }

  function Calls(steps: seq<Step>): seq<(string, TaskRunResult)> {
    if steps == [] then []
    else
      var earlier, last := Calls(steps[..|steps| - 1]), steps[|steps| - 1];
      if last.Load? then earlier + [(last.id, last.result)] else earlier
  }

  /** The result of the last call that reached its second half for this id. */
  function LastResult(steps: seq<Step>, id: string): Option<TaskRunResult> {
    if steps == [] then None
    else
      var init, last := steps[..|steps| - 1], steps[|steps| - 1];
      if last.Write? && last.u < |Calls(init)| && Calls(init)[last.u].0 == id then Some(Calls(init)[last.u].1)
      else LastResult(init, id)
  }

  /** What the row should be: as created, with the last result's four columns on top. */
  function ExpectedRow(db: Backend, steps: seq<Step>, id: string): Option<TaskRow> {
    match Creation(steps, id)
    case None => None
    case Some(row) =>
      match LastResult(steps, id)
      case None => Some(row)
      case Some(result) => Some(Recorded(db, row, result))
  }

  ghost predicate RowsAsExpected(db: Backend, steps: seq<Step>, rows: seq<TaskRow>) {
    && UniqueIds(rows)
    && (forall i | 0 <= i < |rows| :: ExpectedRow(db, steps, rows[i].id) == Some(rows[i]))
    && (forall id: string :: Has(rows, id) <==> Creation(steps, id).Some?)
    && (forall id: string :: LastResult(steps, id).Some? ==> Creation(steps, id).Some?)
  }

  /** Open calls belong to existing rows and agree with them on all but the result columns. */
  ghost predicate CallsAsExpected(db: Backend, steps: seq<Step>, s: State) {
    && |Calls(steps)| == |s.updates|
    && forall u | 0 <= u < |s.updates| && s.updates[u].Loaded? ::
         && Calls(steps)[u] == (s.updates[u].row.id, s.updates[u].result)
         && Has(s.rows, s.updates[u].row.id)
         && SameIdentity(s.updates[u].row, RowOf(s.rows, s.updates[u].row.id))
  }

  /** Equal apart from status, next run, last result and update time. */
  predicate SameIdentity(a: TaskRow, b: TaskRow) {
    a == b.(status := a.status, nextRun := a.nextRun, lastResult := a.lastResult, updatedAt := a.updatedAt)
  }

  lemma {:induction false} RowOfAt(rows: seq<TaskRow>, i: nat)
    requires i < |rows| && UniqueIds(rows)
    ensures Has(rows, rows[i].id) && RowOf(rows, rows[i].id) == rows[i]
  {
    if i > 0 {
      assert rows[0].id != rows[i].id;
      assert UniqueIds(rows[1..]);
      RowOfAt(rows[1..], i - 1);
    }
  }

  lemma RowOfRecorded(db: Backend, rows: seq<TaskRow>, id: string, id': string, result: TaskRunResult)
    requires UniqueIds(rows) && Has(rows, id')
    ensures Has(Record(db, rows, id, result), id')
    ensures SameIdentity(RowOf(rows, id'), RowOf(Record(db, rows, id, result), id'))
  {
    var i :| 0 <= i < |rows| && rows[i].id == id';
    var after := Record(db, rows, id, result);
    assert UniqueIds(after);
    assert after[i].id == id';
    RowOfAt(rows, i);
    RowOfAt(after, i);
  }

  lemma RowOfAppended(rows: seq<TaskRow>, row: TaskRow, id: string)
    requires UniqueIds(rows + [row]) && Has(rows, id)
    ensures Has(rows + [row], id) && RowOf(rows + [row], id) == RowOf(rows, id)
  {
    var i :| 0 <= i < |rows| && rows[i].id == id;
    assert forall j | 0 <= j < |rows| :: (rows + [row])[j] == rows[j];
    assert UniqueIds(rows);
    RowOfAt(rows, i);
    RowOfAt(rows + [row], i);
  }

  lemma CreateKeepsExpected(db: Backend, init: seq<Step>, s: State, step: Step)
    requires step.Create? && RowsAsExpected(db, init, s.rows) && CallsAsExpected(db, init, s)
    ensures RowsAsExpected(db, init + [step], Apply(db, s, step).rows)
    ensures CallsAsExpected(db, init + [step], Apply(db, s, step))
  {
    var steps, s' := init + [step], Apply(db, s, step);
    assert steps[..|steps| - 1] == init;
    assert forall id: string :: LastResult(steps, id) == LastResult(init, id);
    if !Has(s.rows, step.id) {
      var row := InitialRow(step.id, step.task, step.now);
      assert UniqueIds(s'.rows);
      forall id: string ensures Has(s'.rows, id) <==> Has(s.rows, id) || id == step.id {
        assert s'.rows[|s.rows|] == row;
        if Has(s.rows, id) { RowOfAppended(s.rows, row, id); }
      }
      forall u | 0 <= u < |s.updates| && s.updates[u].Loaded?
        ensures Has(s'.rows, s.updates[u].row.id)
        ensures SameIdentity(s.updates[u].row, RowOf(s'.rows, s.updates[u].row.id))
      {
        RowOfAppended(s.rows, row, s.updates[u].row.id);
      }
    }
  }

  lemma LoadKeepsExpected(db: Backend, init: seq<Step>, s: State, step: Step)
    requires step.Load? && RowsAsExpected(db, init, s.rows) && CallsAsExpected(db, init, s)
    ensures RowsAsExpected(db, init + [step], Apply(db, s, step).rows)
    ensures CallsAsExpected(db, init + [step], Apply(db, s, step))
  {
    var steps := init + [step];
    assert steps[..|steps| - 1] == init;
    assert forall id: string :: LastResult(steps, id) == LastResult(init, id);
    assert forall id: string :: Creation(steps, id) == Creation(init, id);
  }

  /** How one update shows in the lists of creations and results. */
  lemma WriteInHistory(db: Backend, init: seq<Step>, s: State, step: Step, id: string)
    requires step.Write? && Enabled(s, step) && CallsAsExpected(db, init, s)
    ensures Creation(init + [step], id) == Creation(init, id)
    ensures LastResult(init + [step], id)
            == if id == s.updates[step.u].row.id then Some(s.updates[step.u].result) else LastResult(init, id)
    ensures Calls(init + [step]) == Calls(init)
  {
    assert (init + [step])[..|init|] == init;
  }

  lemma WriteKeepsRows(db: Backend, init: seq<Step>, s: State, step: Step)
    requires step.Write? && Enabled(s, step) && RowsAsExpected(db, init, s.rows) && CallsAsExpected(db, init, s)
    ensures RowsAsExpected(db, init + [step], Apply(db, s, step).rows)
  {
    var rows', call := Apply(db, s, step).rows, s.updates[step.u];
    forall id: string
      ensures Has(rows', id) <==> Creation(init + [step], id).Some?
      ensures LastResult(init + [step], id).Some? ==> Creation(init + [step], id).Some?
    {
      WriteInHistory(db, init, s, step, id);
      if Has(s.rows, id) { RowOfRecorded(db, s.rows, call.row.id, id, call.result); }
    }
    forall i | 0 <= i < |rows'| ensures ExpectedRow(db, init + [step], rows'[i].id) == Some(rows'[i]) {
      WriteInHistory(db, init, s, step, rows'[i].id);
      assert ExpectedRow(db, init, s.rows[i].id) == Some(s.rows[i]);
    }
  }

  lemma WriteKeepsCalls(db: Backend, init: seq<Step>, s: State, step: Step)
    requires step.Write? && Enabled(s, step) && UniqueIds(s.rows) && CallsAsExpected(db, init, s)
    ensures CallsAsExpected(db, init + [step], Apply(db, s, step))
  {
    var s', call := Apply(db, s, step), s.updates[step.u];
    WriteInHistory(db, init, s, step, call.row.id);
    forall u | 0 <= u < |s'.updates| && s'.updates[u].Loaded?
      ensures Has(s'.rows, s'.updates[u].row.id)
      ensures SameIdentity(s'.updates[u].row, RowOf(s'.rows, s'.updates[u].row.id))
    {
      RowOfRecorded(db, s.rows, call.row.id, s'.updates[u].row.id, call.result);
    }
  }

  lemma {:induction false} RunKeepsExpected(db: Backend, steps: seq<Step>)
    requires ValidRun(db, steps)
    ensures RowsAsExpected(db, steps, Exec(db, steps).rows) && CallsAsExpected(db, steps, Exec(db, steps))
    decreases |steps|
  {
    if steps != [] {
      var init, step := steps[..|steps| - 1], steps[|steps| - 1];
      RunKeepsExpected(db, init);
      assert steps == init + [step];
      match step {
        case Create(_, _, _) => CreateKeepsExpected(db, init, Exec(db, init), step);
        case Load(_, _) => LoadKeepsExpected(db, init, Exec(db, init), step);
        case Write(_) =>
          WriteKeepsRows(db, init, Exec(db, init), step);
          WriteKeepsCalls(db, init, Exec(db, init), step);
      }
    }
  }

  /** Whatever the interleaving, a row is its creation plus one single result, the last one
      written: never a mixture of two, and never a changed identity or schedule. */
  lemma RowsComeFromOneResult(db: Backend, steps: seq<Step>, i: nat)
    requires ValidRun(db, steps) && i < |Exec(db, steps).rows|
    ensures var row := Exec(db, steps).rows[i];
            && Creation(steps, row.id).Some?
            && SameIdentity(row, Creation(steps, row.id).value)
            && row == match LastResult(steps, row.id)
                      case None => Creation(steps, row.id).value
                      case Some(result) => Recorded(db, Creation(steps, row.id).value, result)
  {
    RunKeepsExpected(db, steps);
  }

  /** Writing back the whole row as loaded, however stale, would give the same table: only
      the result columns ever change. */
  lemma StaleRowWritesTheSame(db: Backend, steps: seq<Step>, u: nat)
    requires ValidRun(db, steps) && u < |Exec(db, steps).updates| && Exec(db, steps).updates[u].Loaded?
    ensures var s := Exec(db, steps);
            var call := s.updates[u];
            && Has(s.rows, call.row.id)
            && Recorded(db, call.row, call.result) == Recorded(db, RowOf(s.rows, call.row.id), call.result)
  {
    RunKeepsExpected(db, steps);
  }

  lemma RunNeverDrifts(db: Backend, steps: seq<Step>)
    requires IsBackend(db) && ValidRun(db, steps)
    ensures Healthy(db, Exec(db, steps).rows)
  {
    RunKeepsExpected(db, steps);
    var rows := Exec(db, steps).rows;
    forall i | 0 <= i < |rows| ensures Parses(rows[i]) {
      assert ExpectedRow(db, steps, rows[i].id) == Some(rows[i]);
      CreationsParse(steps, rows[i].id);
      if LastResult(steps, rows[i].id).Some? {
        var result := LastResult(steps, rows[i].id).value;
        EncodingsAreExact(StatusAsStr(result.status), Cron, result.status);
      }
    }
  }

  lemma {:induction false} CreationsParse(steps: seq<Step>, id: string)
    ensures Creation(steps, id).Some? ==> Parses(Creation(steps, id).value)
  {
    if steps != [] {
      var last := steps[|steps| - 1];
      CreationsParse(steps[..|steps| - 1], id);
      if last.Create? {
        EncodingsAreExact(KindAsStr(last.task.kind), last.task.kind, last.task.status);
        EncodingsAreExact(StatusAsStr(last.task.status), last.task.kind, last.task.status);
      }
    }
  }

  /** In every reachable state the due query answers every valid limit, without schema drift. */
  lemma DueQueryNeverDrifts(db: Backend, steps: seq<Step>, now: int, limit: Limit)
    requires IsBackend(db) && ValidRun(db, steps)
    ensures GetDueTasks(db, Exec(db, steps).rows, now, limit) == Err(InvalidLimit) <==> limit < 0
    ensures limit >= 0 ==> GetDueTasks(db, Exec(db, steps).rows, now, limit).Ok?
    ensures limit == 0 ==> GetDueTasks(db, Exec(db, steps).rows, now, limit) == Ok([])
  {
    RunNeverDrifts(db, steps);
    ClampedTakeBounds(limit);
    if limit > 0 {
      DueTasksAreTheFirstDueRows(db, Exec(db, steps).rows, now, limit);
    }
  }
}
