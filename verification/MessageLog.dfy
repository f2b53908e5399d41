/** Concurrent writers and readers of the message table, one atomic database step at a time
    (`store_message` and `get_messages_since` in crates/store/src/ops/messages.rs). */
module MessageLog {
  import opened Outcomes
  import opened Queries
  import opened Messages

  type Key = int

  /** The lock key that a transaction takes for a group. The code's choice depends on the
      group only: `(t, g) => hash(g)`, and a constant where the database has one global
      writer. A key per transaction, `(t, g) => t`, is the same as taking no lock. */
  type Keying = (nat, string) -> Key

  datatype Stage =
    | Begun                  // transaction open, no lock yet
    | Locked                 // advisory lock held
    | Allocated(seqNo: int)  // insert under way: `seq` drawn, unique index not yet checked
    | Waiting(seqNo: int)    // insert blocked by another uncommitted row with the same id
    | Inserted(seqNo: int)   // row written, not visible to others
    | Failed                 // unique violation; the transaction can only roll back
    | Visible(seqNo: int)    // commit visible to readers, lock still held
    | Done(seqNo: int)       // lock released
    | RolledBack

  datatype Txn = Txn(msg: NewMessage, stage: Stage)

  datatype Reader = Reader(group: string, cursor: Cursor, received: seq<Row>)

  /** `rows` are the committed rows in commit order; `holder` maps held keys to transactions. */
  datatype State = State(txns: seq<Txn>, holder: map<Key, nat>, rows: seq<Row>, readers: seq<Reader>)

  const INIT: State := State([], map[], [], [])

  datatype Step =
    | Begin(msg: NewMessage)
    | Lock(t: nat)
    | Allocate(t: nat, seqNo: int)
    | InsertRow(t: nat)
    | Commit(t: nat)
    | Release(t: nat)
    | Rollback(t: nat)
    | Subscribe(group: string)
    | Read(r: nat, limit: Limit)

  predicate HoldsLock(stage: Stage) {
    !stage.Begun? && !stage.Done? && !stage.RolledBack?
  }

  predicate InFlight(stage: Stage) {
    stage.Allocated? || stage.Waiting? || stage.Inserted?
  }

  predicate Committed(stage: Stage) {
    stage.Visible? || stage.Done?
  }

  predicate Finished(stage: Stage) {
    stage.Done? || stage.RolledBack?
  }

  function KeyOf(key: Keying, s: State, t: nat): Key
    requires t < |s.txns|
  {
    key(t, s.txns[t].msg.group)
  }

  function RowKey(key: Keying, row: Row): Key {
    key(row.writer, row.msg.group)
  }

  /** A number the database may hand out: above everything committed and everything in
      flight. Covers a sequence with gaps after rollbacks as well as the reuse of values
      that were rolled back. */
  predicate Fresh(s: State, n: int) {
    && n >= 1
    && (forall i | 0 <= i < |s.rows| :: s.rows[i].seqNo < n)
    && (forall t | 0 <= t < |s.txns| && InFlight(s.txns[t].stage) :: s.txns[t].stage.seqNo < n)
  }

  /** A committed row has this id. */
  predicate Duplicate(s: State, id: string) {
    exists i | 0 <= i < |s.rows| :: s.rows[i].msg.id == id
  }

  /** Another uncommitted row has this id. */
  predicate Contended(s: State, t: nat)
    requires t < |s.txns|
  {
    exists u | 0 <= u < |s.txns| && u != t :: s.txns[u].stage.Inserted? && s.txns[u].msg.id == s.txns[t].msg.id
  }

  predicate Enabled(key: Keying, s: State, step: Step) {
    match step
    case Begin(_) => true
    case Lock(t) => t < |s.txns| && s.txns[t].stage.Begun? && KeyOf(key, s, t) !in s.holder
    case Allocate(t, n) => t < |s.txns| && s.txns[t].stage.Locked? && Fresh(s, n)
    case InsertRow(t) =>
      t < |s.txns| && (s.txns[t].stage.Allocated? || (s.txns[t].stage.Waiting? && !Contended(s, t)))
    case Commit(t) => t < |s.txns| && s.txns[t].stage.Inserted?
    case Release(t) => t < |s.txns| && s.txns[t].stage.Visible?
    case Rollback(t) => t < |s.txns| && !Committed(s.txns[t].stage) && !s.txns[t].stage.RolledBack?
    case Subscribe(_) => true
    case Read(r, _) => r < |s.readers|
  }

  function SetStage(s: State, t: nat, stage: Stage): State
    requires t < |s.txns|
  {
    s.(txns := s.txns[t := s.txns[t].(stage := stage)])
  }

  function AfterInsert(s: State, t: nat): Stage
    requires t < |s.txns| && (s.txns[t].stage.Allocated? || s.txns[t].stage.Waiting?)
  {
    if Duplicate(s, s.txns[t].msg.id) then Failed
    else if Contended(s, t) then Waiting(s.txns[t].stage.seqNo)
    else Inserted(s.txns[t].stage.seqNo)
  }

  /** A call of `get_messages_since` with the reader's cursor; an invalid limit is an error
      and changes nothing. */
  function AfterRead(rows: seq<Row>, reader: Reader, limit: Limit): Reader {
    match GetMessagesSince(rows, reader.group, reader.cursor, limit)
    case Err(_) => reader
    case Ok(page) => reader.(cursor := NextCursor(reader.cursor, page), received := reader.received + page)
  }

  function Apply(key: Keying, s: State, step: Step): State
    requires Enabled(key, s, step)
  {
    match step
    case Begin(msg) => s.(txns := s.txns + [Txn(msg, Begun)])
    case Lock(t) => SetStage(s, t, Locked).(holder := s.holder[KeyOf(key, s, t) := t])
    case Allocate(t, n) => SetStage(s, t, Allocated(n))
    case InsertRow(t) => SetStage(s, t, AfterInsert(s, t))
    case Commit(t) =>
      var n := s.txns[t].stage.seqNo;
      SetStage(s, t, Visible(n)).(rows := s.rows + [Row(n, s.txns[t].msg, t)])
    case Release(t) => SetStage(s, t, Done(s.txns[t].stage.seqNo)).(holder := s.holder - {KeyOf(key, s, t)})
    case Rollback(t) =>
      SetStage(s, t, RolledBack).(holder :=
        if s.txns[t].stage.Begun? then s.holder else s.holder - {KeyOf(key, s, t)})
    case Subscribe(group) => s.(readers := s.readers + [Reader(group, Cursor.Beginning(), [])])
    case Read(r, limit) => s.(readers := s.readers[r := AfterRead(s.rows, s.readers[r], limit)])
  }

  // ---- Runs ----

  ghost predicate ValidRun(key: Keying, s: State, steps: seq<Step>)
    decreases |steps|
  {
    steps != [] ==> Enabled(key, s, steps[0]) && ValidRun(key, Apply(key, s, steps[0]), steps[1..])
  }

  ghost function Exec(key: Keying, s: State, steps: seq<Step>): State
    requires ValidRun(key, s, steps)
    decreases |steps|
  {
    if steps == [] then s else Exec(key, Apply(key, s, steps[0]), steps[1..])
  }

  lemma {:induction false} RunsConcatenate(key: Keying, s: State, a: seq<Step>, b: seq<Step>)
    requires ValidRun(key, s, a) && ValidRun(key, Exec(key, s, a), b)
    ensures ValidRun(key, s, a + b) && Exec(key, s, a + b) == Exec(key, Exec(key, s, a), b)
    decreases |a|
  {
    if a == [] {
      assert a + b == b;
    } else {
      assert (a + b)[1..] == a[1..] + b;
      RunsConcatenate(key, Apply(key, s, a[0]), a[1..], b);
    }
  }

  // ---- Invariants ----

  /** Locks are exclusive: each is held by the transactions that say so, and by them alone. */
  ghost predicate LocksOk(key: Keying, s: State) {
    && (forall t | 0 <= t < |s.txns| && HoldsLock(s.txns[t].stage) ::
          KeyOf(key, s, t) in s.holder && s.holder[KeyOf(key, s, t)] == t)
    && (forall k | k in s.holder ::
          s.holder[k] < |s.txns| && HoldsLock(s.txns[s.holder[k]].stage) && KeyOf(key, s, s.holder[k]) == k)
  }

  /** `seq` values are positive and pairwise different, among rows and among inserts in flight. */
  ghost predicate SeqsOk(s: State) {
    && Table(s.rows)
    && (forall t, u | 0 <= t < u < |s.txns| && InFlight(s.txns[t].stage) && InFlight(s.txns[u].stage) ::
          s.txns[t].stage.seqNo != s.txns[u].stage.seqNo)
    && (forall t, i | 0 <= t < |s.txns| && InFlight(s.txns[t].stage) && 0 <= i < |s.rows| ::
          s.txns[t].stage.seqNo != s.rows[i].seqNo)
    && (forall t | 0 <= t < |s.txns| && InFlight(s.txns[t].stage) :: s.txns[t].stage.seqNo >= 1)
  }

  /** Under one lock key, commit order is `seq` order, and an insert in flight is above it. */
  ghost predicate OrderOk(key: Keying, s: State) {
    && (forall i, j | 0 <= i < j < |s.rows| && RowKey(key, s.rows[i]) == RowKey(key, s.rows[j]) ::
          s.rows[i].seqNo < s.rows[j].seqNo)
    && (forall t, i | 0 <= t < |s.txns| && InFlight(s.txns[t].stage) && 0 <= i < |s.rows| &&
                      RowKey(key, s.rows[i]) == KeyOf(key, s, t) ::
          s.rows[i].seqNo < s.txns[t].stage.seqNo)
  }

  /** Message ids are unique among committed and written rows. */
  ghost predicate IdsOk(s: State) {
    && (forall i, j | 0 <= i < j < |s.rows| :: s.rows[i].msg.id != s.rows[j].msg.id)
    && (forall t, i | 0 <= t < |s.txns| && s.txns[t].stage.Inserted? && 0 <= i < |s.rows| ::
          s.txns[t].msg.id != s.rows[i].msg.id)
    && (forall t, u | 0 <= t < u < |s.txns| && s.txns[t].stage.Inserted? && s.txns[u].stage.Inserted? ::
          s.txns[t].msg.id != s.txns[u].msg.id)
  }

  /** A failed insert found its id taken. */
  ghost predicate FailuresOk(s: State) {
    forall t | 0 <= t < |s.txns| && s.txns[t].stage.Failed? :: Duplicate(s, s.txns[t].msg.id)
  }

  /** Rows and committed transactions correspond one to one. */
  ghost predicate WritersOk(s: State) {
    && (forall i | 0 <= i < |s.rows| ::
          var t := s.rows[i].writer;
          t < |s.txns| && Committed(s.txns[t].stage) && s.rows[i] == Row(s.txns[t].stage.seqNo, s.txns[t].msg, t))
    && (forall t | 0 <= t < |s.txns| && Committed(s.txns[t].stage) ::
          Row(s.txns[t].stage.seqNo, s.txns[t].msg, t) in s.rows)
    && (forall i, j | 0 <= i < j < |s.rows| :: s.rows[i].writer != s.rows[j].writer)
  }

  ghost predicate Inv(key: Keying, s: State) {
    LocksOk(key, s) && SeqsOk(s) && OrderOk(key, s) && IdsOk(s) && FailuresOk(s) && WritersOk(s)
  }

  lemma StepKeepsLocks(key: Keying, s: State, step: Step)
    requires LocksOk(key, s) && Enabled(key, s, step)
    ensures LocksOk(key, Apply(key, s, step))
  {}

  lemma AllocateKeepsSeqs(s: State, t: nat, n: int)
    requires SeqsOk(s) && t < |s.txns| && !InFlight(s.txns[t].stage) && Fresh(s, n)
    ensures SeqsOk(SetStage(s, t, Allocated(n)))
  {}

  lemma CommitKeepsSeqs(s: State, t: nat)
    requires SeqsOk(s) && t < |s.txns| && s.txns[t].stage.Inserted?
    ensures var n := s.txns[t].stage.seqNo;
            SeqsOk(SetStage(s, t, Visible(n)).(rows := s.rows + [Row(n, s.txns[t].msg, t)]))
  {}

  /** A step that allocates nothing and commits nothing. */
  lemma StageChangeKeepsSeqs(s: State, t: nat, stage: Stage)
    requires SeqsOk(s) && t < |s.txns|
    requires InFlight(stage) ==> InFlight(s.txns[t].stage) && stage.seqNo == s.txns[t].stage.seqNo
    ensures SeqsOk(SetStage(s, t, stage))
  {}

  lemma StepKeepsSeqs(key: Keying, s: State, step: Step)
    requires SeqsOk(s) && Enabled(key, s, step)
    ensures SeqsOk(Apply(key, s, step))
  {
    match step {
      case Begin(_) =>
      case Lock(t) => StageChangeKeepsSeqs(s, t, Locked);
      case Allocate(t, n) => AllocateKeepsSeqs(s, t, n);
      case InsertRow(t) => StageChangeKeepsSeqs(s, t, AfterInsert(s, t));
      case Commit(t) => CommitKeepsSeqs(s, t);
      case Release(t) => StageChangeKeepsSeqs(s, t, Done(s.txns[t].stage.seqNo));
      case Rollback(t) => StageChangeKeepsSeqs(s, t, RolledBack);
      case Subscribe(_) =>
      case Read(_, _) =>
    }
  }

  lemma StepKeepsOrder(key: Keying, s: State, step: Step)
    requires LocksOk(key, s) && OrderOk(key, s) && Enabled(key, s, step)
    ensures OrderOk(key, Apply(key, s, step))
  {}

  lemma StepKeepsIds(key: Keying, s: State, step: Step)
    requires IdsOk(s) && Enabled(key, s, step)
    ensures IdsOk(Apply(key, s, step))
  {}

  lemma RowsKeepDuplicates(s: State, s': State)
    requires s.rows <= s'.rows
    ensures forall id: string | Duplicate(s, id) :: Duplicate(s', id)
  {
    forall id: string | Duplicate(s, id) ensures Duplicate(s', id) {
      var i :| 0 <= i < |s.rows| && s.rows[i].msg.id == id;
      assert s'.rows[i].msg.id == id;
    }
  }

  lemma StepKeepsFailures(key: Keying, s: State, step: Step)
    requires FailuresOk(s) && Enabled(key, s, step)
    ensures FailuresOk(Apply(key, s, step))
  {
    RowsKeepDuplicates(s, Apply(key, s, step));
  }

  lemma CommitKeepsWriters(s: State, t: nat)
    requires WritersOk(s) && t < |s.txns| && s.txns[t].stage.Inserted?
    ensures var n := s.txns[t].stage.seqNo;
            WritersOk(SetStage(s, t, Visible(n)).(rows := s.rows + [Row(n, s.txns[t].msg, t)]))
  {
    var n := s.txns[t].stage.seqNo;
    var s' := SetStage(s, t, Visible(n)).(rows := s.rows + [Row(n, s.txns[t].msg, t)]);
    assert forall i | 0 <= i < |s.rows| :: s.rows[i].writer != t;
    assert s'.rows[|s.rows|] == Row(n, s.txns[t].msg, t);
  }

  lemma StageChangeKeepsWriters(s: State, t: nat, stage: Stage)
    requires WritersOk(s) && t < |s.txns| && (Committed(stage) <==> Committed(s.txns[t].stage))
    requires Committed(stage) ==> stage.seqNo == s.txns[t].stage.seqNo
    ensures WritersOk(SetStage(s, t, stage))
  {}

  lemma StepKeepsWriters(key: Keying, s: State, step: Step)
    requires WritersOk(s) && Enabled(key, s, step)
    ensures WritersOk(Apply(key, s, step))
  {
    match step {
      case Begin(_) =>
      case Lock(t) => StageChangeKeepsWriters(s, t, Locked);
      case Allocate(t, n) => StageChangeKeepsWriters(s, t, Allocated(n));
      case InsertRow(t) => StageChangeKeepsWriters(s, t, AfterInsert(s, t));
      case Commit(t) => CommitKeepsWriters(s, t);
      case Release(t) => StageChangeKeepsWriters(s, t, Done(s.txns[t].stage.seqNo));
      case Rollback(t) => StageChangeKeepsWriters(s, t, RolledBack);
      case Subscribe(_) =>
      case Read(_, _) =>
    }
  }

  lemma StepKeepsInv(key: Keying, s: State, step: Step)
    requires Inv(key, s) && Enabled(key, s, step)
    ensures Inv(key, Apply(key, s, step))
  {
    StepKeepsLocks(key, s, step);
    StepKeepsSeqs(key, s, step);
    StepKeepsOrder(key, s, step);
    StepKeepsIds(key, s, step);
    StepKeepsFailures(key, s, step);
    StepKeepsWriters(key, s, step);
  }

  lemma {:induction false} RunKeepsInv(key: Keying, s: State, steps: seq<Step>)
    requires Inv(key, s) && ValidRun(key, s, steps)
    ensures Inv(key, Exec(key, s, steps))
    decreases |steps|
  {
    if steps != [] {
      StepKeepsInv(key, s, steps[0]);
      RunKeepsInv(key, Apply(key, s, steps[0]), steps[1..]);
    }
  }

  lemma ReachableInv(key: Keying, steps: seq<Step>)
    requires ValidRun(key, INIT, steps)
    ensures Inv(key, Exec(key, INIT, steps))
  {
    RunKeepsInv(key, INIT, steps);
  }
}
