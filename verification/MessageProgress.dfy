/** The protocol never gets stuck, every transaction comes to an end, and without voluntary
    rollbacks every submitted message id is stored exactly once. */
module MessageProgress {
  import opened Messages
  import opened MessageLog
  import opened MessageSafety

  // ---- A bound on what is left to do ----

  /** Steps a transaction can still take. */
  function Remaining(stage: Stage): nat {
    match stage
    case Begun => 6
    case Locked => 5
    case Allocated(_) => 4
    case Waiting(_) => 3
    case Inserted(_) => 2
    case Failed => 1
    case Visible(_) => 1
    case Done(_) => 0
    case RolledBack => 0
  }

  function Work(txns: seq<Txn>): nat {
    if txns == [] then 0 else Remaining(txns[0].stage) + Work(txns[1..])
  }

  lemma {:induction false} WorkAfterUpdate(txns: seq<Txn>, t: nat, txn: Txn)
    requires t < |txns|
    ensures Work(txns[t := txn]) + Remaining(txns[t].stage) == Work(txns) + Remaining(txn.stage)
  {
    if t == 0 {
      assert txns[0 := txn][1..] == txns[1..];
    } else {
      assert txns[t := txn][1..] == txns[1..][t - 1 := txn];
      WorkAfterUpdate(txns[1..], t - 1, txn);
    }
  }

  ghost predicate AllFinished(s: State) {
    forall t | 0 <= t < |s.txns| :: Finished(s.txns[t].stage)
  }

  /** A step of a transaction that has already begun. */
  predicate TxnStep(step: Step) {
    !step.Begin? && !step.Subscribe? && !step.Read?
  }

  /** A step the code takes on its own account: it rolls back only after a failed insert. */
  predicate Forward(key: Keying, s: State, step: Step)
    requires Enabled(key, s, step)
  {
    TxnStep(step) && (step.Rollback? ==> s.txns[step.t].stage.Failed?)
  }

  lemma TxnStepDoesWork(key: Keying, s: State, step: Step)
    requires Enabled(key, s, step) && TxnStep(step)
    ensures Work(Apply(key, s, step).txns) < Work(s.txns)
  {
    var s' := Apply(key, s, step);
    assert s'.txns == s.txns[step.t := s'.txns[step.t]];
    WorkAfterUpdate(s.txns, step.t, s'.txns[step.t]);
  }

  ghost predicate NoBegin(steps: seq<Step>) {
    forall i | 0 <= i < |steps| :: !steps[i].Begin?
  }

  function TxnSteps(steps: seq<Step>): nat {
    if steps == [] then 0 else (if TxnStep(steps[0]) then 1 else 0) + TxnSteps(steps[1..])
  }

  /** With no new transactions, however many readers come and read, the number of steps that
      transactions take is bounded by the work at the start. */
  lemma {:induction false} RunsAreBounded(key: Keying, s: State, steps: seq<Step>)
    requires ValidRun(key, s, steps) && NoBegin(steps)
    ensures TxnSteps(steps) + Work(Exec(key, s, steps).txns) <= Work(s.txns)
    decreases |steps|
  {
    if steps != [] {
      if TxnStep(steps[0]) {
        TxnStepDoesWork(key, s, steps[0]);
      }
      RunsAreBounded(key, Apply(key, s, steps[0]), steps[1..]);
    }
  }

  // ---- Who waits for whom ----

  /** `t` cannot go on before `u` has moved: `u` holds the lock it wants, or has written a
      row with its id. */
  predicate WaitsFor(key: Keying, s: State, t: nat, u: nat) {
    && t < |s.txns| && u < |s.txns| && u != t
    && if s.txns[t].stage.Begun? then
         KeyOf(key, s, t) in s.holder && s.holder[KeyOf(key, s, t)] == u
       else
         s.txns[t].stage.Waiting? && s.txns[u].stage.Inserted? && s.txns[u].msg.id == s.txns[t].msg.id
  }

  function Rank(stage: Stage): nat {
    if stage.Begun? then 2 else if stage.Waiting? then 1 else 0
  }

  function HighestSeq(s: State): (n: int)
    ensures n >= 0
    ensures Fresh(s, n + 1)
  {
    var a := HighestRow(s.rows);
    var b := HighestInFlight(s.txns);
    if a < b then b else a
  }

  function HighestRow(rows: seq<Row>): (n: int)
    ensures n >= 0 && forall i | 0 <= i < |rows| :: rows[i].seqNo <= n
  {
    if rows == [] then 0
    else
      var m := HighestRow(rows[..|rows| - 1]);
      if rows[|rows| - 1].seqNo > m then rows[|rows| - 1].seqNo else m
  }

  function HighestInFlight(txns: seq<Txn>): (n: int)
    ensures n >= 0 && forall t | 0 <= t < |txns| && InFlight(txns[t].stage) :: txns[t].stage.seqNo <= n
  {
    if txns == [] then 0
    else
      var m := HighestInFlight(txns[..|txns| - 1]);
      var stage := txns[|txns| - 1].stage;
      if InFlight(stage) && stage.seqNo > m then stage.seqNo else m
  }

  /** The next step of an unfinished transaction. */
  function NextStep(s: State, t: nat): Step
    requires t < |s.txns| && !Finished(s.txns[t].stage)
  {
    match s.txns[t].stage
    case Begun => Lock(t)
    case Locked => Allocate(t, HighestSeq(s) + 1)
    case Allocated(_) => InsertRow(t)
    case Waiting(_) => InsertRow(t)
    case Inserted(_) => Commit(t)
    case Failed => Rollback(t)
    case Visible(_) => Release(t)
  }

  /** Waiting has no cycles, and whoever cannot take its next step is waiting for somebody. */
  lemma WaitingIsRanked(key: Keying, s: State, t: nat)
    requires LocksOk(key, s) && t < |s.txns| && !Finished(s.txns[t].stage)
    ensures forall u: nat | WaitsFor(key, s, t, u) ::
              Rank(s.txns[u].stage) < Rank(s.txns[t].stage) && !Finished(s.txns[u].stage)
    ensures Enabled(key, s, NextStep(s, t)) <==> !exists u: nat :: WaitsFor(key, s, t, u)
  {
    if s.txns[t].stage.Begun? && KeyOf(key, s, t) in s.holder {
      assert WaitsFor(key, s, t, s.holder[KeyOf(key, s, t)]);
    }
    if s.txns[t].stage.Waiting? && Contended(s, t) {
      var u: nat :| u < |s.txns| && u != t && s.txns[u].stage.Inserted? && s.txns[u].msg.id == s.txns[t].msg.id;
      assert WaitsFor(key, s, t, u);
    }
  }

  /** A busy group does not hold up another: nobody waits for a transaction that has another
      key and another id. */
  lemma OtherGroupsDoNotBlock(key: Keying, s: State, t: nat)
    requires LocksOk(key, s) && t < |s.txns| && !Finished(s.txns[t].stage)
    requires forall u: nat | u < |s.txns| && u != t && !Finished(s.txns[u].stage) ::
               KeyOf(key, s, u) != KeyOf(key, s, t) && s.txns[u].msg.id != s.txns[t].msg.id
    ensures Enabled(key, s, NextStep(s, t))
  {
    WaitingIsRanked(key, s, t);
  }

  /** A transaction that has not committed can be abandoned at any point, by a crash or a
      failed statement: no row, reader or other transaction changes, and nobody waits for it. */
  lemma RollbackLeavesNoTrace(key: Keying, steps: seq<Step>, t: nat)
    requires ValidRun(key, INIT, steps) && t < |Exec(key, INIT, steps).txns|
    requires var stage := Exec(key, INIT, steps).txns[t].stage; !Committed(stage) && !stage.RolledBack?
    ensures var s := Exec(key, INIT, steps);
            && Enabled(key, s, Rollback(t))
            && var s' := Apply(key, s, Rollback(t));
               && s'.rows == s.rows && s'.readers == s.readers
               && |s'.txns| == |s.txns|
               && (forall u | 0 <= u < |s.txns| && u != t :: s'.txns[u] == s.txns[u])
               && (forall u: nat :: !WaitsFor(key, s', u, t))
  {
    ReachableInv(key, steps);
    StepKeepsLocks(key, Exec(key, INIT, steps), Rollback(t));
  }

  /** In this run some transaction of `g` waits for one of `h` that has another message id. */
  ghost predicate Contends(key: Keying, steps: seq<Step>, g: string, h: string) {
    && ValidRun(key, INIT, steps)
    && var s := Exec(key, INIT, steps);
       exists t: nat, u: nat :: WaitsFor(key, s, t, u) && BetweenGroups(s, t, g, u, h)
  }

  predicate BetweenGroups(s: State, t: nat, g: string, u: nat, h: string) {
    && t < |s.txns| && u < |s.txns| && s.txns[t].msg.id != s.txns[u].msg.id
    && s.txns[t].msg.group == g && s.txns[u].msg.group == h
  }

  /** Which groups can hold each other up with different messages: exactly those for which
      two different transactions may take one key. */
  lemma ContendExactlyWhen(key: Keying, g: string, h: string)
    ensures (exists steps: seq<Step> :: Contends(key, steps, g, h))
            <==> exists t: nat, u: nat :: t != u && key(t, g) == key(u, h)
  {
    if steps: seq<Step> :| Contends(key, steps, g, h) {
      var s := Exec(key, INIT, steps);
      var t: nat, u: nat :| WaitsFor(key, s, t, u) && BetweenGroups(s, t, g, u, h);
      ReachableInv(key, steps);
      assert key(t, g) == KeyOf(key, s, t) == KeyOf(key, s, u) == key(u, h);
    }
    if t: nat, u: nat :| t != u && key(t, g) == key(u, h) {
      var n := if t < u then u + 1 else t + 1;
      var steps := Opening(n, t, g, u, h);
      OpeningRuns(key, n, t, g, u, h);
      var s := Exec(key, INIT, steps);
      steps, s := Extend(key, steps, s, Lock(u));
      DifferentIds();
      assert WaitsFor(key, s, t, u) && BetweenGroups(s, t, g, u, h);
      assert Contends(key, steps, g, h);
    }
  }

  lemma DifferentIds()
    ensures "first" != "second"
  {
    assert |"first"| != |"second"|;
  }

  /** For the code's keys: different groups hold each other up only when their hashes collide. */
  lemma GroupsContendExactlyWhen(hash: string -> Key, g: string, h: string)
    ensures (exists steps: seq<Step> :: Contends(GroupKeys(hash), steps, g, h)) <==> hash(g) == hash(h)
  {
    var key := GroupKeys(hash);
    ContendExactlyWhen(key, g, h);
    assert key(0, g) == hash(g) && key(1, h) == hash(h);
  }

  /** Following the waits from `t` ends at a transaction that can take its next step. */
  lemma {:induction false} Unblocked(key: Keying, s: State, t: nat) returns (u: nat)
    requires LocksOk(key, s) && t < |s.txns| && !Finished(s.txns[t].stage)
    ensures u < |s.txns| && !Finished(s.txns[u].stage) && Enabled(key, s, NextStep(s, u))
    decreases Rank(s.txns[t].stage)
  {
    WaitingIsRanked(key, s, t);
    if Enabled(key, s, NextStep(s, t)) {
      u := t;
    } else {
      var v: nat :| WaitsFor(key, s, t, v);
      u := Unblocked(key, s, v);
    }
  }

  lemma FinishedCannotMove(key: Keying, s: State, step: Step)
    requires AllFinished(s) && Enabled(key, s, step)
    ensures !Forward(key, s, step)
  {
    assert TxnStep(step) ==> step.t < |s.txns| && !Finished(s.txns[step.t].stage);
  }

  /** No deadlock: as long as some transaction is unfinished, some transaction can take the
      code's next step, without anybody having to give up. */
  lemma NoDeadlock(key: Keying, steps: seq<Step>)
    requires ValidRun(key, INIT, steps)
    ensures var s := Exec(key, INIT, steps);
            AllFinished(s) <==> !exists step: Step :: Enabled(key, s, step) && Forward(key, s, step)
  {
    var s := Exec(key, INIT, steps);
    ReachableInv(key, steps);
    if AllFinished(s) {
      forall step: Step | Enabled(key, s, step) ensures !Forward(key, s, step) {
        FinishedCannotMove(key, s, step);
      }
    } else {
      var t :| 0 <= t < |s.txns| && !Finished(s.txns[t].stage);
      var u := Unblocked(key, s, t);
      assert Forward(key, s, NextStep(s, u));
    }
  }

  // ---- Runs without voluntary rollbacks ----

  ghost predicate ForwardRun(key: Keying, s: State, steps: seq<Step>)
    ensures ForwardRun(key, s, steps) ==> ValidRun(key, s, steps)
    decreases |steps|
  {
    steps != [] ==>
      && Enabled(key, s, steps[0]) && Forward(key, s, steps[0])
      && ForwardRun(key, Apply(key, s, steps[0]), steps[1..])
  }

  /** From every reachable state the open transactions can all be brought to an end. */
  lemma {:induction false} EverybodyFinishes(key: Keying, s: State) returns (steps: seq<Step>)
    requires Inv(key, s)
    ensures ForwardRun(key, s, steps)
    ensures AllFinished(Exec(key, s, steps))
    decreases Work(s.txns)
  {
    if !AllFinished(s) {
      var t :| 0 <= t < |s.txns| && !Finished(s.txns[t].stage);
      var u := Unblocked(key, s, t);
      var step := NextStep(s, u);
      TxnStepDoesWork(key, s, step);
      StepKeepsInv(key, s, step);
      var rest := EverybodyFinishes(key, Apply(key, s, step));
      steps := [step] + rest;
      assert steps[0] == step && steps[1..] == rest;
    } else {
      steps := [];
    }
  }

  /** A transaction that failed, or that gave up after failing, found its id taken. */
  ghost predicate GaveUpForReason(s: State, before: State) {
    && |before.txns| == |s.txns|
    && forall t | 0 <= t < |s.txns| ::
         && s.txns[t].msg == before.txns[t].msg
         && (s.txns[t].stage.Failed? ==> Duplicate(s, s.txns[t].msg.id))
         && (s.txns[t].stage.RolledBack? && !before.txns[t].stage.RolledBack? ==> Duplicate(s, s.txns[t].msg.id))
  }

  lemma ForwardStepKeepsReason(key: Keying, s: State, before: State, step: Step)
    requires GaveUpForReason(s, before) && Enabled(key, s, step) && Forward(key, s, step)
    ensures GaveUpForReason(Apply(key, s, step), before)
  {
    var s' := Apply(key, s, step);
    RowsKeepDuplicates(s, s');
  }

  lemma {:induction false} ForwardRunKeepsReason(key: Keying, s: State, before: State, steps: seq<Step>)
    requires GaveUpForReason(s, before) && ForwardRun(key, s, steps)
    ensures GaveUpForReason(Exec(key, s, steps), before)
    decreases |steps|
  {
    if steps != [] {
      ForwardStepKeepsReason(key, s, before, steps[0]);
      ForwardRunKeepsReason(key, Apply(key, s, steps[0]), before, steps[1..]);
    }
  }

  ghost predicate StoredOnce(rows: seq<Row>, id: string) {
    exists i | 0 <= i < |rows| :: rows[i].msg.id == id && forall j | 0 <= j < |rows| && j != i :: rows[j].msg.id != id
  }

  /** Run any open transactions, of any groups and with any clashes of ids, to their end
      without voluntary rollbacks: every submitted id is stored exactly once. */
  lemma EverySubmittedIdIsStoredOnce(key: Keying, s: State, steps: seq<Step>, t: nat)
    requires Inv(key, s) && ForwardRun(key, s, steps)
    requires t < |s.txns| && !s.txns[t].stage.RolledBack?
    requires AllFinished(Exec(key, s, steps))
    ensures StoredOnce(Exec(key, s, steps).rows, s.txns[t].msg.id)
  {
    var s' := Exec(key, s, steps);
    ForwardRunKeepsReason(key, s, s, steps);
    RunKeepsInv(key, s, steps);
    if s'.txns[t].stage.RolledBack? {
      assert Duplicate(s', s'.txns[t].msg.id);
    } else {
      CommittedIsStored(s', t);
    }
    DuplicateIsUnique(s', s'.txns[t].msg.id);
  }

  lemma CommittedIsStored(s: State, t: nat)
    requires WritersOk(s) && t < |s.txns| && Committed(s.txns[t].stage)
    ensures Duplicate(s, s.txns[t].msg.id)
  {
    var row := Row(s.txns[t].stage.seqNo, s.txns[t].msg, t);
    assert row in s.rows;
    var i :| 0 <= i < |s.rows| && s.rows[i] == row;
    assert s.rows[i].msg.id == s.txns[t].msg.id;
  }

  lemma DuplicateIsUnique(s: State, id: string)
    requires IdsOk(s) && Duplicate(s, id)
    ensures StoredOnce(s.rows, id)
  {
    var i :| 0 <= i < |s.rows| && s.rows[i].msg.id == id;
    forall j | 0 <= j < |s.rows| && j != i ensures s.rows[j].msg.id != id {
      assert i < j ==> s.rows[i].msg.id != s.rows[j].msg.id;
      assert j < i ==> s.rows[j].msg.id != s.rows[i].msg.id;
    }
  }
}
