/** `store_message` and `get_messages_since` as calls on a shared database, with others interfering
    between any two statements. */
module MessageStore {
  import opened Outcomes
  import opened Queries
  import opened Messages
  import opened MessageLog
  import opened MessageSafety
  import opened MessageProgress

  predicate Moves(t: nat, step: Step) {
    TxnStep(step) && step.t == t
  }

  lemma OthersStayPut(key: Keying, s: State, step: Step, t: nat)
    requires t < |s.txns| && Enabled(key, s, step) && !Moves(t, step)
    ensures t < |Apply(key, s, step).txns| && Apply(key, s, step).txns[t] == s.txns[t]
  {}

  /** The answer of a read, and what it does to the reader. */
  lemma ReadAnswers(rows: seq<Row>, reader: Reader, limit: Limit)
    requires Table(rows) && OrderedPair(rows, reader.group, reader.group) && AtPrefix(rows, reader)
    ensures var answer := Messages.GetMessagesSince(rows, reader.group, reader.cursor, limit);
            var left := Log(rows, reader.group)[|reader.received|..];
            && (answer.Err? <==> limit < 0)
            && (answer.Err? ==> answer.error == InvalidLimit && AfterRead(rows, reader, limit) == reader)
            && (answer.Ok? ==>
                  && AfterRead(rows, reader, limit).received == reader.received + answer.value
                  && answer.value == if limit == 0 then [] else Take(left, NextTake(limit)))
  {
    ReadDeliversNextSlice(rows, reader, limit);
    OnlyNegativeLimitsFail(rows, reader.group, reader.cursor, limit);
    if limit > 0 {
      var left := Log(rows, reader.group)[|reader.received|..];
      var page := Messages.GetMessagesSince(rows, reader.group, reader.cursor, limit).value;
      assert (reader.received + page)[|reader.received|..] == page;
      assert (reader.received + Take(left, NextTake(limit)))[|reader.received|..] == Take(left, NextTake(limit));
    }
  }

  class Database {
    const key: Keying
    var state: State

    /** The run of the protocol that led to the present state. */
    ghost var trace: seq<Step>

    ghost predicate Valid()
      reads this
    {
      ValidRun(key, INIT, trace) && Exec(key, INIT, trace) == state
    }

    constructor (key: Keying)
      ensures Valid() && this.key == key && state == INIT
    {
      this.key := key;
      state := INIT;
      trace := [];
    }

    /** One atomic step of the database. */
    method Do(step: Step)
      requires Valid() && Enabled(key, state, step)
      modifies this
      ensures Valid() && trace == old(trace) + [step]
      ensures state == Apply(key, old(state), step)
      ensures old(state).rows <= state.rows
    {
      StepAppendsRows(key, state, step);
      assert [step][1..] == [];
      assert ValidRun(key, state, [step]);
      RunsConcatenate(key, INIT, trace, [step]);
      trace := trace + [step];
      state := Apply(key, state, step);
    }

    /** The next step of one open transaction; the others stay where they are. */
    method Advance(u: nat)
      requires Valid() && u < |state.txns| && !Finished(state.txns[u].stage)
      requires Enabled(key, state, NextStep(state, u))
      modifies this
      ensures Valid() && old(trace) <= trace
      ensures |state.txns| == |old(state).txns|
      ensures forall v: nat | v < |state.txns| && v != u :: state.txns[v] == old(state).txns[v]
      ensures state.readers == old(state).readers && old(state).rows <= state.rows
      ensures Work(state.txns) < Work(old(state).txns)
    {
      TxnStepDoesWork(key, state, NextStep(state, u));
      Do(NextStep(state, u));
    }

    /** Some step that is not a step of `t`. */
    method Disturb(t: nat)
      requires Valid() && t < |state.txns|
      modifies this
      ensures Valid() && old(trace) <= trace
      ensures t < |state.txns| && state.txns[t] == old(state).txns[t]
      ensures old(state).rows <= state.rows
    {
      assert Enabled(key, state, Subscribe("")) && !Moves(t, Subscribe(""));
      var step :| Enabled(key, state, step) && !Moves(t, step);
      OthersStayPut(key, state, step, t);
      Do(step);
    }

    /** Anything but a step of `t` happens, any number of times: other transactions begin,
        go on or give up, and readers come and read. */
    method Interfere(t: nat)
      requires Valid() && t < |state.txns|
      modifies this
      ensures Valid() && old(trace) <= trace
      ensures t < |state.txns| && state.txns[t] == old(state).txns[t]
      ensures old(state).rows <= state.rows
    {
      var n: nat :| 0 <= n;
      for i := 0 to n
        invariant Valid() && old(trace) <= trace
        invariant t < |state.txns| && state.txns[t] == old(state).txns[t]
        invariant old(state).rows <= state.rows
      {
        Disturb(t);
      }
    }

    /** Follow the waits from `t` to a transaction that can go on. */
    method FindUnblocked(t: nat) returns (u: nat)
      requires Valid() && t < |state.txns| && !Finished(state.txns[t].stage)
      ensures u < |state.txns| && !Finished(state.txns[u].stage) && Enabled(key, state, NextStep(state, u))
    {
      ReachableInv(key, trace);
      u := t;
      while !Enabled(key, state, NextStep(state, u))
        invariant 0 <= u < |state.txns| && !Finished(state.txns[u].stage)
        decreases Rank(state.txns[u].stage)
      {
        WaitingIsRanked(key, state, u);
        var v: nat :| v < |state.txns| && WaitsFor(key, state, u, v);
        u := v;
      }
    }

    /** Blocked on a lock or on a unique id: whoever is waited for goes on, in between any
        other steps happen, in any order and number, until the next step of `t` is possible.
        The wait comes to an end when those other steps do. */
    method AwaitTurn(t: nat)
      requires Valid() && t < |state.txns| && !Finished(state.txns[t].stage)
      modifies this
      ensures Valid() && old(trace) <= trace
      ensures t < |state.txns| && state.txns[t] == old(state).txns[t]
      ensures old(state).rows <= state.rows
      ensures Enabled(key, state, NextStep(state, t))
    {
      var disturbances: nat :| 0 <= disturbances;
      while !Enabled(key, state, NextStep(state, t))
        invariant Valid() && old(trace) <= trace
        invariant t < |state.txns| && state.txns[t] == old(state).txns[t]
        invariant old(state).rows <= state.rows
        decreases disturbances, Work(state.txns)
      {
        var disturbed: bool :| disturbances == 0 ==> !disturbed;
        if disturbed {
          disturbances := disturbances - 1;
          Disturb(t);
        } else {
          var u := FindUnblocked(t);
          Advance(u);
        }
      }
    }

    /** The insert statement: draw a number, then wait for the unique index if need be. */
    method Insert(t: nat)
      requires Valid() && t < |state.txns| && state.txns[t].stage.Locked?
      modifies this
      ensures Valid() && old(trace) <= trace
      ensures old(state).rows <= state.rows
      ensures t < |state.txns| && state.txns[t].msg == old(state).txns[t].msg
      ensures || state.txns[t].stage.Inserted?
              || (state.txns[t].stage.Failed? && Duplicate(state, state.txns[t].msg.id))
    {
      assert Fresh(state, HighestSeq(state) + 1);
      var n: int :| Fresh(state, n);
      Do(Allocate(t, n));
      Interfere(t);
      Do(InsertRow(t));
      if state.txns[t].stage.Waiting? {
        AwaitTurn(t);
        Do(InsertRow(t));
      }
    }

    /** Begin, and wait for the lock. */
    method BeginLocked(msg: NewMessage) returns (t: nat)
      requires Valid()
      modifies this
      ensures Valid() && old(trace) <= trace
      ensures old(state).rows <= state.rows
      ensures t == |old(state).txns| < |state.txns| && state.txns[t] == Txn(msg, Locked)
    {
      t := |state.txns|;
      Do(Begin(msg));
      Interfere(t);
      AwaitTurn(t);
      Do(Lock(t));
      Interfere(t);
    }

    /** Commit the written row and let go of the lock. */
    method CommitAndRelease(t: nat) returns (ghost i: nat)
      requires Valid() && t < |state.txns| && state.txns[t].stage.Inserted?
      modifies this
      ensures Valid() && old(trace) <= trace
      ensures old(state).rows <= state.rows
      ensures t < |state.txns| && state.txns[t].stage.Done?
      ensures |old(state).rows| <= i < |state.rows|
      ensures state.rows[i].msg == old(state).txns[t].msg && state.rows[i].writer == t
    {
      i := |state.rows|;
      Do(Commit(t));
      ghost var row := state.rows[i];
      Interfere(t);
      Do(Release(t));
      assert state.rows[i] == row;
    }

    /** One call, from begin to commit, while anything may happen between its statements.
        It comes to an end when those it waits for are given the chance to go on. Success
        means that the row is committed, after everything that was committed before the call
        and with a larger `seq` than all earlier rows under the same key; failure means that
        the id is taken. */
    method StoreMessage(msg: NewMessage) returns (ok: bool)
      requires Valid()
      modifies this
      ensures Valid() && old(trace) <= trace
      ensures old(state).rows <= state.rows
      ensures |state.txns| > |old(state).txns| && Finished(state.txns[|old(state).txns|].stage)
      ensures ok ==> exists i | |old(state).rows| <= i < |state.rows| ::
                && state.rows[i].msg == msg
                && state.rows[i].writer == |old(state).txns|
                && forall j | 0 <= j < i && RowKey(key, state.rows[j]) == RowKey(key, state.rows[i]) ::
                     state.rows[j].seqNo < state.rows[i].seqNo
      ensures !ok ==> Duplicate(state, msg.id) && state.txns[|old(state).txns|].stage.RolledBack?
    {
      var t := BeginLocked(msg);
      Insert(t);
      ghost var written := state;
      Interfere(t);
      if state.txns[t].stage.Failed? {
        RowsKeepDuplicates(written, state);
        Do(Rollback(t));
        return false;
      }
      ghost var i := CommitAndRelease(t);
      assert OrderOk(key, state) by { ReachableInv(key, trace); }
      return true;
    }

    /** One read by a reader that pages from its cursor: the next slice of its group's log,
        whole, in order and without anything it has had before. A negative limit is an error
        and delivers nothing. */
    method GetMessagesSince(r: nat, limit: Limit) returns (answer: Result<seq<Row>>)
      requires Valid() && r < |state.readers|
      requires KeysAgree(key, state.readers[r].group, state.readers[r].group)
      modifies this
      ensures Valid() && old(trace) <= trace
      ensures state.rows == old(state).rows && state.txns == old(state).txns
      ensures |state.readers| == |old(state).readers| && state.readers[r].group == old(state).readers[r].group
      ensures answer.Err? <==> limit < 0
      ensures answer.Err? ==> answer.error == InvalidLimit && state == old(state)
      ensures answer.Ok? ==> state.readers[r].received == old(state).readers[r].received + answer.value
      ensures old(state).readers[r].received <= Log(state.rows, state.readers[r].group)
      ensures var left := Log(state.rows, state.readers[r].group)[|old(state).readers[r].received|..];
              answer.Ok? ==> answer.value == if limit == 0 then [] else Take(left, NextTake(limit))
    {
      ghost var reader := state.readers[r];
      ReachableInv(key, trace);
      RunKeepsReaders(key, INIT, trace, reader.group);
      AgreeingKeysOrder(key, state, reader.group, reader.group);
      ReadAnswers(state.rows, reader, limit);
      answer := Messages.GetMessagesSince(state.rows, state.readers[r].group, state.readers[r].cursor, limit);
      ghost var readers := state.readers;
      Do(Read(r, limit));
      assert answer.Err? ==> state.readers == readers;
    }
  }
}
