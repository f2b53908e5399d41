/** What the order of commits guarantees to readers, and exactly which choices of lock keys
    give that guarantee (contract at crates/store/src/types/message.rs:64-75). */
module MessageSafety {
  import opened Queries
  import opened Messages
  import opened MessageLog

  // ---- Histories only grow ----

  lemma StepAppendsRows(key: Keying, s: State, step: Step)
    requires Enabled(key, s, step)
    ensures s.rows <= Apply(key, s, step).rows
    ensures |s.txns| <= |Apply(key, s, step).txns| && |s.readers| <= |Apply(key, s, step).readers|
    ensures forall t | 0 <= t < |s.txns| :: Apply(key, s, step).txns[t].msg == s.txns[t].msg
    ensures forall r | 0 <= r < |s.readers| :: Apply(key, s, step).readers[r].group == s.readers[r].group
    ensures forall r | 0 <= r < |s.readers| :: s.readers[r].received <= Apply(key, s, step).readers[r].received
  {}

  /** Committed rows are durable and what a reader has received stays received. */
  lemma {:induction false} RunAppendsRows(key: Keying, s: State, steps: seq<Step>)
    requires ValidRun(key, s, steps)
    ensures var s' := Exec(key, s, steps);
            && s.rows <= s'.rows
            && |s.readers| <= |s'.readers|
            && forall r | 0 <= r < |s.readers| ::
                 s'.readers[r].group == s.readers[r].group && s.readers[r].received <= s'.readers[r].received
    decreases |steps|
  {
    if steps != [] {
      var mid := Apply(key, s, steps[0]);
      StepAppendsRows(key, s, steps[0]);
      RunAppendsRows(key, mid, steps[1..]);
    }
  }

  // ---- Which pairs of groups commit in order ----

  /** Any two different transactions, one writing to each group, compete for one key. */
  ghost predicate KeysAgree(key: Keying, g: string, h: string) {
    forall t: nat, u: nat | t != u :: key(t, g) == key(u, h)
  }

  /** A row of `h` committed after a row of `g` has the larger `seq`. */
  ghost predicate OrderedPair(rows: seq<Row>, g: string, h: string) {
    forall i, j | 0 <= i < j < |rows| && rows[i].msg.group == g && rows[j].msg.group == h ::
      rows[i].seqNo < rows[j].seqNo
  }

  ghost predicate OrderedInRun(key: Keying, steps: seq<Step>, g: string, h: string) {
    ValidRun(key, INIT, steps) ==> OrderedPair(Exec(key, INIT, steps).rows, g, h)
  }

  lemma AgreeingKeysOrder(key: Keying, s: State, g: string, h: string)
    requires Inv(key, s) && KeysAgree(key, g, h)
    ensures OrderedPair(s.rows, g, h)
  {
    forall i, j | 0 <= i < j < |s.rows| && s.rows[i].msg.group == g && s.rows[j].msg.group == h
      ensures s.rows[i].seqNo < s.rows[j].seqNo
    {
      assert s.rows[i].writer != s.rows[j].writer;
      assert RowKey(key, s.rows[i]) == RowKey(key, s.rows[j]);
    }
  }

  /** No late arrival. Split any run anywhere: a row of `h` committed in the second part is
      above every row of `g` that was already committed, and so above everything a reader of
      `g` had received and above its cursor. */
  lemma NoLateArrival(key: Keying, before: seq<Step>, after: seq<Step>, g: string, h: string, i: nat, j: nat)
    requires KeysAgree(key, g, h)
    requires ValidRun(key, INIT, before) && ValidRun(key, Exec(key, INIT, before), after)
    requires var s, s' := Exec(key, INIT, before), Exec(key, Exec(key, INIT, before), after);
             && i < |s.rows| <= j < |s'.rows|
             && s.rows[i].msg.group == g && s'.rows[j].msg.group == h
    ensures var s, s' := Exec(key, INIT, before), Exec(key, Exec(key, INIT, before), after);
            s.rows[i].seqNo < s'.rows[j].seqNo
  {
    var s := Exec(key, INIT, before);
    var s' := Exec(key, s, after);
    RunAppendsRows(key, s, after);
    ReachableInv(key, before);
    RunKeepsInv(key, s, after);
    AgreeingKeysOrder(key, s', g, h);
    assert s'.rows[i] == s.rows[i];
  }

  // ---- Runs that show the condition is needed ----

  function Message(id: string, group: string): NewMessage {
    NewMessage(id, group, "", "", "", 0)
  }

  /** Transactions `t` and `u` of interest among fillers that never do anything. */
  function OpeningMessage(i: nat, t: nat, g: string, u: nat, h: string): NewMessage {
    if i == t then Message("first", g) else if i == u then Message("second", h) else Message("idle", "")
  }

  function Opening(n: nat, t: nat, g: string, u: nat, h: string): (steps: seq<Step>) {
    if n == 0 then [] else Opening(n - 1, t, g, u, h) + [Begin(OpeningMessage(n - 1, t, g, u, h))]
  }

  function Opened(n: nat, t: nat, g: string, u: nat, h: string): (txns: seq<Txn>)
    ensures |txns| == n
    ensures forall i: nat | i < n :: txns[i] == Txn(OpeningMessage(i, t, g, u, h), Begun)
  {
    if n == 0 then [] else Opened(n - 1, t, g, u, h) + [Txn(OpeningMessage(n - 1, t, g, u, h), Begun)]
  }

  lemma {:induction false} OpeningRuns(key: Keying, n: nat, t: nat, g: string, u: nat, h: string)
    ensures ValidRun(key, INIT, Opening(n, t, g, u, h))
    ensures Exec(key, INIT, Opening(n, t, g, u, h)) == State(Opened(n, t, g, u, h), map[], [], [])
  {
    if n > 0 {
      OpeningRuns(key, n - 1, t, g, u, h);
      var last := [Begin(OpeningMessage(n - 1, t, g, u, h))];
      var s := Exec(key, INIT, Opening(n - 1, t, g, u, h));
      assert last[1..] == [];
      assert ValidRun(key, s, last);
      RunsConcatenate(key, INIT, Opening(n - 1, t, g, u, h), last);
    }
  }

  /** One more step at the end of a run. */
  lemma Extend(key: Keying, steps: seq<Step>, s: State, step: Step) returns (steps': seq<Step>, s': State)
    requires ValidRun(key, INIT, steps) && Exec(key, INIT, steps) == s && Enabled(key, s, step)
    ensures ValidRun(key, INIT, steps') && Exec(key, INIT, steps') == s' == Apply(key, s, step)
  {
    assert [step][1..] == [];
    assert ValidRun(key, s, [step]);
    RunsConcatenate(key, INIT, steps, [step]);
    steps', s' := steps + [step], Apply(key, s, step);
  }

  /** A transaction whose key is free and whose id is new gets as far as its row. */
  lemma WriteRow(key: Keying, steps: seq<Step>, s: State, t: nat, n: int) returns (steps': seq<Step>, s': State)
    requires ValidRun(key, INIT, steps) && Exec(key, INIT, steps) == s
    requires t < |s.txns| && s.txns[t].stage.Begun? && KeyOf(key, s, t) !in s.holder && Fresh(s, n)
    requires !Duplicate(s, s.txns[t].msg.id) && !Contended(s, t)
    ensures ValidRun(key, INIT, steps') && Exec(key, INIT, steps') == s'
    ensures s' == SetStage(s, t, Inserted(n)).(holder := s.holder[KeyOf(key, s, t) := t])
  {
    var s1, s2;
    steps', s1 := Extend(key, steps, s, Lock(t));
    assert Fresh(s1, n);
    steps', s2 := Extend(key, steps', s1, Allocate(t, n));
    assert !Contended(s2, t) && !Duplicate(s2, s2.txns[t].msg.id);
    steps', s' := Extend(key, steps', s2, InsertRow(t));
    assert s'.txns == SetStage(s, t, Inserted(n)).txns;
  }

  /** With different keys the second transaction draws `seq` 1, the first draws 2 and commits
      first. The second is still uncommitted at the end of this run. */
  lemma Overtaking(key: Keying, t: nat, g: string, u: nat, h: string) returns (steps: seq<Step>, s: State)
    requires t != u && key(t, g) != key(u, h)
    ensures ValidRun(key, INIT, steps) && Exec(key, INIT, steps) == s
    ensures s.rows == [Row(2, Message("first", g), t)] && s.readers == []
    ensures u < |s.txns| && s.txns[u] == Txn(Message("second", h), Inserted(1))
  {
    var n := if t < u then u + 1 else t + 1;
    steps := Opening(n, t, g, u, h);
    OpeningRuns(key, n, t, g, u, h);
    s := Exec(key, INIT, steps);
    steps, s := WriteRow(key, steps, s, u, 1);
    assert "first" != "second" by { assert |"first"| != |"second"|; }
    steps, s := WriteRow(key, steps, s, t, 2);
    steps, s := Extend(key, steps, s, Commit(t));
  }

  /** Exactly when two groups are in order in every run. For the code's keys, which depend
      on the group alone, a group is always in order with itself, and two groups are in
      order with each other only when their hashes collide. */
  lemma AlwaysOrderedExactlyWhen(key: Keying, g: string, h: string)
    ensures (forall steps: seq<Step> :: OrderedInRun(key, steps, g, h)) <==> KeysAgree(key, g, h)
  {
    if KeysAgree(key, g, h) {
      forall steps: seq<Step> ensures OrderedInRun(key, steps, g, h) {
        if ValidRun(key, INIT, steps) {
          ReachableInv(key, steps);
          AgreeingKeysOrder(key, Exec(key, INIT, steps), g, h);
        }
      }
    } else {
      var t: nat, u: nat :| t != u && key(t, g) != key(u, h);
      var steps, s := Overtaking(key, t, g, u, h);
      steps, s := Extend(key, steps, s, Commit(u));
      assert s.rows[0].msg.group == g && s.rows[1].msg.group == h;
      assert s.rows[0].seqNo == 2 && s.rows[1].seqNo == 1;
      assert !OrderedInRun(key, steps, g, h);
    }
  }

  // ---- Readers ----

  /** The rows a reader of the group should have by now: everything up to its cursor, in
      commit order. */
  function Expected(rows: seq<Row>, reader: Reader): seq<Row> {
    Filter(rows, (row: Row) => row.msg.group == reader.group && row.seqNo <= reader.cursor.seqNo)
  }

  ghost predicate ReadersExact(s: State, g: string) {
    forall r | 0 <= r < |s.readers| && s.readers[r].group == g ::
      s.readers[r].received == Expected(s.rows, s.readers[r])
  }

  function Log(rows: seq<Row>, g: string): seq<Row> {
    Filter(rows, (row: Row) => row.msg.group == g)
  }

  /** A reader of `g` has a prefix of the group's log and its cursor is the end of it. */
  ghost predicate AtPrefix(rows: seq<Row>, reader: Reader) {
    && reader.received <= Log(rows, reader.group)
    && reader.cursor == NextCursor(Cursor.Beginning(), reader.received)
  }

  ghost predicate ReadersOk(s: State, g: string) {
    forall r | 0 <= r < |s.readers| && s.readers[r].group == g :: AtPrefix(s.rows, s.readers[r])
  }

  lemma LogIsAscending(rows: seq<Row>, g: string)
    requires OrderedPair(rows, g, g)
    ensures Ascending(Log(rows, g), BySeq)
    ensures forall row | row in Log(rows, g) :: row in rows && row.msg.group == g
  {
    FilterKeepsPairs(rows, (row: Row) => row.msg.group == g, BySeq);
  }

  /** On a table whose group log is in order, the query returns the log's next slice. */
  lemma SinceIsLogSuffix(rows: seq<Row>, g: string, n: nat)
    requires Table(rows) && OrderedPair(rows, g, g) && n <= |Log(rows, g)|
    ensures Since(rows, g, NextCursor(Cursor.Beginning(), Log(rows, g)[..n])) == Log(rows, g)[n..]
  {
    var all, cursor := Log(rows, g), NextCursor(Cursor.Beginning(), Log(rows, g)[..n]);
    LogIsAscending(rows, g);
    SinceIsAscending(rows, g, cursor);
    assert n > 0 ==> all[..n][n - 1] == all[n - 1];
    forall row ensures row in all[n..] <==> row in Since(rows, g, cursor) {
      assert row in all <==> row in rows && row.msg.group == g;
      InSuffix(all, n, row);
      assert row in all ==> row.seqNo >= 1;
    }
    AscendingIsUnique(all[n..], Since(rows, g, cursor), BySeq);
  }

  lemma ExtendPrefix(all: seq<Row>, got: seq<Row>, n: nat)
    requires got <= all
    ensures var page := Take(all[|got|..], n);
            && got + page <= all
            && NextCursor(NextCursor(Cursor.Beginning(), got), page) == NextCursor(Cursor.Beginning(), got + page)
  {
    var page := Take(all[|got|..], n);
    assert got + page == all[..|got| + |page|];
  }

  /** A read by a reader at a prefix of the log delivers the log's next slice. */
  lemma ReadDeliversNextSlice(rows: seq<Row>, reader: Reader, limit: Limit)
    requires Table(rows) && OrderedPair(rows, reader.group, reader.group) && AtPrefix(rows, reader)
    ensures var reader' := AfterRead(rows, reader, limit);
            var left := Log(rows, reader.group)[|reader.received|..];
            && AtPrefix(rows, reader')
            && reader'.group == reader.group
            && reader'.received == reader.received + (if limit <= 0 then [] else Take(left, NextTake(limit)))
  {
    var n := |reader.received|;
    var all := Log(rows, reader.group);
    assert reader.received == all[..n];
    if limit > 0 {
      SinceIsLogSuffix(rows, reader.group, n);
      PageIsPrefix(rows, reader.group, reader.cursor, limit);
      ExtendPrefix(all, reader.received, NextTake(limit));
    } else {
      assert reader.received + [] == reader.received;
    }
  }

  lemma CommitExtendsLog(rows: seq<Row>, row: Row, g: string)
    ensures Log(rows + [row], g) == Log(rows, g) + (if row.msg.group == g then [row] else [])
  {
    FilterAppend(rows, [row], (row: Row) => row.msg.group == g);
  }

  lemma StepKeepsReaders(key: Keying, s: State, step: Step, g: string)
    requires Inv(key, s) && KeysAgree(key, g, g) && Enabled(key, s, step) && ReadersOk(s, g)
    ensures ReadersOk(Apply(key, s, step), g)
  {
    var s' := Apply(key, s, step);
    AgreeingKeysOrder(key, s, g, g);
    if step.Commit? {
      CommitExtendsLog(s.rows, Row(s.txns[step.t].stage.seqNo, s.txns[step.t].msg, step.t), g);
      assert Log(s.rows, g) <= Log(s'.rows, g);
    } else if step.Read? && s.readers[step.r].group == g {
      ReadDeliversNextSlice(s.rows, s.readers[step.r], step.limit);
    }
  }

  lemma {:induction false} RunKeepsReaders(key: Keying, s: State, steps: seq<Step>, g: string)
    requires Inv(key, s) && KeysAgree(key, g, g) && ReadersOk(s, g) && ValidRun(key, s, steps)
    ensures ReadersOk(Exec(key, s, steps), g)
    decreases |steps|
  {
    if steps != [] {
      StepKeepsInv(key, s, steps[0]);
      StepKeepsReaders(key, s, steps[0], g);
      RunKeepsReaders(key, Apply(key, s, steps[0]), steps[1..], g);
    }
  }

  /** A row of the group committed after a reader looked is ahead of that reader's cursor. */
  lemma NothingArrivesBehindReader(
    key: Keying, before: seq<Step>, after: seq<Step>, g: string, r: nat, j: nat)
    requires KeysAgree(key, g, g)
    requires ValidRun(key, INIT, before) && ValidRun(key, Exec(key, INIT, before), after)
    requires var s, s' := Exec(key, INIT, before), Exec(key, Exec(key, INIT, before), after);
             && r < |s.readers| && s.readers[r].group == g
             && |s.rows| <= j < |s'.rows| && s'.rows[j].msg.group == g
    ensures var s, s' := Exec(key, INIT, before), Exec(key, Exec(key, INIT, before), after);
            s.readers[r].cursor.seqNo < s'.rows[j].seqNo
  {
    var s := Exec(key, INIT, before);
    var s', reader := Exec(key, s, after), s.readers[r];
    ReachableInv(key, before);
    RunKeepsInv(key, s, after);
    RunKeepsReaders(key, INIT, before, g);
    AgreeingKeysOrder(key, s, g, g);
    LogIsAscending(s.rows, g);
    var n := |reader.received|;
    if n > 0 {
      var last := reader.received[n - 1];
      assert last == Log(s.rows, g)[n - 1] && last in Log(s.rows, g);
      var i :| 0 <= i < |s.rows| && s.rows[i] == last;
      NoLateArrival(key, before, after, g, g, i, j);
    } else {
      assert s'.rows[j].seqNo >= 1;
    }
  }

  /** In an ascending sequence the rows up to the last of a prefix are that prefix. */
  lemma {:induction false} FilterBelow(all: seq<Row>, n: nat, bound: int)
    requires n <= |all|
    requires forall i | 0 <= i < n :: all[i].seqNo <= bound
    requires forall i | n <= i < |all| :: all[i].seqNo > bound
    ensures Filter(all, (row: Row) => row.seqNo <= bound) == all[..n]
    decreases |all|
  {
    if all != [] {
      if n > 0 {
        FilterBelow(all[1..], n - 1, bound);
        assert all[..n] == [all[0]] + all[1..][..n - 1];
      } else {
        FilterBelow(all[1..], 0, bound);
      }
    }
  }

  lemma {:induction false} FilterTwice(rows: seq<Row>, reader: Reader)
    ensures Expected(rows, reader) == Filter(Log(rows, reader.group), (row: Row) => row.seqNo <= reader.cursor.seqNo)
    decreases |rows|
  {
    if rows != [] {
      FilterTwice(rows[1..], reader);
    }
  }

  /** The cursor after a prefix separates it from the rest. */
  lemma PrefixIsBelow(all: seq<Row>, n: nat)
    requires Ascending(all, BySeq) && n <= |all| && forall i | 0 <= i < |all| :: all[i].seqNo >= 1
    ensures var bound := NextCursor(Cursor.Beginning(), all[..n]).seqNo;
            && (forall i | 0 <= i < n :: all[i].seqNo <= bound)
            && (forall i | n <= i < |all| :: all[i].seqNo > bound)
  {
    if n > 0 {
      assert forall i | 0 <= i < n - 1 :: BySeq(all[i], all[n - 1]);
      assert forall i | n <= i < |all| :: BySeq(all[n - 1], all[i]);
    }
  }

  lemma PrefixIsExact(rows: seq<Row>, reader: Reader)
    requires Table(rows) && OrderedPair(rows, reader.group, reader.group) && AtPrefix(rows, reader)
    ensures reader.received == Expected(rows, reader)
  {
    var all, n := Log(rows, reader.group), |reader.received|;
    LogIsAscending(rows, reader.group);
    FilterTwice(rows, reader);
    assert reader.received == all[..n];
    forall i | 0 <= i < |all| ensures all[i].seqNo >= 1 {
      assert all[i] in all;
    }
    PrefixIsBelow(all, n);
    FilterBelow(all, n, reader.cursor.seqNo);
  }

  /** Readers of the group are exact in this run. */
  ghost predicate ExactInRun(key: Keying, steps: seq<Step>, g: string) {
    ValidRun(key, INIT, steps) ==> ReadersExact(Exec(key, INIT, steps), g)
  }

  /** Every reader of `g` has received, at every moment of every run, exactly the committed
      rows of `g` up to its cursor, each once and in order, if and only if the transactions
      writing to `g` share one lock key. */
  lemma ReadersExactExactlyWhen(key: Keying, g: string)
    ensures (forall steps: seq<Step> :: ExactInRun(key, steps, g)) <==> KeysAgree(key, g, g)
  {
    if KeysAgree(key, g, g) {
      forall steps: seq<Step> ensures ExactInRun(key, steps, g) {
        if ValidRun(key, INIT, steps) {
          var s := Exec(key, INIT, steps);
          ReachableInv(key, steps);
          RunKeepsReaders(key, INIT, steps, g);
          AgreeingKeysOrder(key, s, g, g);
          forall r | 0 <= r < |s.readers| && s.readers[r].group == g
            ensures s.readers[r].received == Expected(s.rows, s.readers[r])
          {
            PrefixIsExact(s.rows, s.readers[r]);
          }
        }
      }
    } else {
      var t: nat, u: nat :| t != u && key(t, g) != key(u, g);
      var steps := SkippedRow(key, t, u, g);
      assert !ExactInRun(key, steps, g);
    }
  }

  /** Without a shared key a reader passes `seq` 2 while 1 is uncommitted, and then skips it. */
  lemma SkippedRow(key: Keying, t: nat, u: nat, g: string) returns (steps: seq<Step>)
    requires t != u && key(t, g) != key(u, g)
    ensures ValidRun(key, INIT, steps)
    ensures !ReadersExact(Exec(key, INIT, steps), g)
  {
    var first, second := Row(2, Message("first", g), t), Row(1, Message("second", g), u);
    var s;
    steps, s := Overtaking(key, t, g, u, g);
    steps, s := Extend(key, steps, s, Subscribe(g));
    var reader := Reader(g, Cursor.Beginning(), []);
    assert s.readers == [reader] && s.rows == [first];
    OneRowPage(first, reader);
    steps, s := Extend(key, steps, s, Read(0, 1));
    assert s.readers[0].received == [first] && s.readers[0].cursor == Cursor(2);
    steps, s := Extend(key, steps, s, Commit(u));
    assert s.rows == [first, second];
    assert second in Expected(s.rows, s.readers[0]) by { assert second in s.rows; }
    assert second !in s.readers[0].received;
  }

  lemma OneRowPage(row: Row, reader: Reader)
    requires row.msg.group == reader.group && row.seqNo >= 1 && row.seqNo > reader.cursor.seqNo
    ensures AfterRead([row], reader, 1) == reader.(cursor := Cursor(row.seqNo), received := reader.received + [row])
  {
    PageIsPrefix([row], reader.group, reader.cursor, 1);
    SinceIsAscending([row], reader.group, reader.cursor);
    var all := Since([row], reader.group, reader.cursor);
    assert row in [row];
    AscendingIsUnique(all, [row], BySeq);
  }

  // ---- The code's own choice ----

  /** The code's keys: a hash of the group. */
  function GroupKeys(hash: string -> Key): Keying {
    (t, g) => hash(g)
  }

  /** Per-group order and exact readers hold whatever the hash, collisions and a single
      global lock included; the stronger promise across groups holds for two groups only
      when their hashes collide. */
  lemma GroupKeysGuarantee(hash: string -> Key, g: string, h: string)
    ensures forall steps: seq<Step> :: ExactInRun(GroupKeys(hash), steps, g)
    ensures forall steps: seq<Step> :: OrderedInRun(GroupKeys(hash), steps, g, g)
    ensures (forall steps: seq<Step> :: OrderedInRun(GroupKeys(hash), steps, g, h)) <==> hash(g) == hash(h)
  {
    var key := GroupKeys(hash);
    assert KeysAgree(key, g, g);
    assert KeysAgree(key, g, h) <==> hash(g) == hash(h) by {
      assert key(0, g) == hash(g) && key(1, h) == hash(h);
    }
    ReadersExactExactlyWhen(key, g);
    AlwaysOrderedExactlyWhen(key, g, g);
    AlwaysOrderedExactlyWhen(key, g, h);
  }

  /** A key of its own for every transaction: no lock at all. */
  function NoLock(): Keying {
    (t, g) => t
  }

  /** Leaving the lock out breaks every group. */
  lemma WithoutLockReadersSkip(g: string)
    ensures exists steps: seq<Step> :: !ExactInRun(NoLock(), steps, g)
  {
    var steps := SkippedRow(NoLock(), 0, 1, g);
    assert !ExactInRun(NoLock(), steps, g);
  }
}
