/** The whole protocol, with its locks, sequence numbers and cursors, behaves like one
    append-only list of messages per group. */
module MessageRefinement {
  import opened Queries
  import opened Messages
  import opened MessageLog
  import opened MessageSafety

  // ---- The specification: lists and positions, no numbers, no locks ----

  datatype Subscriber = Subscriber(group: string, received: seq<NewMessage>)

  datatype Logs = Logs(logs: map<string, seq<NewMessage>>, subscribers: seq<Subscriber>)

  datatype Event = Nothing | Append(msg: NewMessage) | Join(group: string) | Deliver(r: nat, count: nat)

  const EMPTY_LOGS: Logs := Logs(map[], [])

  function LogFor(a: Logs, group: string): seq<NewMessage> {
    if group in a.logs then a.logs[group] else []
  }

  /** A subscriber at position `|received|` gets the next `count` messages of its list. */
  function Next(a: Logs, e: Event): Logs {
    match e
    case Nothing => a
    case Append(msg) => a.(logs := a.logs[msg.group := LogFor(a, msg.group) + [msg]])
    case Join(group) => a.(subscribers := a.subscribers + [Subscriber(group, [])])
    case Deliver(r, count) =>
      if r >= |a.subscribers| || |a.subscribers[r].received| > |LogFor(a, a.subscribers[r].group)| then a
      else
        var s := a.subscribers[r];
        var left := LogFor(a, s.group)[|s.received|..];
        a.(subscribers := a.subscribers[r := s.(received := s.received + Take(left, count))])
  }

  function NextAll(a: Logs, events: seq<Event>): Logs
    decreases |events|
  {
    if events == [] then a else NextAll(Next(a, events[0]), events[1..])
  }

  // ---- The abstraction ----

  function Bodies(rows: seq<Row>): (r: seq<NewMessage>)
    ensures |r| == |rows|
    ensures forall i | 0 <= i < |rows| :: r[i] == rows[i].msg
  {
    seq(|rows|, i requires 0 <= i < |rows| => rows[i].msg)
  }

  function Groups(rows: seq<Row>): set<string> {
    set i | 0 <= i < |rows| :: rows[i].msg.group
  }

  function Abs(s: State): Logs {
    Logs(
      map g | g in Groups(s.rows) :: Bodies(Log(s.rows, g)),
      seq(|s.readers|, i requires 0 <= i < |s.readers| =>
        Subscriber(s.readers[i].group, Bodies(s.readers[i].received))))
  }

  function EventOf(key: Keying, s: State, step: Step): Event
    requires Enabled(key, s, step)
  {
    match step
    case Commit(t) => Append(s.txns[t].msg)
    case Subscribe(group) => Join(group)
    case Read(r, limit) => Deliver(r, if limit <= 0 then 0 else NextTake(limit))
    case _ => Nothing
  }

  ghost function Events(key: Keying, s: State, steps: seq<Step>): seq<Event>
    requires ValidRun(key, s, steps)
    decreases |steps|
  {
    if steps == [] then []
    else [EventOf(key, s, steps[0])] + Events(key, Apply(key, s, steps[0]), steps[1..])
  }

  /** Every group's writers share a key, whatever else the keys do. */
  ghost predicate KeyedByGroup(key: Keying) {
    forall g: string :: KeysAgree(key, g, g)
  }

  ghost predicate AllReadersOk(s: State) {
    forall g: string :: ReadersOk(s, g)
  }

  lemma {:induction false} NoRowsNoLog(rows: seq<Row>, g: string)
    ensures Log(rows, g) == [] <==> g !in Groups(rows)
  {
    if rows != [] {
      NoRowsNoLog(rows[1..], g);
      assert [rows[0]] + rows[1..] == rows;
      forall i | 0 <= i < |rows|
        ensures rows[i].msg.group == rows[0].msg.group || rows[i].msg.group in Groups(rows[1..])
      {
        assert i > 0 ==> rows[1..][i - 1] == rows[i];
      }
      forall h | h in Groups(rows[1..]) ensures h in Groups(rows) {
        var i :| 0 <= i < |rows[1..]| && rows[1..][i].msg.group == h;
        assert rows[i + 1].msg.group == h;
      }
    }
  }

  lemma AbsLogFor(s: State, g: string)
    ensures LogFor(Abs(s), g) == Bodies(Log(s.rows, g))
  {
    NoRowsNoLog(s.rows, g);
  }

  lemma GroupsAppend(rows: seq<Row>, row: Row)
    ensures Groups(rows + [row]) == Groups(rows) + {row.msg.group}
  {
    forall g: string | g in Groups(rows) + {row.msg.group} ensures g in Groups(rows + [row]) {
      if g in Groups(rows) {
        var i :| 0 <= i < |rows| && rows[i].msg.group == g;
        assert (rows + [row])[i].msg.group == g;
      } else {
        assert (rows + [row])[|rows|] == row;
      }
    }
  }

  lemma CommitAppends(s: State, s': State, row: Row)
    requires s'.rows == s.rows + [row] && s'.readers == s.readers
    ensures Abs(s') == Next(Abs(s), Append(row.msg))
  {
    var a, b := Abs(s').logs, Next(Abs(s), Append(row.msg)).logs;
    GroupsAppend(s.rows, row);
    assert a.Keys == b.Keys;
    forall g | g in a.Keys ensures a[g] == b[g] {
      CommitExtendsLog(s.rows, row, g);
      AbsLogFor(s, g);
    }
  }

  lemma TakeBodies(rows: seq<Row>, n: nat, m: nat)
    requires n <= |rows|
    ensures Bodies(Take(rows[n..], m)) == Take(Bodies(rows)[n..], m)
  {}

  lemma PageDelivers(s: State, s': State, r: nat, page: seq<Row>, count: nat)
    requires s'.rows == s.rows && r < |s.readers| && |s'.readers| == |s.readers|
    requires forall i | 0 <= i < |s.readers| && i != r :: s'.readers[i] == s.readers[i]
    requires s'.readers[r].group == s.readers[r].group && s'.readers[r].received == s.readers[r].received + page
    requires var all, n := Log(s.rows, s.readers[r].group), |s.readers[r].received|;
             n <= |all| && page == Take(all[n..], count)
    ensures Abs(s') == Next(Abs(s), Deliver(r, count))
  {
    var reader := s.readers[r];
    AbsLogFor(s, reader.group);
    TakeBodies(Log(s.rows, reader.group), |reader.received|, count);
    assert Bodies(reader.received + page) == Bodies(reader.received) + Bodies(page);
    assert Abs(s').subscribers == Next(Abs(s), Deliver(r, count)).subscribers;
  }

  lemma ReadDelivers(key: Keying, s: State, r: nat, limit: Limit)
    requires Inv(key, s) && KeyedByGroup(key) && AllReadersOk(s) && r < |s.readers|
    ensures Abs(Apply(key, s, Read(r, limit))) == Next(Abs(s), EventOf(key, s, Read(r, limit)))
  {
    var reader := s.readers[r];
    assert KeysAgree(key, reader.group, reader.group) && ReadersOk(s, reader.group);
    assert AtPrefix(s.rows, reader);
    var left := Log(s.rows, reader.group)[|reader.received|..];
    AgreeingKeysOrder(key, s, reader.group, reader.group);
    ReadDeliversNextSlice(s.rows, reader, limit);
    var count := if limit <= 0 then 0 else NextTake(limit);
    PageDelivers(s, Apply(key, s, Read(r, limit)), r, Take(left, count), count);
  }

  /** Every step of the protocol is a step of the specification, or invisible to it. */
  lemma StepSimulates(key: Keying, s: State, step: Step)
    requires Inv(key, s) && KeyedByGroup(key) && AllReadersOk(s) && Enabled(key, s, step)
    ensures Abs(Apply(key, s, step)) == Next(Abs(s), EventOf(key, s, step))
  {
    var s' := Apply(key, s, step);
    match step {
      case Commit(t) => CommitAppends(s, s', Row(s.txns[t].stage.seqNo, s.txns[t].msg, t));
      case Read(r, limit) => ReadDelivers(key, s, r, limit);
      case Subscribe(group) =>
        assert Bodies([]) == [];
        assert Abs(s').subscribers == Abs(s).subscribers + [Subscriber(group, [])];
      case _ =>
        assert s'.rows == s.rows && s'.readers == s.readers;
    }
  }

  lemma {:induction false} RunSimulatesFrom(key: Keying, s: State, steps: seq<Step>)
    requires Inv(key, s) && KeyedByGroup(key) && AllReadersOk(s) && ValidRun(key, s, steps)
    ensures Abs(Exec(key, s, steps)) == NextAll(Abs(s), Events(key, s, steps))
    decreases |steps|
  {
    if steps != [] {
      var next := Apply(key, s, steps[0]);
      StepSimulates(key, s, steps[0]);
      StepKeepsInv(key, s, steps[0]);
      forall g: string ensures ReadersOk(next, g) {
        assert KeysAgree(key, g, g) && ReadersOk(s, g);
        StepKeepsReaders(key, s, steps[0], g);
      }
      RunSimulatesFrom(key, next, steps[1..]);
    }
  }

  /** Refinement: any interleaving of writers, rollbacks and readers is a history of
      append-only lists and of subscribers that read them from front to back. */
  lemma RunSimulates(key: Keying, steps: seq<Step>)
    requires KeyedByGroup(key) && ValidRun(key, INIT, steps)
    ensures Abs(Exec(key, INIT, steps)) == NextAll(EMPTY_LOGS, Events(key, INIT, steps))
  {
    assert Abs(INIT) == EMPTY_LOGS;
    RunSimulatesFrom(key, INIT, steps);
  }

  // ---- What the specification promises, and therefore the protocol ----

  ghost predicate PrefixesOnly(a: Logs) {
    forall r | 0 <= r < |a.subscribers| :: a.subscribers[r].received <= LogFor(a, a.subscribers[r].group)
  }

  lemma {:induction false} SubscribersHavePrefixes(a: Logs, events: seq<Event>)
    requires PrefixesOnly(a)
    ensures PrefixesOnly(NextAll(a, events))
    decreases |events|
  {
    if events != [] {
      var b := Next(a, events[0]);
      forall r | 0 <= r < |b.subscribers| ensures b.subscribers[r].received <= LogFor(b, b.subscribers[r].group) {
        if events[0].Deliver? && r == events[0].r && b != a {
          var s := a.subscribers[r];
          var log := LogFor(a, s.group);
          var page := Take(log[|s.received|..], events[0].count);
          assert s.received + page == log[..|s.received| + |page|];
        }
      }
      SubscribersHavePrefixes(b, events[1..]);
    }
  }

  /** The code's own protocol, for any hash: a history of append-only lists in which every
      subscriber has a prefix of its list. */
  lemma CodeIsAppendOnlyLog(hash: string -> Key, steps: seq<Step>)
    requires ValidRun(GroupKeys(hash), INIT, steps)
    ensures var a := Abs(Exec(GroupKeys(hash), INIT, steps));
            a == NextAll(EMPTY_LOGS, Events(GroupKeys(hash), INIT, steps)) && PrefixesOnly(a)
  {
    RunSimulates(GroupKeys(hash), steps);
    SubscribersHavePrefixes(EMPTY_LOGS, Events(GroupKeys(hash), INIT, steps));
  }
}
