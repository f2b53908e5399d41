/** `filter … order_by … limit`, the one query shape of the store, and its limit arithmetic
    (`clamped_take` in crates/store/src/ops/mod.rs). */
module Queries {
  import opened Outcomes

  ghost predicate StrictOrder<T(!new)>(lt: (T, T) -> bool) {
    && (forall x :: !lt(x, x))
    && (forall x, y, z :: lt(x, y) && lt(y, z) ==> lt(x, z))
  }

  ghost predicate Ascending<T>(s: seq<T>, lt: (T, T) -> bool) {
    forall i, j | 0 <= i < j < |s| :: lt(s[i], s[j])
  }

  /** No ties: any two positions of `s` are related one way or the other. */
  ghost predicate NoTies<T>(s: seq<T>, lt: (T, T) -> bool) {
    forall i, j | 0 <= i < j < |s| :: lt(s[i], s[j]) || lt(s[j], s[i])
  }

  function Filter<T(!new)>(s: seq<T>, keep: T -> bool): (r: seq<T>)
    ensures forall x :: x in r <==> x in s && keep(x)
  {
    if s == [] then []
    else if keep(s[0]) then [s[0]] + Filter(s[1..], keep)
    else Filter(s[1..], keep)
  }

  lemma {:induction false} FilterAppend<T(!new)>(a: seq<T>, b: seq<T>, keep: T -> bool)
    ensures Filter(a + b, keep) == Filter(a, keep) + Filter(b, keep)
  {
    if a == [] {
      assert a + b == b;
    } else {
      assert (a + b)[1..] == a[1..] + b;
      FilterAppend(a[1..], b, keep);
    }
  }

  /** A filter keeps whatever holds of every pair of positions. */
  lemma {:induction false} FilterKeepsPairs<T(!new)>(s: seq<T>, keep: T -> bool, rel: (T, T) -> bool)
    requires forall i, j | 0 <= i < j < |s| && keep(s[i]) && keep(s[j]) :: rel(s[i], s[j])
    ensures forall i, j | 0 <= i < j < |Filter(s, keep)| :: rel(Filter(s, keep)[i], Filter(s, keep)[j])
  {
    if s != [] {
      FilterKeepsPairs(s[1..], keep, rel);
      var rest := Filter(s[1..], keep);
      forall j | 0 <= j < |rest| && keep(s[0]) ensures rel(s[0], rest[j]) {
        assert rest[j] in rest;
      }
    }
  }

  function Insert<T>(x: T, s: seq<T>, lt: (T, T) -> bool): (r: seq<T>)
    ensures multiset(r) == multiset(s) + multiset{x}
  {
    if s == [] || lt(x, s[0]) then [x] + s
    else
      assert s == [s[0]] + s[1..];
      [s[0]] + Insert(x, s[1..], lt)
  }

  /** `order_by` */
  function Sort<T>(s: seq<T>, lt: (T, T) -> bool): (r: seq<T>)
    ensures multiset(r) == multiset(s)
  {
    if s == [] then [] else
      assert s == [s[0]] + s[1..];
      Insert(s[0], Sort(s[1..], lt), lt)
  }

  lemma SameElements<T(!new)>(a: seq<T>, b: seq<T>)
    requires multiset(a) == multiset(b)
    ensures |a| == |b|
    ensures forall x :: x in a <==> x in b
  {
    assert |a| == |multiset(a)| == |multiset(b)| == |b|;
    forall x ensures x in a <==> x in b {
      assert x in a <==> x in multiset(a);
      assert x in b <==> x in multiset(b);
    }
  }

  lemma {:induction false} InsertKeepsAscending<T(!new)>(x: T, s: seq<T>, lt: (T, T) -> bool)
    requires StrictOrder(lt) && Ascending(s, lt)
    requires forall y | y in s :: lt(x, y) || lt(y, x)
    ensures Ascending(Insert(x, s, lt), lt)
  {
    if s == [] || lt(x, s[0]) {
    } else {
      InsertKeepsAscending(x, s[1..], lt);
      var r := Insert(x, s[1..], lt);
      forall j | 0 <= j < |r| ensures lt(s[0], r[j]) {
        assert r[j] in multiset(r);
        assert r[j] in multiset(s[1..]) || r[j] == x;
        assert s[0] in s;
      }
    }
  }

  /** Sorting is what it should be whenever there are no ties. */
  lemma {:induction false} SortIsAscending<T(!new)>(s: seq<T>, lt: (T, T) -> bool)
    requires StrictOrder(lt) && NoTies(s, lt)
    ensures Ascending(Sort(s, lt), lt)
  {
    if s != [] {
      var rest := s[1..];
      SortIsAscending(rest, lt);
      SameElements(Sort(rest, lt), rest);
      forall y | y in Sort(rest, lt) ensures lt(s[0], y) || lt(y, s[0]) {
        var i :| 0 <= i < |rest| && rest[i] == y;
        assert s[i + 1] == y;
      }
      InsertKeepsAscending(s[0], Sort(rest, lt), lt);
    }
  }

  /** An ascending sequence is determined by its elements. */
  lemma {:induction false} AscendingIsUnique<T(!new)>(a: seq<T>, b: seq<T>, lt: (T, T) -> bool)
    requires StrictOrder(lt) && Ascending(a, lt) && Ascending(b, lt)
    requires forall x :: x in a <==> x in b
    ensures a == b
  {
    if a == [] {
      assert forall i | 0 <= i < |b| :: b[i] in a;
    } else {
      assert a[0] in b && b != [];
      assert b[0] in a;
      assert a[0] == b[0];
      forall x ensures x in a[1..] <==> x in b[1..] {
        assert x in a <==> x == a[0] || x in a[1..];
        assert x in b <==> x == b[0] || x in b[1..];
        assert a[0] !in a[1..] && b[0] !in b[1..];
      }
      AscendingIsUnique(a[1..], b[1..], lt);
    }
  }

  /** `limit` */
  function Take<T>(s: seq<T>, n: nat): seq<T> {
    if n <= |s| then s[..n] else s
  }

  /** `filter … order_by … limit` */
  function Select<T(!new)>(rows: seq<T>, keep: T -> bool, lt: (T, T) -> bool, take: nat): seq<T> {
    Take(Sort(Filter(rows, keep), lt), take)
  }

  // ---- Row limits ----

  const MAX_PAGE_SIZE: int := 10_000

  /** An `i64` limit. */
  newtype Limit = n: int | -0x8000_0000_0000_0000 <= n < 0x8000_0000_0000_0000

  function ClampedTake(limit: Limit): Result<nat> {
    if limit < 0 then Err(InvalidLimit)
    else if limit == 0 then Ok(0)
    else Ok(if limit as int < MAX_PAGE_SIZE then limit as int else MAX_PAGE_SIZE)
  }

  /** Every bounded read fails exactly on a negative limit, never returns more than was
      asked for or than the cap, and makes progress on every positive limit. */
  lemma ClampedTakeBounds(limit: Limit)
    ensures ClampedTake(limit) == Err(InvalidLimit) <==> limit < 0
    ensures limit >= 0 ==> ClampedTake(limit).value <= limit as int && ClampedTake(limit).value <= 10_000
    ensures limit > 0 ==> ClampedTake(limit).value > 0
    ensures 0 <= limit as int <= 10_000 ==> ClampedTake(limit).value == limit as int
    ensures limit as int > 10_000 ==> ClampedTake(limit).value == 10_000
  {}

  // ---- Sequences of reads ----

  predicate AllPositive(limits: seq<Limit>) {
    forall i | 0 <= i < |limits| :: limits[i] > 0
  }

  function NextTake(limit: Limit): nat
    requires limit > 0
  {
    ClampedTake(limit).value
  }

  function TotalTake(limits: seq<Limit>): nat
    requires AllPositive(limits)
  {
    if limits == [] then 0 else NextTake(limits[0]) + TotalTake(limits[1..])
  }

  lemma {:induction false} TotalTakeGrows(limits: seq<Limit>)
    requires AllPositive(limits)
    ensures TotalTake(limits) >= |limits|
  {
    if limits != [] {
      ClampedTakeBounds(limits[0]);
      TotalTakeGrows(limits[1..]);
    }
  }

  lemma TakeTwice<T>(s: seq<T>, n: nat, m: nat)
    ensures Take(s, n) + Take(s[|Take(s, n)|..], m) == Take(s, n + m)
  {}
}
