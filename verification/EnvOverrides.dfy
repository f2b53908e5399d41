/** Environment overrides on the configuration tree (crates/core/src/config/mod.rs). */
module EnvOverrides {
  import opened Outcomes
  import opened ConfigTree

  // ---- Writing one path ----

  function SetNested(root: Value, path: Path, value: Value): Value
    decreases |path|
  {
    if path == [] || !root.Table? then
      root
    else if |path| == 1 then
      Table(root.entries[path[0] := value])
    else
      var child := if path[0] in root.entries then root.entries[path[0]] else EMPTY;
      Table(root.entries[path[0] := SetNested(child, path[1..], value)])
  }

  /** The code's form: descend into the entry, creating it first when it is missing. */
  method SetNestedInPlace(root: Value, path: Path, value: Value) returns (root': Value)
    ensures root' == SetNested(root, path, value)
    decreases |path|
  {
    root' := root;
    if path == [] {
      return;
    }
    if |path| == 1 {
      if root'.Table? {
        root' := Table(root'.entries[path[0] := value]);
      }
      return;
    }
    if root'.Table? {
      if path[0] !in root'.entries {
        root' := Table(root'.entries[path[0] := EMPTY]);
      }
      var child := SetNestedInPlace(root'.entries[path[0]], path[1..], value);
      root' := Table(root'.entries[path[0] := child]);
      assert root'.entries == SetNested(root, path, value).entries;
    }
  }

  predicate Incomparable(p: Path, q: Path) {
    !(p <= q) && !(q <= p)
  }

  /** What a write does to every lookup: nothing at all when the path is empty or a plain value
      blocks it; otherwise the value appears at the path, tables above it, and nothing else changes. */
  lemma {:induction false} SetNestedView(root: Value, path: Path, value: Value, p: Path)
    ensures View(SetNested(root, path, value), p) ==
            if path == [] || Blocked(root, path) then View(root, p)
            else if path <= p then View(value, p[|path|..])
            else if p <= path then TableNode
            else View(root, p)
    decreases |path|
  {
    if root.Table? && p != [] && path != [] {
      var k, rest := path[0], path[1..];
      assert path == [k] + rest && p == [p[0]] + p[1..];
      if p[0] == k {
        if |path| == 1 {
          assert p[|path|..] == p[1..];
        } else {
          var child := if k in root.entries then root.entries[k] else EMPTY;
          SetNestedView(child, rest, value, p[1..]);
          assert path <= p <==> rest <= p[1..];
          assert p <= path <==> p[1..] <= rest;
          assert path <= p ==> p[|path|..] == p[1..][|rest|..];
          if k !in root.entries {
            EmptyBlocksNothing(rest);
            assert View(EMPTY, p[1..]) == if p[1..] == [] then TableNode else Absent;
          }
        }
      }
    }
  }

  lemma EmptyBlocksNothing(p: Path)
    ensures !Blocked(EMPTY, p)
  {}

  /** A blocked write leaves the whole tree as it was: no half-created tables. */
  lemma {:induction false} BlockedWriteChangesNothing(root: Value, path: Path, value: Value)
    requires Blocked(root, path)
    ensures SetNested(root, path, value) == root
  {
    forall p: Path ensures SameView(SetNested(root, path, value), root, p) {
      SetNestedView(root, path, value, p);
    }
    ViewsDetermineTree(SetNested(root, path, value), root);
  }

  /** Get and put: an unblocked write reads back, and leaves unrelated paths alone. */
  lemma WriteReadsBack(root: Value, path: Path, value: Value, p: Path)
    requires path != [] && !Blocked(root, path)
    ensures View(SetNested(root, path, value), path) == View(value, [])
    ensures Incomparable(p, path) ==> View(SetNested(root, path, value), p) == View(root, p)
  {
    SetNestedView(root, path, value, path);
    SetNestedView(root, path, value, p);
  }

  lemma PrefixIsComparable(q: Path, n: nat)
    requires n <= |q|
    ensures q[..n] <= q && (n < |q| ==> !(q <= q[..n]))
  {}

  /** A write neither blocks nor unblocks an incomparable path, nor its own. */
  lemma WriteKeepsBlocking(root: Value, path: Path, value: Value, q: Path)
    requires path != [] && !(path <= q && path != q) && !(q <= path && path != q)
    ensures Blocked(SetNested(root, path, value), q) <==> Blocked(root, q)
  {
    var after := SetNested(root, path, value);
    BlockedIffLeafOnPrefix(root, q);
    BlockedIffLeafOnPrefix(after, q);
    BlockedIffLeafOnPrefix(root, path);
    forall n: nat | n < |q| ensures LeafOn(after, q, n) <==> LeafOn(root, q, n) {
      var r := q[..n];
      SetNestedView(root, path, value, r);
      if !Blocked(root, path) {
        PrefixIsComparable(q, n);
        assert !(path <= r) by {
          if path <= r { PrefixTrans(path, r, q); }
        }
        if r <= path {
          assert path == r || (n < |path| && path[..n] == r);
          assert !LeafOn(root, path, n);
        }
      }
    }
  }

  lemma PrefixTrans(p: Path, q: Path, r: Path)
    requires p <= q <= r
    ensures p <= r && (p == r ==> q == r)
  {}

  /** Writing the same path twice keeps the last value. */
  lemma LastWriteWins(root: Value, path: Path, value1: Value, value2: Value)
    ensures SetNested(SetNested(root, path, value1), path, value2) == SetNested(root, path, value2)
  {
    if path != [] {
      var mid := SetNested(root, path, value1);
      var l, r := SetNested(mid, path, value2), SetNested(root, path, value2);
      WriteKeepsBlocking(root, path, value1, path);
      forall p: Path ensures SameView(l, r, p) {
        SetNestedView(root, path, value1, p);
        SetNestedView(mid, path, value2, p);
        SetNestedView(root, path, value2, p);
      }
      ViewsDetermineTree(l, r);
    }
  }

  /** Writes to incomparable paths commute. */
  lemma WritesCommute(root: Value, path1: Path, value1: Value, path2: Path, value2: Value)
    requires Incomparable(path1, path2)
    ensures SetNested(SetNested(root, path1, value1), path2, value2)
            == SetNested(SetNested(root, path2, value2), path1, value1)
  {
    var mid1, mid2 := SetNested(root, path1, value1), SetNested(root, path2, value2);
    var l, r := SetNested(mid1, path2, value2), SetNested(mid2, path1, value1);
    WriteKeepsBlocking(root, path1, value1, path2);
    WriteKeepsBlocking(root, path2, value2, path1);
    forall p: Path ensures SameView(l, r, p) {
      SetNestedView(root, path1, value1, p);
      SetNestedView(mid1, path2, value2, p);
      SetNestedView(root, path2, value2, p);
      SetNestedView(mid2, path1, value1, p);
      CommonExtension(path1, path2, p);
    }
    ViewsDetermineTree(l, r);
  }

  /** Two prefixes of one path are comparable. */
  lemma CommonExtension(p: Path, q: Path, r: Path)
    ensures p <= r && q <= r ==> p <= q || q <= p
    ensures p <= r <= q ==> p <= q
    ensures q <= r <= p ==> q <= p
  {
    if p <= r && q <= r {
      if |p| <= |q| { assert q[..|p|] == r[..|p|]; } else { assert p[..|q|] == r[..|q|]; }
    }
  }

  // ---- When the order of two writes shows ----

  /** A write below one just made goes into the value just written. */
  lemma {:induction false} WriteIntoWritten(root: Value, path: Path, outer: Value, rest: Path, inner: Value)
    requires path != [] && rest != []
    ensures SetNested(SetNested(root, path, outer), path + rest, inner)
            == SetNested(root, path, SetNested(outer, rest, inner))
    decreases |path|
  {
    assert (path + rest)[0] == path[0] && (path + rest)[1..] == path[1..] + rest;
    if root.Table? {
      var child := if path[0] in root.entries then root.entries[path[0]] else EMPTY;
      if |path| == 1 {
        assert (path + rest)[1..] == rest;
        assert root.entries[path[0] := outer][path[0] := SetNested(outer, rest, inner)]
            == root.entries[path[0] := SetNested(outer, rest, inner)];
      } else {
        WriteIntoWritten(child, path[1..], outer, rest, inner);
        var mid := SetNested(child, path[1..], outer);
        assert root.entries[path[0] := mid][path[0] := SetNested(mid, path[1..] + rest, inner)]
            == root.entries[path[0] := SetNested(mid, path[1..] + rest, inner)];
      }
    }
  }

  /** A write above one just made discards it. */
  lemma {:induction false} WriteOverWritten(root: Value, path: Path, outer: Value, rest: Path, inner: Value)
    requires path != [] && rest != []
    ensures SetNested(SetNested(root, path + rest, inner), path, outer) == SetNested(root, path, outer)
    decreases |path|
  {
    assert (path + rest)[0] == path[0] && (path + rest)[1..] == path[1..] + rest;
    if root.Table? {
      var child := if path[0] in root.entries then root.entries[path[0]] else EMPTY;
      var mid := SetNested(child, path[1..] + rest, inner);
      if |path| == 1 {
        assert root.entries[path[0] := mid][path[0] := outer] == root.entries[path[0] := outer];
      } else {
        WriteOverWritten(child, path[1..], outer, rest, inner);
        var after := SetNested(mid, path[1..], outer);
        assert root.entries[path[0] := mid][path[0] := after] == root.entries[path[0] := after];
      }
    }
  }

  /** Only a blocked write forgets what it was given. */
  lemma {:induction false} WriteIsInjectiveExactlyWhen(root: Value, path: Path, value1: Value, value2: Value)
    requires path != []
    ensures SetNested(root, path, value1) == SetNested(root, path, value2) <==> Blocked(root, path) || value1 == value2
    decreases |path|
  {
    if root.Table? {
      var k := path[0];
      var child := if k in root.entries then root.entries[k] else EMPTY;
      var l, r := SetNested(root, path, value1), SetNested(root, path, value2);
      if |path| == 1 {
        assert l.entries[k] == value1 && r.entries[k] == value2;
      } else {
        WriteIsInjectiveExactlyWhen(child, path[1..], value1, value2);
        assert l.entries[k] == SetNested(child, path[1..], value1);
        assert r.entries[k] == SetNested(child, path[1..], value2);
        EmptyBlocksNothing(path[1..]);
      }
    }
  }

  /** Two writes agree on where they overlap: equal values on one path, and a value on the
      shorter path that the longer write would leave as it is. */
  predicate AgreeOnOverlap(path1: Path, value1: Value, path2: Path, value2: Value) {
    if path1 == path2 then value1 == value2
    else if path1 <= path2 then SetNested(value1, path2[|path1|..], value2) == value1
    else if path2 <= path1 then SetNested(value2, path1[|path2|..], value1) == value2
    else true
  }

  /** A write to a prefix of `path2` against the write to `path2`. */
  lemma PrefixWriteCommutesExactlyWhen(root: Value, path1: Path, value1: Value, path2: Path, value2: Value)
    requires path1 != [] && path1 <= path2
    ensures SetNested(SetNested(root, path1, value1), path2, value2)
            == SetNested(SetNested(root, path2, value2), path1, value1)
            <==> Blocked(root, path1) || AgreeOnOverlap(path1, value1, path2, value2)
  {
    if path1 == path2 {
      LastWriteWins(root, path1, value1, value2);
      LastWriteWins(root, path1, value2, value1);
      WriteIsInjectiveExactlyWhen(root, path1, value1, value2);
    } else {
      var rest := path2[|path1|..];
      assert path2 == path1 + rest;
      WriteIntoWritten(root, path1, value1, rest, value2);
      WriteOverWritten(root, path1, value1, rest, value2);
      WriteIsInjectiveExactlyWhen(root, path1, SetNested(value1, rest, value2), value1);
    }
  }

  /** The order of two writes shows exactly when they overlap, do not agree there, and the
      shorter path is not blocked. */
  lemma WritesCommuteExactlyWhen(root: Value, path1: Path, value1: Value, path2: Path, value2: Value)
    requires path1 != [] && path2 != []
    ensures SetNested(SetNested(root, path1, value1), path2, value2)
            == SetNested(SetNested(root, path2, value2), path1, value1)
            <==>
            || AgreeOnOverlap(path1, value1, path2, value2)
            || (path1 <= path2 && Blocked(root, path1))
            || (path2 <= path1 && Blocked(root, path2))
  {
    if path1 <= path2 {
      PrefixWriteCommutesExactlyWhen(root, path1, value1, path2, value2);
    } else if path2 <= path1 {
      PrefixWriteCommutesExactlyWhen(root, path2, value2, path1, value1);
    } else {
      WritesCommute(root, path1, value1, path2, value2);
    }
  }

  // ---- A write against a merge ----

  /** The tree that has `value` at `path` and nothing else. */
  function OnePath(path: Path, value: Value): Value {
    if path == [] then value else Table(map[path[0] := OnePath(path[1..], value)])
  }

  lemma {:induction false} OnePathView(path: Path, value: Value, p: Path)
    ensures View(OnePath(path, value), p) ==
            if path <= p then View(value, p[|path|..])
            else if p <= path then TableNode else Absent
    ensures !(path <= p) ==> !Blocked(OnePath(path, value), p)
    ensures path <= p ==> (Blocked(OnePath(path, value), p) <==> Blocked(value, p[|path|..]))
    decreases |path|
  {
    if path == [] {
      assert p[0..] == p;
    } else if p != [] {
      assert path == [path[0]] + path[1..] && p == [p[0]] + p[1..];
      if p[0] == path[0] {
        OnePathView(path[1..], value, p[1..]);
        assert path <= p <==> path[1..] <= p[1..];
        assert p <= path <==> p[1..] <= path[1..];
        assert path <= p ==> p[|path|..] == p[1..][|path[1..]|..];
      }
    }
  }

  /** For a plain value, a write is the merge with the one-path tree exactly when nothing
      blocks the path; a merge, unlike a write, replaces what blocks it. */
  lemma WriteIsMergeExactlyWhen(root: Value, path: Path, value: Value)
    requires path != [] && !value.Table?
    ensures SetNested(root, path, value) == DeepMerge(root, OnePath(path, value)) <==> !Blocked(root, path)
  {
    var l, o := SetNested(root, path, value), OnePath(path, value);
    var r := DeepMerge(root, o);
    if Blocked(root, path) {
      MergeView(root, o, path);
      OnePathView(path, value, path);
      SetNestedView(root, path, value, path);
      assert View(root, path) == Absent by {
        if View(root, path) != Absent { FoundIsNotBlocked(root, path); }
      }
      assert path[|path|..] == [] && View(r, path) == Leaf(value);
      assert View(l, path) == Absent;
    } else {
      forall p: Path ensures SameView(l, r, p) {
        MergeView(root, o, p);
        OnePathView(path, value, p);
        SetNestedView(root, path, value, p);
      }
      ViewsDetermineTree(l, r);
    }
  }

  // ---- From variable names to paths ----

  const PREFIX: string := "FORGECLAW_"

  const MAP_SECTIONS: set<string> := {"providers", "groups", "channels", "budget_pools"}

  /** What the environment layer takes as given: Unicode lower-casing, and the parse of a
      variable's text into a value. */
  datatype Host = Host(lower: string -> string, parse: string -> Value)

  datatype EnvVar = EnvVar(key: string, value: string)

  predicate HasSeparator(s: string) {
    exists i | 0 <= i < |s| - 1 :: s[i] == '_' && s[i + 1] == '_'
  }

  /** `split("__")`: leftmost separators first, without overlaps. */
  function Split(s: string): (parts: seq<string>)
    ensures |parts| >= 1
  {
    if |s| < 2 then [s]
    else if s[0] == '_' && s[1] == '_' then [""] + Split(s[2..])
    else
      var parts := Split(s[1..]);
      [[s[0]] + parts[0]] + parts[1..]
  }

  function Rejoin(parts: seq<string>): string
    requires parts != []
  {
    if |parts| == 1 then parts[0] else parts[0] + "__" + Rejoin(parts[1..])
  }

  lemma {:induction false} RejoinHead(c: char, parts: seq<string>)
    requires parts != []
    ensures Rejoin([[c] + parts[0]] + parts[1..]) == [c] + Rejoin(parts)
  {
    var q := [[c] + parts[0]] + parts[1..];
    assert q[1..] == parts[1..];
    if |parts| > 1 {
      assert [c] + (parts[0] + "__" + Rejoin(parts[1..])) == [c] + parts[0] + "__" + Rejoin(parts[1..]);
    }
  }

  /** Splitting loses nothing, and yields a nested path exactly when the separator occurs. */
  lemma {:induction false} SplitRoundTrip(s: string)
    ensures Rejoin(Split(s)) == s
    ensures |Split(s)| >= 2 <==> HasSeparator(s)
  {
    if |s| >= 2 {
      if s[0] == '_' && s[1] == '_' {
        SplitRoundTrip(s[2..]);
        var parts := Split(s[2..]);
        assert ([""] + parts)[1..] == parts;
        assert s == "" + "__" + s[2..];
      } else {
        SplitRoundTrip(s[1..]);
        RejoinHead(s[0], Split(s[1..]));
        SeparatorBehindFirst(s);
        assert [s[0]] + s[1..] == s;
      }
    }
  }

  lemma SeparatorBehindFirst(s: string)
    requires |s| >= 2 && !(s[0] == '_' && s[1] == '_')
    ensures HasSeparator(s) <==> HasSeparator(s[1..])
  {
    if HasSeparator(s) {
      var i :| 0 <= i < |s| - 1 && s[i] == '_' && s[i + 1] == '_';
      assert s[1..][i - 1] == '_' && s[1..][i] == '_';
    }
    if HasSeparator(s[1..]) {
      var i :| 0 <= i < |s[1..]| - 1 && s[1..][i] == '_' && s[1..][i + 1] == '_';
      assert s[i + 1] == '_' && s[i + 2] == '_';
    }
  }

  /** The lists of segments that survive joining and splitting: no segment holds a separator,
      and only the last may end in an underscore. */
  predicate Separable(parts: seq<string>) {
    && parts != []
    && (forall i | 0 <= i < |parts| :: !HasSeparator(parts[i]))
    && (forall i | 0 <= i < |parts| - 1 && parts[i] != "" :: parts[i][|parts[i]| - 1] != '_')
  }

  lemma {:induction false} SplitIsSeparable(s: string)
    ensures Separable(Split(s))
  {
    if |s| >= 2 {
      if s[0] == '_' && s[1] == '_' {
        SplitIsSeparable(s[2..]);
      } else {
        SplitIsSeparable(s[1..]);
        SplitStartsLike(s[1..]);
      }
    }
  }

  /** The first segment starts with the text's own first character. */
  lemma SplitStartsLike(s: string)
    ensures Split(s)[0] != "" ==> s != "" && Split(s)[0][0] == s[0]
    ensures Split(s)[0] == "" ==> s == "" || (|s| >= 2 && s[0] == '_' && s[1] == '_')
  {}

  lemma {:induction false} SplitAtFirst(a: string, rest: string)
    requires !HasSeparator(a) && (a != "" ==> a[|a| - 1] != '_')
    ensures Split(a + "__" + rest) == [a] + Split(rest)
    decreases |a|
  {
    var s := a + "__" + rest;
    if a == "" {
      assert s[2..] == rest;
    } else {
      assert s[1..] == a[1..] + "__" + rest;
      assert !(s[0] == '_' && s[1] == '_') by {
        assert s[0] == a[0] && (|a| > 1 ==> s[1] == a[1]);
      }
      assert !HasSeparator(a[1..]) by {
        assert forall i | 0 <= i < |a[1..]| :: a[1..][i] == a[i + 1];
      }
      SplitAtFirst(a[1..], rest);
      assert [a[0]] + a[1..] == a;
    }
  }

  lemma {:induction false} SplitPlain(s: string)
    requires !HasSeparator(s)
    ensures Split(s) == [s]
  {
    if |s| >= 2 {
      assert !HasSeparator(s[1..]) by {
        assert forall i | 0 <= i < |s[1..]| :: s[1..][i] == s[i + 1];
      }
      SplitPlain(s[1..]);
      assert [s[0]] + s[1..] == s;
    }
  }

  lemma {:induction false} JoinRoundTrip(parts: seq<string>)
    requires Separable(parts)
    ensures Split(Rejoin(parts)) == parts
  {
    if |parts| == 1 {
      SplitPlain(parts[0]);
    } else {
      var rest := parts[1..];
      assert forall i | 0 <= i < |rest| :: rest[i] == parts[i + 1];
      JoinRoundTrip(rest);
      SplitAtFirst(parts[0], Rejoin(rest));
      assert parts == [parts[0]] + rest;
    }
  }

  /** Splitting undoes joining exactly on separable lists. */
  lemma JoinRoundTripExactlyWhen(parts: seq<string>)
    requires parts != []
    ensures Split(Rejoin(parts)) == parts <==> Separable(parts)
  {
    SplitIsSeparable(Rejoin(parts));
    if Separable(parts) {
      JoinRoundTrip(parts);
    }
  }

  predicate NamesMapKey(parts: Path, i: nat, host: Host) {
    i == 1 && parts != [] && host.lower(parts[0]) in MAP_SECTIONS
  }

  function NormalizeEnvPath(parts: Path, host: Host): (path: Path)
    ensures |path| == |parts|
  {
    seq(|parts|, i requires 0 <= i < |parts| =>
      if NamesMapKey(parts, i, host) then parts[i] else host.lower(parts[i]))
  }

  /** Which spellings address the same path: segments that agree up to case, except the
      entry name of a map section, which must agree exactly. */
  lemma SamePathExactlyWhen(a: Path, b: Path, host: Host)
    ensures NormalizeEnvPath(a, host) == NormalizeEnvPath(b, host) <==>
            && |a| == |b|
            && (forall i | 0 <= i < |a| && i != 1 :: host.lower(a[i]) == host.lower(b[i]))
            && (|a| > 1 ==> if host.lower(a[0]) in MAP_SECTIONS then a[1] == b[1]
                            else host.lower(a[1]) == host.lower(b[1]))
  {
    var na, nb := NormalizeEnvPath(a, host), NormalizeEnvPath(b, host);
    if na == nb {
      assert a != [] ==> na[0] == host.lower(a[0]) && nb[0] == host.lower(b[0]);
      forall i | 0 <= i < |a| && i != 1 ensures host.lower(a[i]) == host.lower(b[i]) {
        assert na[i] == host.lower(a[i]) && nb[i] == host.lower(b[i]);
      }
      if |a| > 1 {
        assert na[1] == nb[1];
      }
    }
  }

  /** The path a variable overrides, if it overrides any: flat variables are secrets. */
  function OverridePath(v: EnvVar, host: Host): (r: Option<Path>)
    ensures r.Some? ==> |r.value| >= 2
  {
    if PREFIX <= v.key && HasSeparator(v.key[|PREFIX|..]) then
      SplitRoundTrip(v.key[|PREFIX|..]);
      Some(NormalizeEnvPath(Split(v.key[|PREFIX|..]), host))
    else
      None
  }

  /** Every list of at least two separable segments has a variable that spells it: the
      segments joined by the separator. */
  lemma SpelledPath(parts: seq<string>, value: string, host: Host)
    requires |parts| >= 2 && Separable(parts)
    ensures OverridePath(EnvVar("FORGECLAW_" + Rejoin(parts), value), host) == Some(NormalizeEnvPath(parts, host))
  {
    var suffix := Rejoin(parts);
    JoinRoundTripExactlyWhen(parts);
    SplitRoundTrip(suffix);
    assert (PREFIX + suffix)[|PREFIX|..] == suffix;
  }

  // ---- Applying a list of variables ----

  function ApplyVar(base: Value, v: EnvVar, host: Host): Value {
    match OverridePath(v, host)
    case None => base
    case Some(path) => SetNested(base, path, host.parse(v.value))
  }

  function ApplyAll(base: Value, vars: seq<EnvVar>, host: Host): Value {
    if vars == [] then base
    else ApplyVar(ApplyAll(base, vars[..|vars| - 1], host), vars[|vars| - 1], host)
  }

  lemma ApplyOne(base: Value, v: EnvVar, host: Host)
    ensures ApplyAll(base, [v], host) == ApplyVar(base, v, host)
  {
    assert [v][..0] == [];
  }

  /** A variable for a plain section writes its parsed value at its lower-cased segments. */
  lemma SectionVariableWrites(base: Value, parts: seq<string>, value: string, host: Host)
    requires |parts| >= 2 && Separable(parts)
    requires host.lower(parts[0]) !in {"providers", "groups", "channels", "budget_pools"}
    ensures ApplyAll(base, [EnvVar("FORGECLAW_" + Rejoin(parts), value)], host)
            == SetNested(base, seq(|parts|, i requires 0 <= i < |parts| => host.lower(parts[i])), host.parse(value))
  {
    SpelledPath(parts, value, host);
    ApplyOne(base, EnvVar("FORGECLAW_" + Rejoin(parts), value), host);
    assert NormalizeEnvPath(parts, host) == seq(|parts|, i requires 0 <= i < |parts| => host.lower(parts[i]));
  }

  lemma RejoinTwo(a: string, b: string)
    ensures Rejoin([a, b]) == a + "__" + b
  {
    assert [a, b][1..] == [b];
  }

  lemma RejoinThree(a: string, b: string, c: string)
    ensures Rejoin([a, b, c]) == a + "__" + (b + "__" + c)
  {
    assert [a, b, c][1..] == [b, c];
    RejoinTwo(b, c);
  }

  /** The documented example: `FORGECLAW_RUNTIME__LOG_LEVEL` sets `runtime.log_level`. */
  lemma FieldVariableWrites(base: Value, section: string, field: string, value: string, host: Host)
    requires Separable([section, field])
    requires host.lower(section) !in {"providers", "groups", "channels", "budget_pools"}
    ensures ApplyAll(base, [EnvVar("FORGECLAW_" + (section + "__" + field), value)], host)
            == SetNested(base, [host.lower(section), host.lower(field)], host.parse(value))
  {
    var parts := [section, field];
    RejoinTwo(section, field);
    SectionVariableWrites(base, parts, value, host);
    assert seq(|parts|, i requires 0 <= i < |parts| => host.lower(parts[i]))
        == [host.lower(section), host.lower(field)];
  }

  /** A variable for a map section writes at its lower-cased segments too, except that the
      entry's name, the second segment, keeps its casing. */
  lemma MapVariableWrites(base: Value, parts: seq<string>, value: string, host: Host)
    requires |parts| >= 2 && Separable(parts)
    requires host.lower(parts[0]) in {"providers", "groups", "channels", "budget_pools"}
    ensures var path := seq(|parts|, i requires 0 <= i < |parts| => if i == 1 then parts[i] else host.lower(parts[i]));
            ApplyAll(base, [EnvVar("FORGECLAW_" + Rejoin(parts), value)], host)
            == SetNested(base, path, host.parse(value))
  {
    SpelledPath(parts, value, host);
    ApplyOne(base, EnvVar("FORGECLAW_" + Rejoin(parts), value), host);
    assert NormalizeEnvPath(parts, host)
        == seq(|parts|, i requires 0 <= i < |parts| => if i == 1 then parts[i] else host.lower(parts[i]));
  }

  /** A variable for a field of a provider, group, channel or budget pool: the entry's name
      keeps its casing, section and field are lower-cased. */
  lemma MapKeyKeepsCasing(base: Value, section: string, name: string, field: string, value: string, host: Host)
    requires host.lower(section) in {"providers", "groups", "channels", "budget_pools"}
    requires Separable([section, name, field])
    ensures ApplyAll(base, [EnvVar("FORGECLAW_" + (section + "__" + (name + "__" + field)), value)], host)
            == SetNested(base, [host.lower(section), name, host.lower(field)], host.parse(value))
  {
    var parts := [section, name, field];
    RejoinThree(section, name, field);
    MapVariableWrites(base, parts, value, host);
    assert seq(|parts|, i requires 0 <= i < |parts| => if i == 1 then parts[i] else host.lower(parts[i]))
        == [host.lower(section), name, host.lower(field)];
  }

  /** A foreign or flat variable, such as a secret, leaves the tree as it was. */
  lemma FlatVariableChangesNothing(base: Value, v: EnvVar, host: Host)
    requires "FORGECLAW_" <= v.key ==> forall i | 10 <= i < |v.key| - 1 :: !(v.key[i] == '_' && v.key[i + 1] == '_')
    ensures ApplyVar(base, v, host) == base
  {
    if PREFIX <= v.key {
      assert |PREFIX| == 10;
      forall i | 0 <= i < |v.key| - 11 ensures !(v.key[10..][i] == '_' && v.key[10..][i + 1] == '_') {
        assert !(v.key[i + 10] == '_' && v.key[i + 11] == '_');
      }
    }
  }

  method ApplyEnvOverrides(base: Value, vars: seq<EnvVar>, host: Host) returns (root: Value)
    ensures root == ApplyAll(base, vars, host)
  {
    root := base;
    for i := 0 to |vars|
      invariant root == ApplyAll(base, vars[..i], host)
    {
      assert vars[..i + 1][..i] == vars[..i];
      var v := vars[i];
      if PREFIX <= v.key {
        var suffix := v.key[|PREFIX|..];
        if !HasSeparator(suffix) {
          continue;
        }
        var parts := NormalizeEnvPath(Split(suffix), host);
        root := SetNestedInPlace(root, parts, host.parse(v.value));
      }
    }
    assert vars[..|vars|] == vars;
  }

  ghost predicate Independent(v: EnvVar, w: EnvVar, host: Host) {
    var p, q := OverridePath(v, host), OverridePath(w, host);
    p.Some? && q.Some? ==> AgreeOnOverlap(p.value, host.parse(v.value), q.value, host.parse(w.value))
  }

  ghost predicate PairwiseIndependent(vars: seq<EnvVar>, host: Host) {
    forall i, j | 0 <= i < j < |vars| :: Independent(vars[i], vars[j], host)
  }

  lemma IndependentCommute(base: Value, v: EnvVar, w: EnvVar, host: Host)
    requires Independent(v, w, host)
    ensures ApplyVar(ApplyVar(base, v, host), w, host) == ApplyVar(ApplyVar(base, w, host), v, host)
  {
    var p, q := OverridePath(v, host), OverridePath(w, host);
    if p.Some? && q.Some? {
      WritesCommuteExactlyWhen(base, p.value, host.parse(v.value), q.value, host.parse(w.value));
    }
  }

  function Without<T>(s: seq<T>, i: nat): seq<T>
    requires i < |s|
  {
    s[..i] + s[i + 1..]
  }

  lemma WithoutButLast<T>(s: seq<T>, i: nat)
    requires i < |s| - 1
    ensures var w, n := Without(s, i), |s| - 1;
            |w| == n && w[..n - 1] == Without(s[..n], i) && w[n - 1] == s[n]
  {}

  /** Any variable of an independent list may be applied last. */
  lemma {:induction false} ApplyLast(base: Value, vars: seq<EnvVar>, i: nat, host: Host)
    requires i < |vars| && PairwiseIndependent(vars, host)
    ensures ApplyAll(base, vars, host) == ApplyVar(ApplyAll(base, Without(vars, i), host), vars[i], host)
    decreases |vars|
  {
    var n := |vars| - 1;
    if i == n {
      assert Without(vars, i) == vars[..n];
    } else {
      var init, z := vars[..n], vars[n];
      assert forall j | 0 <= j < n :: init[j] == vars[j];
      ApplyLast(base, init, i, host);
      WithoutButLast(vars, i);
      assert Independent(vars[i], z, host);
      IndependentCommute(ApplyAll(base, Without(init, i), host), vars[i], z, host);
    }
  }

  lemma WithoutIsRest<T>(s: seq<T>, i: nat)
    requires i < |s|
    ensures multiset(Without(s, i)) == multiset(s) - multiset{s[i]}
  {
    assert s == s[..i] + [s[i]] + s[i + 1..];
  }

  lemma WithoutKeepsIndependence(vars: seq<EnvVar>, i: nat, host: Host)
    requires i < |vars| && PairwiseIndependent(vars, host)
    ensures PairwiseIndependent(Without(vars, i), host)
  {
    var w := Without(vars, i);
    forall j, k | 0 <= j < k < |w| ensures Independent(w[j], w[k], host) {
      var j', k' := if j < i then j else j + 1, if k < i then k else k + 1;
      assert w[j] == vars[j'] && w[k] == vars[k'];
    }
  }

  /** The order of the variables does not matter when every two of them agree on where
      their paths overlap; in particular when no path is a prefix of another. */
  lemma {:induction false} OverridesAreOrderIndependent(base: Value, vars: seq<EnvVar>, other: seq<EnvVar>, host: Host)
    requires PairwiseIndependent(vars, host)
    requires multiset(vars) == multiset(other)
    ensures ApplyAll(base, vars, host) == ApplyAll(base, other, host)
    decreases |other|
  {
    if other == [] {
      assert |multiset(vars)| == |multiset(other)|;
    } else {
      var n := |other| - 1;
      var last := other[n];
      assert other == other[..n] + [last];
      assert last in multiset(vars);
      var i: nat :| i < |vars| && vars[i] == last;
      ApplyLast(base, vars, i, host);
      WithoutIsRest(vars, i);
      WithoutKeepsIndependence(vars, i, host);
      OverridesAreOrderIndependent(base, Without(vars, i), other[..n], host);
    }
  }

  /** The variables that `keep` keeps, in order. */
  function Kept(vars: seq<EnvVar>, keep: EnvVar -> bool): seq<EnvVar> {
    if vars == [] then [] else
      var init, last := Kept(vars[..|vars| - 1], keep), vars[|vars| - 1];
      if keep(last) then init + [last] else init
  }

  /** Flat and foreign variables, all of them or any part of them, can be dropped from the
      list without changing the result. */
  lemma {:induction false} OtherVariablesAreIgnored(
    base: Value, vars: seq<EnvVar>, keep: EnvVar -> bool, host: Host)
    requires forall v | v in vars && !keep(v) && "FORGECLAW_" <= v.key ::
               forall i | 10 <= i < |v.key| - 1 :: !(v.key[i] == '_' && v.key[i + 1] == '_')
    ensures ApplyAll(base, Kept(vars, keep), host) == ApplyAll(base, vars, host)
  {
    if vars != [] {
      var init, last := vars[..|vars| - 1], vars[|vars| - 1];
      OtherVariablesAreIgnored(base, init, keep, host);
      if keep(last) {
        assert (Kept(init, keep) + [last])[..|Kept(init, keep)|] == Kept(init, keep);
      } else {
        FlatVariableChangesNothing(ApplyAll(base, init, host), last, host);
      }
    }
  }

  /** The root stays a table, and no override turns a section into a plain value. */
  lemma {:induction false} SectionsStaySections(base: Value, vars: seq<EnvVar>, host: Host, section: string)
    requires base.Table?
    ensures ApplyAll(base, vars, host).Table?
    ensures var before, after := View(base, [section]), View(ApplyAll(base, vars, host), [section]);
            && (after.Leaf? ==> after == before)
            && (before != Absent ==> after == before)
  {
    if vars != [] {
      var init, v := vars[..|vars| - 1], vars[|vars| - 1];
      SectionsStaySections(base, init, host, section);
      var p := OverridePath(v, host);
      if p.Some? {
        var root := ApplyAll(base, init, host);
        SetNestedView(root, p.value, host.parse(v.value), []);
        SetNestedView(root, p.value, host.parse(v.value), [section]);
        if !Blocked(root, p.value) && [section] <= p.value {
          BlockedIffLeafOnPrefix(root, p.value);
          assert p.value[..1] == [section];
          assert !LeafOn(root, p.value, 1);
        }
      }
    }
  }
}
