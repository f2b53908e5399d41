/** The untyped configuration tree and its deep merge (crates/core/src/config/merge.rs). */
module ConfigTree {

  /** A TOML value. `Scalar` holds every non-container value by its text; the code under
      study never looks inside a scalar or an array. */
  datatype Value =
    | Scalar(text: string)
    | Array(items: seq<Value>)
    | Table(entries: map<string, Value>)

  type Path = seq<string>

  /** What a path finds: nothing, a table, or a non-table value. */
  datatype Node = Absent | TableNode | Leaf(value: Value)

  function View(v: Value, p: Path): Node
    decreases |p|
  {
    if p == [] then
      if v.Table? then TableNode else Leaf(v)
    else if v.Table? && p[0] in v.entries then
      View(v.entries[p[0]], p[1..])
    else
      Absent
  }

  /** A non-table value sits on a proper prefix of `p`. */
  predicate Blocked(v: Value, p: Path)
    decreases |p|
  {
    p != [] && (!v.Table? || (p[0] in v.entries && Blocked(v.entries[p[0]], p[1..])))
  }

  ghost predicate LeafOn(v: Value, p: Path, n: nat)
    requires n <= |p|
  {
    View(v, p[..n]).Leaf?
  }

  /** `Blocked` in terms of lookups alone. */
  lemma {:induction false} BlockedIffLeafOnPrefix(v: Value, p: Path)
    ensures Blocked(v, p) <==> exists n: nat | n < |p| :: LeafOn(v, p, n)
    decreases |p|
  {
    if p != [] {
      assert p[..0] == [];
      if !v.Table? {
        assert LeafOn(v, p, 0);
      } else if p[0] in v.entries {
        var c, q := v.entries[p[0]], p[1..];
        BlockedIffLeafOnPrefix(c, q);
        forall n: nat | n < |q| ensures LeafOn(c, q, n) <==> LeafOn(v, p, n + 1) {
          assert p[..n + 1][0] == p[0] && p[..n + 1][1..] == q[..n];
        }
        if exists n: nat | n < |p| :: LeafOn(v, p, n) {
          var n: nat :| n < |p| && LeafOn(v, p, n);
          assert n != 0 && LeafOn(c, q, n - 1);
        }
      } else {
        forall n: nat | n < |p| ensures !LeafOn(v, p, n) {
          assert n > 0 ==> p[..n][0] == p[0];
        }
      }
    }
  }

  lemma {:induction false} FoundIsNotBlocked(v: Value, p: Path)
    requires View(v, p) != Absent
    ensures !Blocked(v, p)
    decreases |p|
  {
    if p != [] {
      FoundIsNotBlocked(v.entries[p[0]], p[1..]);
    }
  }

  ghost predicate SameView(a: Value, b: Value, p: Path) {
    View(a, p) == View(b, p)
  }

  /** A tree is determined by what its paths find. */
  lemma {:induction false} ViewsDetermineTree(a: Value, b: Value)
    requires forall p: Path :: SameView(a, b, p)
    ensures a == b
    decreases a
  {
    assert SameView(a, b, []);
    if a.Table? {
      forall k: string ensures k in a.entries <==> k in b.entries {
        assert SameView(a, b, [k]);
        assert k in a.entries ==> View(a, [k]) == View(a.entries[k], []);
        assert k in b.entries ==> View(b, [k]) == View(b.entries[k], []);
      }
      forall k: string | k in a.entries ensures a.entries[k] == b.entries[k] {
        forall p: Path ensures SameView(a.entries[k], b.entries[k], p) {
          assert SameView(a, b, [k] + p);
          assert ([k] + p)[1..] == p;
        }
        ViewsDetermineTree(a.entries[k], b.entries[k]);
      }
      assert a.entries == b.entries;
    }
  }

  // ---- Deep merge ----

  function DeepMerge(base: Value, overlay: Value): Value
    decreases overlay
  {
    if base.Table? && overlay.Table? then
      Table(map k | k in base.entries.Keys + overlay.entries.Keys ::
        if k !in overlay.entries then base.entries[k]
        else if k in base.entries then DeepMerge(base.entries[k], overlay.entries[k])
        else overlay.entries[k])
    else
      overlay
  }

  /** The merge as the code performs it: take the overlay's entries one by one, in any
      order, removing the base's entry and inserting the merged one. */
  method DeepMergeInPlace(base: Value, overlay: Value) returns (merged: Value)
    ensures merged == DeepMerge(base, overlay)
    decreases overlay
  {
    if base.Table? && overlay.Table? {
      var baseTable := base.entries;
      var todo := overlay.entries.Keys;
      while todo != {}
        invariant todo <= overlay.entries.Keys
        invariant baseTable.Keys == base.entries.Keys + (overlay.entries.Keys - todo)
        invariant forall k | k in baseTable ::
          baseTable[k] == if k in overlay.entries && k !in todo
                          then DeepMerge(base, overlay).entries[k]
                          else base.entries[k]
        decreases todo
      {
        var key :| key in todo;
        var value := overlay.entries[key];
        if key in baseTable {
          var old' := baseTable[key];
          baseTable := baseTable - {key};
          value := DeepMergeInPlace(old', value);
        }
        baseTable := baseTable[key := value];
        todo := todo - {key};
      }
      merged := Table(baseTable);
      assert baseTable == DeepMerge(base, overlay).entries;
    } else {
      merged := overlay;
    }
  }

  /** Two layers seen through one path: the upper layer decides where it has something,
      hides the lower one where it blocks the path, and lets it through elsewhere. */
  function Layered(upper: Node, blocked: bool, lower: Node): Node {
    if upper != Absent then upper else if blocked then Absent else lower
  }

  lemma {:induction false} MergeView(base: Value, overlay: Value, p: Path)
    ensures View(DeepMerge(base, overlay), p) == Layered(View(overlay, p), Blocked(overlay, p), View(base, p))
    decreases |p|
  {
    if p != [] && base.Table? && overlay.Table? && p[0] in base.entries && p[0] in overlay.entries {
      MergeView(base.entries[p[0]], overlay.entries[p[0]], p[1..]);
    }
  }

  /** The merged tree blocks a path where the overlay does, or where the base does at a
      place the overlay does not replace. */
  lemma MergeBlocked(base: Value, overlay: Value, p: Path)
    ensures Blocked(DeepMerge(base, overlay), p) <==>
            || Blocked(overlay, p)
            || exists n: nat | n < |p| ::
                 LeafOn(base, p, n) && View(overlay, p[..n]) == Absent && !Blocked(overlay, p[..n])
  {
    var m := DeepMerge(base, overlay);
    BlockedIffLeafOnPrefix(m, p);
    BlockedIffLeafOnPrefix(overlay, p);
    forall n: nat | n < |p|
      ensures LeafOn(m, p, n) <==>
              || LeafOn(overlay, p, n)
              || (LeafOn(base, p, n) && View(overlay, p[..n]) == Absent && !Blocked(overlay, p[..n]))
    {
      MergeView(base, overlay, p[..n]);
    }
  }

  // ---- Laws of the merge ----

  lemma {:induction false} MergeIdempotent(v: Value)
    ensures DeepMerge(v, v) == v
  {
    forall p: Path ensures SameView(DeepMerge(v, v), v, p) {
      MergeView(v, v, p);
    }
    ViewsDetermineTree(DeepMerge(v, v), v);
  }

  const EMPTY: Value := Table(map[])

  lemma {:induction false} MergeIdentity(v: Value)
    ensures DeepMerge(EMPTY, v) == v
    ensures DeepMerge(v, EMPTY) == v <==> v.Table?
  {
    forall p: Path ensures SameView(DeepMerge(EMPTY, v), v, p) {
      MergeView(EMPTY, v, p);
    }
    ViewsDetermineTree(DeepMerge(EMPTY, v), v);
    if v.Table? {
      assert DeepMerge(v, EMPTY).entries == v.entries;
    }
  }

  /** A later layer puts a table back where a middle layer had replaced one by a plain
      value; the first layer has something at `p` below it that the later layer neither
      sets nor hides. */
  ghost predicate Resurfaces(a: Value, b: Value, c: Value, p: Path, n: nat)
    requires n < |p|
  {
    && LeafOn(b, p, n)
    && View(c, p[..n]) == TableNode
    && View(a, p) != Absent
    && View(c, p) == Absent
    && !Blocked(c, p)
  }

  lemma PrefixOfPrefix(p: Path, n: nat, i: nat)
    requires i <= n <= |p|
    ensures p[..n][..i] == p[..i]
  {}

  /** Groupings differ at a path exactly where something resurfaces there. */
  lemma GroupingsAt(a: Value, b: Value, c: Value, p: Path)
    ensures SameView(DeepMerge(DeepMerge(a, b), c), DeepMerge(a, DeepMerge(b, c)), p)
            <==> !exists n: nat | n < |p| :: Resurfaces(a, b, c, p, n)
  {
    MergeView(DeepMerge(a, b), c, p);
    MergeView(a, b, p);
    MergeView(a, DeepMerge(b, c), p);
    MergeView(b, c, p);
    MergeBlocked(b, c, p);
    BlockedIffLeafOnPrefix(b, p);
    if View(c, p) == Absent && !Blocked(c, p) {
      BlockedIffLeafOnPrefix(c, p);
      forall n: nat | n < |p| ensures !Blocked(c, p[..n]) {
        BlockedIffLeafOnPrefix(c, p[..n]);
        forall i: nat | i < n ensures !LeafOn(c, p[..n], i) {
          PrefixOfPrefix(p, n, i);
          assert !LeafOn(c, p, i);
        }
      }
      if View(b, p) != Absent {
        FoundIsNotBlocked(b, p);
      } else if Blocked(b, p) {
        LeafBeforeIsUnique(b, p);
        var n: nat :| n < |p| && LeafOn(b, p, n);
        assert !LeafOn(c, p, n);
        assert Resurfaces(a, b, c, p, n) <==> View(c, p[..n]) == TableNode && View(a, p) != Absent;
      }
    }
  }

  /** At most one proper prefix of a path finds a plain value. */
  lemma LeafBeforeIsUnique(v: Value, p: Path)
    ensures forall n: nat, i: nat | n < |p| && i < |p| && LeafOn(v, p, n) && LeafOn(v, p, i) :: n == i
  {
    forall n: nat, i: nat | i < n < |p| && LeafOn(v, p, i) ensures !LeafOn(v, p, n) {
      PrefixOfPrefix(p, n, i);
      assert LeafOn(v, p[..n], i);
      BlockedIffLeafOnPrefix(v, p[..n]);
      if LeafOn(v, p, n) {
        FoundIsNotBlocked(v, p[..n]);
      }
    }
  }

  /** Merging three layers is independent of the grouping if and only if nothing resurfaces. */
  lemma MergeAssociativeExactlyWhen(a: Value, b: Value, c: Value)
    ensures DeepMerge(DeepMerge(a, b), c) == DeepMerge(a, DeepMerge(b, c))
            <==> !exists p: Path, n: nat | n < |p| :: Resurfaces(a, b, c, p, n)
  {
    var l, r := DeepMerge(DeepMerge(a, b), c), DeepMerge(a, DeepMerge(b, c));
    forall p: Path ensures SameView(l, r, p) <==> !exists n: nat | n < |p| :: Resurfaces(a, b, c, p, n) {
      GroupingsAt(a, b, c, p);
    }
    if !exists p: Path, n: nat | n < |p| :: Resurfaces(a, b, c, p, n) {
      ViewsDetermineTree(l, r);
    }
  }

  /** In particular when no path has a table in the outer layers and a plain value in the middle one. */
  lemma MergeAssociative(a: Value, b: Value, c: Value)
    requires forall p: Path :: View(b, p).Leaf? ==> View(a, p) != TableNode || View(c, p) != TableNode
    ensures DeepMerge(DeepMerge(a, b), c) == DeepMerge(a, DeepMerge(b, c))
  {
    forall p: Path, n: nat | n < |p| ensures !Resurfaces(a, b, c, p, n) {
      if Resurfaces(a, b, c, p, n) {
        AncestorsAreTables(a, p, n);
      }
    }
    MergeAssociativeExactlyWhen(a, b, c);
  }

  lemma {:induction false} AncestorsAreTables(v: Value, p: Path, n: nat)
    requires n < |p| && View(v, p) != Absent
    ensures View(v, p[..n]) == TableNode
    decreases n
  {
    if n > 0 {
      AncestorsAreTables(v.entries[p[0]], p[1..], n - 1);
      assert p[..n][0] == p[0] && p[..n][1..] == p[1..][..n - 1];
    }
  }

  lemma MergeNotAssociative() returns (a: Value, b: Value, c: Value)
    ensures DeepMerge(DeepMerge(a, b), c) != DeepMerge(a, DeepMerge(b, c))
  {
    a := Table(map["x" := Scalar("1")]);
    b := Scalar("2");
    c := EMPTY;
    assert "x" in DeepMerge(a, DeepMerge(b, c)).entries;
    assert "x" !in DeepMerge(DeepMerge(a, b), c).entries;
  }
}
