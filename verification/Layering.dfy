/** The three configuration layers together: user file, project file, environment
    (`load_layered` in crates/core/src/config/mod.rs, up to deserialisation). */
module Layering {
  import opened Outcomes
  import opened ConfigTree
  import opened EnvOverrides

  /** A parsed TOML document is a table. */
  type Document = v: Value | v.Table? witness EMPTY

  /** The files that exist. */
  datatype Files = Files(user: Option<Document>, project: Option<Document>)

  function OrEmpty(d: Option<Document>): Document {
    match d
    case None => EMPTY
    case Some(v) => v
  }

  /** The untyped tree handed to deserialisation. Away from the variables it finds what the
      existing files hold, the project file first. */
  method LoadLayered(files: Files, vars: seq<EnvVar>, host: Host) returns (merged: Value)
    ensures merged == ApplyAll(DeepMerge(OrEmpty(files.user), OrEmpty(files.project)), vars, host)
    ensures forall p: Path :: View(merged, p) == Resolve(files, vars, host, p)
    ensures forall p: Path | Untouched(files, vars, host, 0, p) ::
              var user, project := files.user, files.project;
              && (project.Some? && View(project.value, p) != Absent ==> View(merged, p) == View(project.value, p))
              && (project.Some? && Blocked(project.value, p) ==> View(merged, p) == Absent)
              && (project.Some? && View(project.value, p) == Absent && !Blocked(project.value, p) ==>
                    View(merged, p) == if user.Some? then View(user.value, p) else Absent)
              && (project.None? && user.Some? ==> View(merged, p) == View(user.value, p))
              && (project.None? && user.None? ==> View(merged, p) == if p == [] then TableNode else Absent)
  {
    merged := EMPTY;
    if files.user.Some? {
      MergeIdentity(files.user.value);
      merged := DeepMergeInPlace(merged, files.user.value);
    }
    MergeIdentity(merged);
    if files.project.Some? {
      merged := DeepMergeInPlace(merged, files.project.value);
    }
    merged := ApplyEnvOverrides(merged, vars, host);
    forall p: Path ensures View(merged, p) == Resolve(files, vars, host, p) {
      LayeredResolution(files, vars, host, p);
    }
    forall p: Path | Untouched(files, vars, host, 0, p) {
      FilesDecideTheRest(files, vars, host, p);
    }
  }

  // ---- Reference: lookups only, no tree is ever built ----

  /** The two files seen through one path. */
  function FileView(files: Files, p: Path): Node {
    var project := OrEmpty(files.project);
    Layered(View(project, p), Blocked(project, p), View(OrEmpty(files.user), p))
  }

  /** The whole stack seen through one path. A variable counts unless a plain value resolves
      on a proper prefix of its own path; a variable that counts decides its path, everything
      below it, and that everything above it is a table. The last one to decide wins. */
  ghost function Resolve(files: Files, vars: seq<EnvVar>, host: Host, p: Path): Node
    decreases |vars|
  {
    if vars == [] then
      FileView(files, p)
    else
      var earlier, v := vars[..|vars| - 1], vars[|vars| - 1];
      var q := OverridePath(v, host);
      if q == None || (exists n: nat | n < |q.value| :: Resolve(files, earlier, host, q.value[..n]).Leaf?) then
        Resolve(files, earlier, host, p)
      else if q.value <= p then
        View(host.parse(v.value), p[|q.value|..])
      else if p <= q.value then
        TableNode
      else
        Resolve(files, earlier, host, p)
  }

  /** The layered tree answers every lookup as the stack of layers does. */
  lemma {:induction false} LayeredResolution(files: Files, vars: seq<EnvVar>, host: Host, p: Path)
    ensures View(ApplyAll(DeepMerge(OrEmpty(files.user), OrEmpty(files.project)), vars, host), p)
            == Resolve(files, vars, host, p)
    decreases |vars|
  {
    var base := DeepMerge(OrEmpty(files.user), OrEmpty(files.project));
    if vars == [] {
      MergeView(OrEmpty(files.user), OrEmpty(files.project), p);
    } else {
      var earlier, v := vars[..|vars| - 1], vars[|vars| - 1];
      var root := ApplyAll(base, earlier, host);
      LayeredResolution(files, earlier, host, p);
      var q := OverridePath(v, host);
      if q.Some? {
        BlockedIffLeafOnPrefix(root, q.value);
        forall n: nat | n < |q.value|
          ensures LeafOn(root, q.value, n) <==> Resolve(files, earlier, host, q.value[..n]).Leaf?
        {
          LayeredResolution(files, earlier, host, q.value[..n]);
        }
        SetNestedView(root, q.value, host.parse(v.value), p);
      }
    }
  }

  // ---- Precedence ----

  /** The `i`th variable overrides a path and is not blocked by what came before it. */
  ghost predicate Effective(files: Files, vars: seq<EnvVar>, host: Host, i: nat)
    requires i < |vars|
  {
    var q := OverridePath(vars[i], host);
    q.Some? && !exists n: nat | n < |q.value| :: Resolve(files, vars[..i], host, q.value[..n]).Leaf?
  }

  /** No effective variable from position `from` on has a path comparable with `p`. */
  ghost predicate Untouched(files: Files, vars: seq<EnvVar>, host: Host, from: nat, p: Path) {
    forall i: nat | from <= i < |vars| && Effective(files, vars, host, i) ::
      Incomparable(OverridePath(vars[i], host).value, p)
  }

  /** What later variables do not touch is what the earlier ones resolve to. */
  lemma {:induction false} UntouchedPathKeepsValue(files: Files, vars: seq<EnvVar>, host: Host, from: nat, p: Path)
    requires from <= |vars| && Untouched(files, vars, host, from, p)
    ensures Resolve(files, vars, host, p) == Resolve(files, vars[..from], host, p)
    decreases |vars|
  {
    var n := |vars| - 1;
    if from == |vars| {
      assert vars[..from] == vars;
    } else {
      var earlier := vars[..n];
      forall i: nat | i < n ensures Effective(files, earlier, host, i) <==> Effective(files, vars, host, i) {
        assert earlier[..i] == vars[..i];
      }
      UntouchedPathKeepsValue(files, earlier, host, from, p);
      assert earlier[..from] == vars[..from];
      assert Effective(files, vars, host, n) ==> Incomparable(OverridePath(vars[n], host).value, p);
    }
  }

  /** The `i`th variable is the last effective one with a path comparable with `p`. */
  ghost predicate Decides(files: Files, vars: seq<EnvVar>, host: Host, i: nat, p: Path)
    requires i < |vars|
  {
    && Effective(files, vars, host, i)
    && !Incomparable(OverridePath(vars[i], host).value, p)
    && Untouched(files, vars, host, i + 1, p)
  }

  /** Environment over files: an effective variable that nothing later touches decides
      every lookup at or below its path, and makes a table of everything above it. */
  lemma LastEffectiveVariableWins(files: Files, vars: seq<EnvVar>, host: Host, i: nat, p: Path)
    requires i < |vars| && Decides(files, vars, host, i, p)
    ensures var q := OverridePath(vars[i], host).value;
            Resolve(files, vars, host, p) == if q <= p then View(host.parse(vars[i].value), p[|q|..]) else TableNode
  {
    UntouchedPathKeepsValue(files, vars, host, i + 1, p);
    assert vars[..i + 1][..i] == vars[..i];
  }

  /** Either nothing touches the path or there is a last variable that does. */
  lemma {:induction false} SomeVariableDecides(files: Files, vars: seq<EnvVar>, host: Host, from: nat, p: Path)
    requires from <= |vars|
    ensures Untouched(files, vars, host, from, p) || exists i: nat | i < |vars| :: Decides(files, vars, host, i, p)
    decreases |vars| - from
  {
    if from < |vars| {
      SomeVariableDecides(files, vars, host, from + 1, p);
      if Untouched(files, vars, host, from + 1, p) && !Untouched(files, vars, host, from, p) {
        assert Decides(files, vars, host, from, p);
      }
    }
  }

  /** The precedence of the layers for every path: the last effective variable near it, and
      without one the project file over the user file. */
  lemma ResolutionInClosedForm(files: Files, vars: seq<EnvVar>, host: Host, p: Path) returns (decider: Option<nat>)
    ensures decider == None ==>
              && Untouched(files, vars, host, 0, p)
              && Resolve(files, vars, host, p) == FileView(files, p)
    ensures decider.Some? ==>
              && decider.value < |vars| && Decides(files, vars, host, decider.value, p)
              && var v := vars[decider.value];
                 var q := OverridePath(v, host).value;
                 Resolve(files, vars, host, p) == if q <= p then View(host.parse(v.value), p[|q|..]) else TableNode
  {
    SomeVariableDecides(files, vars, host, 0, p);
    if i: nat :| i < |vars| && Decides(files, vars, host, i, p) {
      LastEffectiveVariableWins(files, vars, host, i, p);
      decider := Some(i);
    } else {
      UntouchedPathKeepsValue(files, vars, host, 0, p);
      assert vars[..0] == [];
      decider := None;
    }
  }

  /** Project over user: with no effective variable near the path, the project file decides
      wherever it has something, and the user file shows through elsewhere; a file alone
      decides everything, and without files there is only the root. */
  lemma FilesDecideTheRest(files: Files, vars: seq<EnvVar>, host: Host, p: Path)
    requires Untouched(files, vars, host, 0, p)
    ensures var found, user, project := Resolve(files, vars, host, p), files.user, files.project;
            && (project.Some? && View(project.value, p) != Absent ==> found == View(project.value, p))
            && (project.Some? && Blocked(project.value, p) ==> found == Absent)
            && (project.Some? && View(project.value, p) == Absent && !Blocked(project.value, p) ==>
                  found == if user.Some? then View(user.value, p) else Absent)
            && (project.None? && user.Some? ==> found == View(user.value, p))
            && (project.None? && user.None? ==> found == if p == [] then TableNode else Absent)
  {
    UntouchedPathKeepsValue(files, vars, host, 0, p);
    assert vars[..0] == [];
    EmptyBlocksNothing(p);
    if files.project.Some? && View(files.project.value, p) != Absent {
      FoundIsNotBlocked(files.project.value, p);
    }
  }
}
