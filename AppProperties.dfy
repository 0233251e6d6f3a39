/**
 * What the engine promises, proved of the model in App: the registry, one step
 * (who runs, what is stored, where a missing name stops the launching loop) and a
 * whole run (steps in order, the first failing step ends it, success exactly when
 * every group of every step resolves and succeeds, earlier output stays visible).
 */
module AppProperties {

  import opened Wrappers
  import opened GoStrings
  import opened Config
  import opened Expansion
  import opened App

  // ------------------------------------------------------------------ registry

  /** NewExecutor registers every group under its name, the later of two groups with
      one name winning. */
  lemma {:induction false} RegistryLookup(groups: seq<Group>, name: string)
    ensures name in RegistryOf(groups) <==> exists i :: 0 <= i < |groups| && groups[i].name == name
    ensures name in RegistryOf(groups) ==> RegistryOf(groups)[name].name == name
    ensures forall i :: 0 <= i < |groups| && groups[i].name == name
              && (forall j :: i < j < |groups| ==> groups[j].name != name)
              ==> RegistryOf(groups)[name] == groups[i]
    decreases |groups|
  {
    if groups != [] {
      var init := groups[..|groups| - 1];
      RegistryLookup(init, name);
      assert forall i :: 0 <= i < |init| ==> init[i] == groups[i];
      if exists i :: 0 <= i < |groups| && groups[i].name == name {
        var i :| 0 <= i < |groups| && groups[i].name == name;
        if i < |init| {
          assert init[i].name == name;
        }
      }
    }
  }

  lemma RegistryNamesMatch(groups: seq<Group>)
    ensures NamesMatch(RegistryOf(groups))
  {
    forall n | n in RegistryOf(groups) ensures RegistryOf(groups)[n].name == n {
      RegistryLookup(groups, n);
    }
  }

  // --------------------------------------------------------------- single step

  /** A step's launching loop ends cleanly exactly when every name it lists is registered
      and every one of those groups succeeds. */
  lemma {:induction false} StepCleanIff(names: seq<string>, ctx: Context, snapshot: Store, store: Store)
    ensures (RunStep(names, ctx, snapshot, store).Finished? && RunStep(names, ctx, snapshot, store).failed == [])
            <==> forall n :: n in names ==> Succeeds(ctx, n, snapshot)
    decreases |names|
  {
    if names != [] && names[0] in ctx.registry {
      var g := ctx.registry[names[0]];
      var r := GroupResult(g, ctx, snapshot);
      var next := if r.success then store[g.name := r.output] else store;
      StepCleanIff(names[1..], ctx, snapshot, next);
      assert forall n :: n in names <==> n == names[0] || n in names[1..];
      var o := RunStep(names, ctx, snapshot, store);
      var ot := RunStep(names[1..], ctx, snapshot, next);
      assert o == Prepend(if r.success then [] else [g.name], ot);
      if r.success {
        assert Succeeds(ctx, names[0], snapshot);
        assert o.Finished? ==> o.failed == ot.failed;
      } else {
        assert !Succeeds(ctx, names[0], snapshot);
        assert o.Finished? ==> o.failed != [];
      }
    } else if names != [] {
      assert names[0] in names && !Succeeds(ctx, names[0], snapshot);
    }
  }

  /** After a step whose names all resolve: the failed groups are exactly those whose
      run failed; each succeeding group's untrimmed output is stored under its name,
      even when a sibling failed; a failing group adds no entry; nothing else changes. */
  lemma {:induction false} StepStores(names: seq<string>, ctx: Context, snapshot: Store, store: Store)
    requires NamesMatch(ctx.registry)
    requires RunStep(names, ctx, snapshot, store).Finished?
    ensures var o := RunStep(names, ctx, snapshot, store);
      && (forall n :: n in names ==> n in ctx.registry)
      && (forall n :: n in o.failed <==> n in names && !Succeeds(ctx, n, snapshot))
      && (forall k :: k in o.store <==> k in store || (k in names && Succeeds(ctx, k, snapshot)))
      && (forall k :: k in names && Succeeds(ctx, k, snapshot)
            ==> o.store[k] == GroupResult(ctx.registry[k], ctx, snapshot).output)
      && (forall k :: k in store && !(k in names && Succeeds(ctx, k, snapshot)) ==> o.store[k] == store[k])
    decreases |names|
  {
    if names != [] {
      var g := ctx.registry[names[0]];
      var r := GroupResult(g, ctx, snapshot);
      var next := if r.success then store[g.name := r.output] else store;
      assert g.name == names[0];
      StepStores(names[1..], ctx, snapshot, next);
      assert forall n :: n in names <==> n == names[0] || n in names[1..];
    }
  }

  /** The launching loop stops at a name missing from the registry exactly when the step
      lists one. */
  lemma {:induction false} StepMissingIff(names: seq<string>, ctx: Context, snapshot: Store, store: Store)
    ensures RunStep(names, ctx, snapshot, store).Missing?
            <==> exists i :: 0 <= i < |names| && names[i] !in ctx.registry
    decreases |names|
  {
    if names != [] && names[0] in ctx.registry {
      var g := ctx.registry[names[0]];
      var r := GroupResult(g, ctx, snapshot);
      var next := if r.success then store[g.name := r.output] else store;
      StepMissingIff(names[1..], ctx, snapshot, next);
      assert forall i :: 1 <= i < |names| ==> names[i] == names[1..][i - 1];
      if exists i :: 0 <= i < |names| && names[i] !in ctx.registry {
        var i :| 0 <= i < |names| && names[i] !in ctx.registry;
        assert names[1..][i - 1] !in ctx.registry;
      }
    }
  }

  /** The first `j` names of a step run its first group and then the next `j - 1`. */
  lemma RunStepPrefix(names: seq<string>, ctx: Context, snapshot: Store, store: Store, j: nat)
    requires 1 <= j <= |names| && names[0] in ctx.registry
    ensures var g := ctx.registry[names[0]];
      var r := GroupResult(g, ctx, snapshot);
      RunStep(names[..j], ctx, snapshot, store)
      == Prepend(if r.success then [] else [g.name],
                 RunStep(names[1..][..j - 1], ctx, snapshot, if r.success then store[g.name := r.output] else store))
  {
    assert names[..j][0] == names[0] && names[..j][1..] == names[1..][..j - 1];
  }

  /** The step stopped at position `j`: the first unregistered name, reached with the
      store the groups before it left. */
  ghost predicate MissingAt(names: seq<string>, ctx: Context, snapshot: Store, store: Store, j: nat)
  {
    var o := RunStep(names, ctx, snapshot, store);
    && o.Missing?
    && j < |names| && names[j] == o.name && names[j] !in ctx.registry
    && (forall l :: 0 <= l < j ==> names[l] in ctx.registry)
    && RunStep(names[..j], ctx, snapshot, store).Finished?
    && RunStep(names[..j], ctx, snapshot, store).store == o.store
  }

  /** Stopping at `j` in the rest of a step whose first group was launched is stopping at `j + 1`. */
  lemma MissingAtShift(names: seq<string>, ctx: Context, snapshot: Store, store: Store, j: nat)
    requires names != [] && names[0] in ctx.registry
    requires var g := ctx.registry[names[0]];
      var r := GroupResult(g, ctx, snapshot);
      MissingAt(names[1..], ctx, snapshot, if r.success then store[g.name := r.output] else store, j)
    ensures MissingAt(names, ctx, snapshot, store, j + 1)
  {
    RunStepPrefix(names, ctx, snapshot, store, j + 1);
    assert forall l :: 1 <= l < j + 1 ==> names[l] == names[1..][l - 1];
    assert names[j + 1] == names[1..][j];
  }

  /** The missing name is the first one the step lists, and it is met after every group
      listed before it has run and stored its output, before any group after it starts. */
  lemma {:induction false} StepMissingPrefix(names: seq<string>, ctx: Context, snapshot: Store, store: Store)
    requires RunStep(names, ctx, snapshot, store).Missing?
    ensures exists j :: MissingAt(names, ctx, snapshot, store, j)
    decreases |names|
  {
    if names[0] !in ctx.registry {
      assert names[..0] == [];
      assert MissingAt(names, ctx, snapshot, store, 0);
    } else {
      var g := ctx.registry[names[0]];
      var r := GroupResult(g, ctx, snapshot);
      var next := if r.success then store[g.name := r.output] else store;
      StepMissingPrefix(names[1..], ctx, snapshot, next);
      var j :| MissingAt(names[1..], ctx, snapshot, next, j);
      MissingAtShift(names, ctx, snapshot, store, j);
    }
  }

  /** Running a step never removes a stored entry. */
  lemma {:induction false} StepKeysGrow(names: seq<string>, ctx: Context, snapshot: Store, store: Store)
    ensures store.Keys <= RunStep(names, ctx, snapshot, store).store.Keys
    decreases |names|
  {
    if names != [] && names[0] in ctx.registry {
      var g := ctx.registry[names[0]];
      var r := GroupResult(g, ctx, snapshot);
      var next := if r.success then store[g.name := r.output] else store;
      StepKeysGrow(names[1..], ctx, snapshot, next);
    }
  }

  // ------------------------------------------------------------- command line

  /** The shell splits the command line back into the command and the parameters when
      none of them holds a space; with no parameters the trailing space leaves one
      empty word. */
  lemma CommandLineWords(command: string, params: seq<string>)
    requires ' ' !in command
    requires forall k :: 0 <= k < |params| ==> ' ' !in params[k]
    ensures Split(CommandLine(command, params), ' ') == [command] + (if params == [] then [""] else params)
  {
    var words := [command] + (if params == [] then [""] else params);
    assert words[1..] == (if params == [] then [""] else params);
    assert Join(words, " ") == CommandLine(command, params);
    assert " " == [' '];
    SplitJoin(words, ' ');
  }

  /** The step number in `step N failed` reads back as N. */
  lemma StepFailedMessage(step: nat)
    ensures exists digits :: Message(StepFailed(step)) == "step " + digits + " failed"
              && (forall i :: 0 <= i < |digits| ==> IsDigit(digits[i])) && DecimalValue(digits) == step
  {
    DecimalRoundTrip(step);
    var digits := DecimalString(step);
    assert Message(StepFailed(step)) == "step " + digits + " failed";
  }

  // ------------------------------------------------------------------ whole run

  /** Steps run strictly in list order: running `s1 + s2` is running `s1` and, only if
      that returned no error, then running `s2` from the store `s1` left. */
  lemma {:induction false} ExecSplit(s1: seq<Step>, s2: seq<Step>, index: nat, ctx: Context, store: Store)
    ensures Exec(s1 + s2, index, ctx, store)
         == (var r := Exec(s1, index, ctx, store);
             if r.err.Some? then r else Exec(s2, index + |s1|, ctx, r.store))
    decreases |s1|
  {
    if s1 == [] {
      assert s1 + s2 == s2;
    } else {
      assert (s1 + s2)[0] == s1[0];
      assert (s1 + s2)[1..] == s1[1..] + s2;
      var o := RunStep(s1[0].group, ctx, store, store);
      if o.Finished? && o.failed == [] {
        ExecSplit(s1[1..], s2, index + 1, ctx, o.store);
      }
    }
  }

  /** The run returned its error at step `k` (0-based): the steps before it all finished
      without error, and the error and store are those of step `k`'s launching loop. */
  ghost predicate StopsAt(steps: seq<Step>, index: nat, ctx: Context, store: Store, k: nat)
    requires k < |steps|
  {
    var before := Exec(steps[..k], index, ctx, store);
    var o := RunStep(steps[k].group, ctx, before.store, before.store);
    var r := Exec(steps, index, ctx, store);
    && before.err.None?
    && r.store == o.store
    && r == Exec(steps[..k + 1], index, ctx, store)
    && match o
       case Missing(name, _) => r.err == Some(GroupNotDefined(name))
       case Finished(_, failed) => failed != [] && r.err == Some(StepFailed(index + k + 1))
  }

  /** After a first step that ended cleanly, the first `k` steps are that step and then
      the next `k - 1`, numbered from the second. */
  lemma ExecPrefix(steps: seq<Step>, index: nat, ctx: Context, store: Store, k: nat)
    requires 1 <= k <= |steps|
    requires RunStep(steps[0].group, ctx, store, store).Finished?
    requires RunStep(steps[0].group, ctx, store, store).failed == []
    ensures Exec(steps[..k], index, ctx, store)
         == Exec(steps[1..][..k - 1], index + 1, ctx, RunStep(steps[0].group, ctx, store, store).store)
  {
    assert steps[..k][0] == steps[0] && steps[..k][1..] == steps[1..][..k - 1];
  }

  /** Stopping at step `k` of the rest of the run, after a first step that ended
      cleanly, is stopping at step `k + 1` of the whole run. */
  lemma StopsAtShift(steps: seq<Step>, index: nat, ctx: Context, store: Store, k: nat)
    requires 1 <= |steps| && k < |steps| - 1
    requires RunStep(steps[0].group, ctx, store, store).Finished?
    requires RunStep(steps[0].group, ctx, store, store).failed == []
    requires StopsAt(steps[1..], index + 1, ctx, RunStep(steps[0].group, ctx, store, store).store, k)
    ensures StopsAt(steps, index, ctx, store, k + 1)
  {
    var rest, after := steps[1..], RunStep(steps[0].group, ctx, store, store).store;
    ExecPrefix(steps, index, ctx, store, k + 1);
    ExecPrefix(steps, index, ctx, store, k + 2);
    assert Exec(steps, index, ctx, store) == Exec(rest, index + 1, ctx, after);
    assert steps[k + 1] == rest[k];
  }

  /** A run that returns an error stops at one step: every earlier step completed, its
      error names the missing group or the failed step's 1-based number, and no later
      step plays any part in the result. */
  lemma {:induction false} ExecStopsAt(steps: seq<Step>, index: nat, ctx: Context, store: Store)
    requires Exec(steps, index, ctx, store).err.Some?
    ensures exists k :: 0 <= k < |steps| && StopsAt(steps, index, ctx, store, k)
    decreases |steps|
  {
    var o := RunStep(steps[0].group, ctx, store, store);
    assert steps[..0] == [];
    assert steps[..1] == [steps[0]];
    if o.Finished? && o.failed == [] {
      ExecStopsAt(steps[1..], index + 1, ctx, o.store);
      var k' :| 0 <= k' < |steps[1..]| && StopsAt(steps[1..], index + 1, ctx, o.store, k');
      StopsAtShift(steps, index, ctx, store, k');
    } else {
      assert StopsAt(steps, index, ctx, store, 0);
    }
  }

  /** Every group the step lists is registered and succeeds from `store`. */
  ghost predicate StepSucceeds(step: Step, ctx: Context, store: Store) {
    forall n :: n in step.group ==> Succeeds(ctx, n, store)
  }

  /** Run returns nil exactly when every step's groups all resolve and all succeed, each
      step starting from the store the steps before it left. */
  lemma {:induction false} ExecOkIff(steps: seq<Step>, index: nat, ctx: Context, store: Store)
    ensures Exec(steps, index, ctx, store).err.None?
            <==> forall k :: 0 <= k < |steps| ==> StepSucceeds(steps[k], ctx, Exec(steps[..k], index, ctx, store).store)
    decreases |steps|
  {
    if steps != [] {
      var o := RunStep(steps[0].group, ctx, store, store);
      StepCleanIff(steps[0].group, ctx, store, store);
      assert steps[..0] == [];
      if o.Finished? && o.failed == [] {
        ExecOkIff(steps[1..], index + 1, ctx, o.store);
        forall k | 1 <= k < |steps|
          ensures Exec(steps[..k], index, ctx, store) == Exec(steps[1..][..k - 1], index + 1, ctx, o.store)
          ensures steps[k] == steps[1..][k - 1]
        {
          assert steps[..k][0] == steps[0] && steps[..k][1..] == steps[1..][..k - 1];
        }
        if forall k :: 0 <= k < |steps| ==> StepSucceeds(steps[k], ctx, Exec(steps[..k], index, ctx, store).store) {
          forall k' | 0 <= k' < |steps[1..]|
            ensures StepSucceeds(steps[1..][k'], ctx, Exec(steps[1..][..k'], index + 1, ctx, o.store).store)
          {
            assert StepSucceeds(steps[k' + 1], ctx, Exec(steps[..k' + 1], index, ctx, store).store);
          }
        }
      } else {
        assert !StepSucceeds(steps[0], ctx, Exec(steps[..0], index, ctx, store).store);
      }
    }
  }

  /** A run never removes a stored entry. */
  lemma {:induction false} ExecKeysGrow(steps: seq<Step>, index: nat, ctx: Context, store: Store)
    ensures store.Keys <= Exec(steps, index, ctx, store).store.Keys
    decreases |steps|
  {
    if steps != [] {
      var o := RunStep(steps[0].group, ctx, store, store);
      StepKeysGrow(steps[0].group, ctx, store, store);
      if o.Finished? && o.failed == [] {
        ExecKeysGrow(steps[1..], index + 1, ctx, o.store);
      }
    }
  }

  /** Every group of a step that ended cleanly has an entry afterwards. */
  lemma CleanStepStores(names: seq<string>, ctx: Context, store: Store, name: string)
    requires NamesMatch(ctx.registry)
    requires RunStep(names, ctx, store, store).Finished? && RunStep(names, ctx, store, store).failed == []
    requires name in names
    ensures name in RunStep(names, ctx, store, store).store
  {
    StepCleanIff(names, ctx, store, store);
    StepStores(names, ctx, store, store);
  }

  /** A one-step run without error is that step's launching loop ending cleanly. */
  lemma SingleStep(s: Step, index: nat, ctx: Context, store: Store)
    ensures var o := RunStep(s.group, ctx, store, store);
      Exec([s], index, ctx, store).err.None? <==> o.Finished? && o.failed == []
    ensures var o := RunStep(s.group, ctx, store, store);
      Exec([s], index, ctx, store).err.None? ==> Exec([s], index, ctx, store).store == o.store
  {
    assert [s][0] == s && [s][1..] == [];
  }

  /** A run that got through `p` keeps every entry `p` left, whatever follows. */
  lemma ExecExtendKeys(p: seq<Step>, s2: seq<Step>, index: nat, ctx: Context, store: Store)
    requires Exec(p, index, ctx, store).err.None?
    ensures Exec(p, index, ctx, store).store.Keys <= Exec(p + s2, index, ctx, store).store.Keys
  {
    ExecSplit(p, s2, index, ctx, store);
    ExecKeysGrow(s2, index + |p|, ctx, Exec(p, index, ctx, store).store);
  }

  /** A group of the last step of a run that returned no error has an entry. */
  lemma LastStepStores(s1: seq<Step>, s: Step, index: nat, ctx: Context, store: Store, name: string)
    requires NamesMatch(ctx.registry)
    requires Exec(s1 + [s], index, ctx, store).err.None?
    requires name in s.group
    ensures name in Exec(s1 + [s], index, ctx, store).store
  {
    ExecSplit(s1, [s], index, ctx, store);
    var r1 := Exec(s1, index, ctx, store);
    SingleStep(s, index + |s1|, ctx, r1.store);
    CleanStepStores(s.group, ctx, r1.store, name);
  }

  /** Output from a step that completed stays visible: every group of a step that
      finished without error still has an entry when the run ends, whatever the later
      steps do. */
  lemma OutputVisibleLater(s1: seq<Step>, s: Step, s2: seq<Step>, index: nat, ctx: Context, store: Store, name: string)
    requires NamesMatch(ctx.registry)
    requires Exec(s1 + [s], index, ctx, store).err.None?
    requires name in s.group
    ensures name in Exec(s1 + [s] + s2, index, ctx, store).store
  {
    LastStepStores(s1, s, index, ctx, store, name);
    ExecExtendKeys(s1 + [s], s2, index, ctx, store);
  }
}
