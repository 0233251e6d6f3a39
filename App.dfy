/**
 * The execution engine (core/app/executor.go): the group registry, the group runner
 * and the step scheduler. Running a process is an oracle supplied by the host; the
 * groups of one step run one after another here, each expanding its parameters
 * against the store as it stood when the step began.
 */
module App {

  import opened Wrappers
  import opened GoStrings
  import opened Config
  import opened Expansion
  import opened Environment

  // ------------------------------------------------------------------ registry

  type GroupMap = map<string, Group>

  /** NewExecutor's loop: every group stored under its name, a later group replacing an earlier one. */
  function RegistryOf(groups: seq<Group>): GroupMap
    decreases |groups|
  {
    if groups == [] then map[]
    else
      var last := groups[|groups| - 1];
      RegistryOf(groups[..|groups| - 1])[last.name := last]
  }

  /** Each registered group is stored under its own name. */
  predicate NamesMatch(registry: GroupMap) {
    forall n :: n in registry ==> registry[n].name == n
  }

  // ---------------------------------------------------------- the host oracle

  /** What is handed to the operating system: `shell -c line` with environment `env`.
      `env` is the key/value view of the `k=v` list mergeEnvs produces. */
  datatype Invocation = Invocation(group: string, shell: string, args: seq<string>, env: Env)

  /** Exit status zero or not, and the combined standard output and error. */
  datatype ProcessResult = ProcessResult(success: bool, output: string)

  /** The world outside the engine: os.Environ(), $SHELL, the processes, and the
      order in which each call of sync.Map.Range visits the store. Range is called
      afresh for every parameter, so the order is chosen per call: by the group being
      run, the index of the parameter and the store it sees. */
  datatype Host = Host(
    environ: seq<string>,
    shellVar: string,
    exec: Invocation -> ProcessResult,
    rangeOrder: (string, nat, Store) -> seq<string>)

  /** What a run reads but never changes: the registry, the global env and the host. */
  datatype Context = Context(registry: GroupMap, globalEnv: Env, host: Host)

  // -------------------------------------------------------------- group runner

  const FallbackShell := "/bin/sh"

  /** getDefaultShell */
  function DefaultShell(shellVar: string): string {
    if shellVar == "" then FallbackShell else shellVar
  }

  /** Lines 80-83: the group's own shell, else $SHELL, else /bin/sh; never empty. */
  function ShellFor(g: Group, shellVar: string): (shell: string)
    ensures shell != ""
    ensures g.shell != "" ==> shell == g.shell
    ensures g.shell == "" && shellVar != "" ==> shell == shellVar
    ensures g.shell == "" && shellVar == "" ==> shell == FallbackShell
  {
    if g.shell == "" then DefaultShell(shellVar) else g.shell
  }

  /** Line 92: `%s %s` of the command and the space-joined parameters. */
  function CommandLine(command: string, params: seq<string>): (line: string)
    ensures |line| > |command| && line[..|command| + 1] == command + " "
    ensures params == [] ==> line == command + " "
  {
    command + " " + Join(params, " ")
  }

  /** The Range orders of the parameters of group `name`, one call per parameter. */
  function ParamOrders(host: Host, name: string, snapshot: Store): nat -> seq<string> {
    (i: nat) => host.rangeOrder(name, i, snapshot)
  }

  /** The invocation runGroup makes for `g` when the store stood at `snapshot`. */
  function GroupInvocation(g: Group, ctx: Context, snapshot: Store): Invocation {
    var expanded := ExpandAll(ParamOrders(ctx.host, g.name, snapshot), snapshot, g.params);
    Invocation(
      g.name,
      ShellFor(g, ctx.host.shellVar),
      ["-c", CommandLine(g.command, expanded)],
      Merged(ctx.host.environ, [ctx.globalEnv, g.env]))
  }

  function GroupResult(g: Group, ctx: Context, snapshot: Store): ProcessResult {
    ctx.host.exec(GroupInvocation(g, ctx, snapshot))
  }

  /** The step names a registered group whose run succeeds. */
  predicate Succeeds(ctx: Context, name: string, snapshot: Store) {
    name in ctx.registry && GroupResult(ctx.registry[name], ctx, snapshot).success
  }

  // ------------------------------------------------------------- step scheduler

  /** The error `Run` returns. */
  datatype RunError = GroupNotDefined(name: string) | StepFailed(step: nat)

  function Message(e: RunError): string {
    match e
    case GroupNotDefined(name) => "group " + name + " not defined"
    case StepFailed(step) => "step " + DecimalString(step) + " failed"
  }

  /** How the launching loop of one step ends: at a name missing from the registry, with
      the store as the groups launched before it left it; or with every group run, the
      store they left and the names of those that failed. */
  datatype StepOutcome = Missing(name: string, store: Store) | Finished(store: Store, failed: seq<string>)

  function Prepend(failed: seq<string>, o: StepOutcome): StepOutcome {
    match o
    case Missing(_, _) => o
    case Finished(store, rest) => Finished(store, failed + rest)
  }

  /** Lines 44-62 for the names `names`, every group expanding against `snapshot`
      and storing into `store` on success. */
  function RunStep(names: seq<string>, ctx: Context, snapshot: Store, store: Store): StepOutcome
    decreases |names|
  {
    if names == [] then Finished(store, [])
    else if names[0] !in ctx.registry then Missing(names[0], store)
    else
      var g := ctx.registry[names[0]];
      var r := GroupResult(g, ctx, snapshot);
      var next := if r.success then store[g.name := r.output] else store;
      Prepend(if r.success then [] else [g.name], RunStep(names[1..], ctx, snapshot, next))
  }

  lemma PrependPrepend(a: seq<string>, b: seq<string>, o: StepOutcome)
    ensures Prepend(a, Prepend(b, o)) == Prepend(a + b, o)
  {
    if o.Finished? {
      assert a + (b + o.failed) == (a + b) + o.failed;
    }
  }

  /** The error (or none) and the final store of a run. */
  datatype RunResult = RunResult(err: Option<RunError>, store: Store)

  /** Lines 38-72 for the steps `steps`, the first of which is step `index + 1`. */
  function Exec(steps: seq<Step>, index: nat, ctx: Context, store: Store): RunResult
    decreases |steps|
  {
    if steps == [] then RunResult(None, store)
    else
      match RunStep(steps[0].group, ctx, store, store)
      case Missing(name, st) => RunResult(Some(GroupNotDefined(name)), st)
      case Finished(st, failed) =>
        if failed != [] then RunResult(Some(StepFailed(index + 1)), st)
        else Exec(steps[1..], index + 1, ctx, st)
  }

  // ------------------------------------------------------------------ executor

  class Executor {
    const groups: GroupMap
    const config: Config
    var outputs: Store

    /** NewExecutor */
    constructor (cfg: Config)
      ensures config == cfg && groups == RegistryOf(cfg.groups) && outputs == map[]
    {
      var m: GroupMap := map[];
      for i := 0 to |cfg.groups|
        invariant m == RegistryOf(cfg.groups[..i])
      {
        assert cfg.groups[..i + 1][..i] == cfg.groups[..i];
        m := m[cfg.groups[i].name := cfg.groups[i]];
      }
      assert cfg.groups[..|cfg.groups|] == cfg.groups;
      groups := m;
      config := cfg;
      outputs := map[];
    }

    function ContextFor(host: Host): Context
      reads this
    {
      Context(groups, config.env, host)
    }

    /** runGroup: expand against `snapshot`, run `shell -c line`, store the output on success only. */
    method RunGroup(g: Group, snapshot: Store, host: Host) returns (ok: bool)
      modifies this
      ensures ok == GroupResult(g, ContextFor(host), snapshot).success
      ensures outputs == if ok then old(outputs)[g.name := GroupResult(g, ContextFor(host), snapshot).output]
                         else old(outputs)
    {
      var shell := g.shell;
      if shell == "" {
        shell := DefaultShell(host.shellVar);
      }
      var expanded: seq<string> := [];
      for i := 0 to |g.params|
        invariant outputs == old(outputs)
        invariant |expanded| == i
        invariant forall j :: 0 <= j < i ==> expanded[j] == Expand(host.rangeOrder(g.name, j, snapshot), snapshot, g.params[j])
      {
        var p := ExpandParams(g.params[i], snapshot, host.rangeOrder(g.name, i, snapshot));
        expanded := expanded + [p];
      }
      assert expanded == ExpandAll(ParamOrders(host, g.name, snapshot), snapshot, g.params);
      var line := CommandLine(g.command, expanded);
      var env := MergeLayers(host.environ, [config.env, g.env]);
      var r := host.exec(Invocation(g.name, shell, ["-c", line], env));
      assert r == GroupResult(g, ContextFor(host), snapshot);
      if !r.success {
        return false;
      }
      outputs := outputs[g.name := r.output];
      ok := true;
    }

    /** Run: the steps in order; a missing name ends the run at once, a failed group
        ends it once every group of its step has run. */
    method Run(host: Host) returns (err: Option<RunError>)
      modifies this
      ensures RunResult(err, outputs) == Exec(config.execution, 0, ContextFor(host), old(outputs))
      ensures config.execution == [] ==> err == None && outputs == old(outputs)
    {
      var steps := config.execution;
      var ctx := ContextFor(host);
      var i := 0;
      while i < |steps|
        invariant 0 <= i <= |steps|
        invariant Exec(steps, 0, ctx, old(outputs)) == Exec(steps[i..], i, ctx, outputs)
      {
        var names := steps[i].group;
        var snapshot := outputs;
        var failed: seq<string> := [];
        var j := 0;
        assert names[0..] == names;
        while j < |names|
          invariant 0 <= j <= |names|
          invariant Exec(steps, 0, ctx, old(outputs)) == Exec(steps[i..], i, ctx, snapshot)
          invariant RunStep(names, ctx, snapshot, snapshot) == Prepend(failed, RunStep(names[j..], ctx, snapshot, outputs))
        {
          if names[j] !in groups {
            assert RunStep(names, ctx, snapshot, snapshot) == Missing(names[j], outputs);
            assert steps[i..][0] == steps[i];
            return Some(GroupNotDefined(names[j]));
          }
          var g := groups[names[j]];
          ghost var before := outputs;
          var ok := RunGroup(g, snapshot, host);
          assert names[j..][1..] == names[j + 1..];
          assert RunStep(names[j..], ctx, snapshot, before)
              == Prepend(if ok then [] else [g.name], RunStep(names[j + 1..], ctx, snapshot, outputs));
          PrependPrepend(failed, if ok then [] else [g.name], RunStep(names[j + 1..], ctx, snapshot, outputs));
          if !ok {
            failed := failed + [g.name];
          } else {
            assert failed + [] == failed;
          }
          j := j + 1;
        }
        assert RunStep(names, ctx, snapshot, snapshot) == Finished(outputs, failed) by {
          assert names[j..] == [];
          assert failed + [] == failed;
        }
        assert steps[i..][0] == steps[i];
        if failed != [] {
          return Some(StepFailed(i + 1));
        }
        assert steps[i..][1..] == steps[i + 1..];
        i := i + 1;
      }
      return None;
    }
  }
}
