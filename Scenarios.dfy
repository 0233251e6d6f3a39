/**
 * The situations core/app/executor_test.go exercises, and the cross-step substitution
 * the engine guarantees, worked through the model. The processes' behaviour is given
 * as requirements on the host oracle.
 */
module Scenarios {

  import opened Wrappers
  import opened GoStrings
  import opened Config
  import opened Expansion
  import opened App

  /** A group that runs `echo <param>` with no shell or env of its own. */
  function Echo(name: string, param: string): Group {
    Group(name, "echo", [param], "", "", map[])
  }

  function TestConfig(groups: seq<Group>, steps: seq<Step>): Config {
    Config(0, Settings(false, Logging("", false), ""), groups, steps, map[])
  }

  /** The context an executor built from `cfg` runs in: the constructor of `App.Executor`
      ensures `groups == RegistryOf(cfg.groups)` and `config == cfg`, so this is
      `ContextFor(host)` of that executor, written here as a value for use in lemmas. */
  function ContextOf(cfg: Config, host: Host): Context {
    Context(RegistryOf(cfg.groups), cfg.env, host)
  }

  /** Against the empty store a group's command line is its command and its
      parameters as written. */
  lemma EmptyStoreLine(g: Group, ctx: Context)
    ensures GroupInvocation(g, ctx, map[]).args == ["-c", CommandLine(g.command, g.params)]
  {
    var orders := ParamOrders(ctx.host, g.name, map[]);
    forall i | 0 <= i < |g.params| ensures ExpandAll(orders, map[], g.params)[i] == g.params[i] {
      ExpandEmptyStore(orders(i), g.params[i]);
    }
    assert ExpandAll(orders, map[], g.params) == g.params;
  }

  /** Two succeeding groups in one step: no error, and each output is stored untrimmed. */
  lemma RunSuccess(host: Host)
    requires var ctx := ContextOf(TestConfig([Echo("group1", "Hello"), Echo("group2", "World")], []), host);
      && host.exec(GroupInvocation(Echo("group1", "Hello"), ctx, map[])) == ProcessResult(true, "Hello\n")
      && host.exec(GroupInvocation(Echo("group2", "World"), ctx, map[])) == ProcessResult(true, "World\n")
    ensures var cfg := TestConfig([Echo("group1", "Hello"), Echo("group2", "World")], [Step(["group1", "group2"])]);
      && GroupInvocation(Echo("group1", "Hello"), ContextOf(cfg, host), map[]).args == ["-c", "echo Hello"]
      && Exec(cfg.execution, 0, ContextOf(cfg, host), map[])
         == RunResult(None, map["group1" := "Hello\n", "group2" := "World\n"])
  {
    var cfg := TestConfig([Echo("group1", "Hello"), Echo("group2", "World")], [Step(["group1", "group2"])]);
    var ctx := ContextOf(cfg, host);
    EmptyStoreLine(Echo("group1", "Hello"), ctx);
    assert Join(["Hello"], " ") == "Hello";
    assert CommandLine("echo", ["Hello"]) == "echo Hello";
    assert GroupInvocation(Echo("group1", "Hello"), ctx, map[]).args == ["-c", "echo Hello"];
    var names := ["group1", "group2"];
    assert names[1..] == ["group2"] && names[1..][1..] == [];
    assert RegistryOf(cfg.groups) == map["group1" := Echo("group1", "Hello"), "group2" := Echo("group2", "World")] by {
      assert cfg.groups[..1] == [Echo("group1", "Hello")];
      assert cfg.groups[..1][..0] == [];
    }
  }

  /** A step naming an unregistered group: the run fails with `group group2 not defined`,
      after group1, listed before it, has already run. */
  lemma RunGroupNotDefined(host: Host)
    ensures var cfg := TestConfig([Echo("group1", "Hello")], [Step(["group1", "group2"])]);
      var ctx := ContextOf(cfg, host);
      var r := GroupResult(Echo("group1", "Hello"), ctx, map[]);
      && Exec(cfg.execution, 0, ctx, map[])
         == RunResult(Some(GroupNotDefined("group2")), if r.success then map["group1" := r.output] else map[])
      && Message(GroupNotDefined("group2")) == "group group2 not defined"
  {
    var cfg := TestConfig([Echo("group1", "Hello")], [Step(["group1", "group2"])]);
    assert cfg.groups[..0] == [];
    var names := ["group1", "group2"];
    assert names[1..] == ["group2"];
  }

  /** A failing command: the run fails with `step 1 failed` and stores nothing for it.
      Its command line keeps the space before the (empty) parameter list. */
  lemma RunCommandFails(host: Host)
    requires var ctx := ContextOf(TestConfig([Group("group1", "false", [], "", "", map[])], []), host);
      !host.exec(GroupInvocation(Group("group1", "false", [], "", "", map[]), ctx, map[])).success
    ensures var cfg := TestConfig([Group("group1", "false", [], "", "", map[])], [Step(["group1"])]);
      var ctx := ContextOf(cfg, host);
      && GroupInvocation(cfg.groups[0], ctx, map[]).args == ["-c", "false "]
      && Exec(cfg.execution, 0, ctx, map[]) == RunResult(Some(StepFailed(1)), map[])
      && Message(StepFailed(1)) == "step 1 failed"
  {
    var cfg := TestConfig([Group("group1", "false", [], "", "", map[])], [Step(["group1"])]);
    assert cfg.groups[..0] == [];
    assert ["group1"][1..] == [];
    EmptyStoreLine(cfg.groups[0], ContextOf(cfg, host));
    assert CommandLine("false", []) == "false ";
    assert RegistryOf(cfg.groups) == map["group1" := cfg.groups[0]];
    assert RunStep(["group1"], ContextOf(cfg, host), map[], map[]) == Finished(map[], ["group1"]);
    assert DecimalString(1) == "1";
  }

  /** The two groups of the same-step scenario, registered under their names. */
  lemma SameStepRegistry()
    ensures RegistryOf([Echo("group1", "{{ output.group2 }}"), Echo("group2", "World")])
         == map["group1" := Echo("group1", "{{ output.group2 }}"), "group2" := Echo("group2", "World")]
  {
    var groups := [Echo("group1", "{{ output.group2 }}"), Echo("group2", "World")];
    assert groups[..1] == [Echo("group1", "{{ output.group2 }}")];
    assert groups[..1][..0] == [];
  }

  /** Against the empty store group1's parameter reaches the shell as written. */
  lemma SameStepLine(ctx: Context)
    ensures GroupInvocation(Echo("group1", "{{ output.group2 }}"), ctx, map[]).args
         == ["-c", "echo {{ output.group2 }}"]
  {
    assert CommandLine("echo", ["{{ output.group2 }}"]) == "echo {{ output.group2 }}";
    EmptyStoreLine(Echo("group1", "{{ output.group2 }}"), ctx);
  }

  /** A placeholder naming a sibling in the same step is handed to the shell verbatim,
      because every group of the step expands against the store as the step found it. */
  lemma SameStepPlaceholderVerbatim(host: Host)
    requires var ctx := ContextOf(TestConfig([Echo("group1", "{{ output.group2 }}"), Echo("group2", "World")], []), host);
      && host.exec(GroupInvocation(Echo("group2", "World"), ctx, map[])) == ProcessResult(true, "World\n")
      && host.exec(GroupInvocation(Echo("group1", "{{ output.group2 }}"), ctx, map[]))
         == ProcessResult(true, "{{ output.group2 }}\n")
    ensures var cfg := TestConfig([Echo("group1", "{{ output.group2 }}"), Echo("group2", "World")],
                                  [Step(["group2", "group1"])]);
      && GroupInvocation(Echo("group1", "{{ output.group2 }}"), ContextOf(cfg, host), map[]).args
         == ["-c", "echo {{ output.group2 }}"]
      && Exec(cfg.execution, 0, ContextOf(cfg, host), map[])
         == RunResult(None, map["group2" := "World\n", "group1" := "{{ output.group2 }}\n"])
  {
    var cfg := TestConfig([Echo("group1", "{{ output.group2 }}"), Echo("group2", "World")], [Step(["group2", "group1"])]);
    SameStepLine(ContextOf(cfg, host));
    SameStepRegistry();
    var names := ["group2", "group1"];
    assert names[1..] == ["group1"] && names[1..][1..] == [];
  }

  lemma TrimWorld()
    ensures TrimSpace("World\n") == "World"
  {
    assert "World\n" == [] + "World" + "\n";
    TrimSpaceUnique([], "World", "\n");
  }

  lemma ExpandWorld(order: seq<string>)
    requires "group2" in order
    ensures Expand(order, map["group2" := "World\n"], "{{ output.group2 }}") == "World"
  {
    var store := map["group2" := "World\n"];
    TrimWorld();
    assert Placeholder("group2") == "{{ output.group2 }}";
    assert forall k :: k in store ==> NoBraces(k);
    ExpandSinglePlaceholder(order, store, "group2");
  }

  /** Cross-step substitution, first half: group2 prints `World\n` in step 1, so step 2
      starts from a store holding exactly that output. */
  lemma CrossStepSnapshot(host: Host)
    requires var ctx := ContextOf(TestConfig([Echo("group1", "{{ output.group2 }}"), Echo("group2", "World")], []), host);
      host.exec(GroupInvocation(Echo("group2", "World"), ctx, map[])) == ProcessResult(true, "World\n")
    ensures var cfg := TestConfig([Echo("group1", "{{ output.group2 }}"), Echo("group2", "World")],
                                  [Step(["group2"]), Step(["group1"])]);
      Exec(cfg.execution[..1], 0, ContextOf(cfg, host), map[]) == RunResult(None, map["group2" := "World\n"])
  {
    var cfg := TestConfig([Echo("group1", "{{ output.group2 }}"), Echo("group2", "World")], [Step(["group2"]), Step(["group1"])]);
    assert cfg.execution[..1] == [Step(["group2"])];
    assert ["group2"][1..] == [];
    assert RegistryOf(cfg.groups)["group2"] == Echo("group2", "World") by {
      assert cfg.groups[..1] == [Echo("group1", "{{ output.group2 }}")];
    }
  }

  /** Cross-step substitution, second half: from that store, group1's parameter
      `{{ output.group2 }}` reaches the shell as `World`, trimmed, whatever order that
      parameter's call of Range visits the stored keys in. */
  lemma CrossStepSubstitution(ctx: Context)
    requires "group2" in ctx.host.rangeOrder("group1", 0, map["group2" := "World\n"])
    ensures GroupInvocation(Echo("group1", "{{ output.group2 }}"), ctx, map["group2" := "World\n"]).args
            == ["-c", "echo World"]
  {
    assert CommandLine("echo", ["World"]) == "echo World";
    var store := map["group2" := "World\n"];
    var order := ctx.host.rangeOrder("group1", 0, store);
    ExpandWorld(order);
    var expanded := ExpandAll(ParamOrders(ctx.host, "group1", store), store, ["{{ output.group2 }}"]);
    assert expanded[0] == Expand(order, store, "{{ output.group2 }}");
    assert expanded == ["World"];
  }
}
