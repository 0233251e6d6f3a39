/**
 * The `--group` filter of the command line (validateGroupParam, cmd/root.go:96-114):
 * the name must be one of the configured groups, and the plan becomes a single step
 * that runs only that group. Go assigns the plan through a `*config.Config`; here the
 * method returns the configuration the caller holds afterwards.
 */
module Cmd {

  import opened Wrappers
  import opened Config

  datatype FilterError = GroupNotFound(name: string)

  /** `group %q not found in config` (Go's escaping inside %q is not modelled). */
  function ErrorMessage(e: FilterError): string {
    "group \"" + e.name + "\" not found in config"
  }

  predicate HasGroup(cfg: Config, name: string) {
    exists i :: 0 <= i < |cfg.groups| && cfg.groups[i].name == name
  }

  /** The configuration and error validateGroupParam leaves: unchanged and nil for an
      empty name; unchanged and an error for an unknown name; otherwise a plan of one
      step holding only that name. Nothing but the plan ever changes. */
  function FilterPlan(cfg: Config, name: string): (r: (Config, Option<FilterError>))
    ensures r.0.(execution := cfg.execution) == cfg
    ensures r.1.Some? <==> name != "" && !HasGroup(cfg, name)
    ensures r.1.Some? ==> r.1 == Some(GroupNotFound(name)) && r.0 == cfg
    ensures name == "" ==> r.0 == cfg
    ensures name != "" && HasGroup(cfg, name) ==> r.0.execution == [Step([name])]
  {
    if name == "" then (cfg, None)
    else if !HasGroup(cfg, name) then (cfg, Some(GroupNotFound(name)))
    else (cfg.(execution := [Step([name])]), None)
  }

  /** validateGroupParam: a scan with a `found` flag that stops at the first match. */
  method ValidateGroupParam(cfg: Config, groupName: string) returns (result: Config, err: Option<FilterError>)
    ensures (result, err) == FilterPlan(cfg, groupName)
  {
    result, err := cfg, None;
    if groupName != "" {
      var found := false;
      for i := 0 to |cfg.groups|
        invariant !found
        invariant forall k :: 0 <= k < i ==> cfg.groups[k].name != groupName
      {
        if cfg.groups[i].name == groupName {
          found := true;
          break;
        }
      }
      if !found {
        return cfg, Some(GroupNotFound(groupName));
      }
      result := cfg.(execution := [Step([groupName])]);
    }
  }

  /** Filtering again by the name that was found changes nothing more. */
  lemma FilterPlanIdempotent(cfg: Config, name: string)
    requires FilterPlan(cfg, name).1 == None
    ensures FilterPlan(FilterPlan(cfg, name).0, name) == FilterPlan(cfg, name)
  {
    var once := FilterPlan(cfg, name).0;
    assert once.groups == cfg.groups;
    assert HasGroup(once, name) == HasGroup(cfg, name);
  }
}
