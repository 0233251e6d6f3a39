/**
 * The parsed configuration handed to the executor (core/config/config.go).
 * Only the type definitions are modelled; loading and YAML decoding are not.
 */
module Config {

  datatype Logging = Logging(level: string, pretty: bool)

  datatype Settings = Settings(dryRun: bool, logging: Logging, workingDir: string)

  /** A named unit of work: one shell command line with parameters, shell and environment. */
  datatype Group = Group(
    name: string,
    command: string,
    params: seq<string>,
    shell: string,                  // "" means: use the default shell
    description: string,
    env: map<string, string>)       // group-scoped overrides

  /** One step of the plan: the names of the groups it launches together. */
  datatype Step = Step(group: seq<string>)

  datatype Config = Config(
    version: int,
    settings: Settings,
    groups: seq<Group>,
    execution: seq<Step>,
    env: map<string, string>)       // global overrides
}
