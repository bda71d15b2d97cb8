/**
 * The argv that `run_command` (docker-updater.py) hands to the operating
 * system for a tool-neutral command such as `["compose", "pull"]` or
 * `["image", "inspect", ...]`.
 *
 * The two globals the updater sets while probing the machine become the
 * fields of `ToolFlags`; the optional `tool_override` argument is an
 * `Option<string>`, where both `None` and `Some("")` stand for a falsy
 * override.
 */
module ToolCommand {
  import opened Wrappers

  /** `is_podman_available` and `is_legacy_docker_compose_available`. */
  datatype ToolFlags = ToolFlags(podmanAvailable: bool, legacyComposeAvailable: bool)

  /** The tool chosen when no override is given: podman first, then legacy docker-compose, then docker. */
  function DefaultTool(flags: ToolFlags): (tool: string)
    ensures tool == "podman" <==> flags.podmanAvailable
    ensures tool in {"podman", "docker-compose", "docker"}
  {
    if flags.podmanAvailable then "podman"
    else if flags.legacyComposeAvailable then "docker-compose"
    else "docker"
  }

  /** A falsy override (missing or empty) falls back to the default tool; any other override is used as given. */
  function EffectiveTool(toolOverride: Option<string>, flags: ToolFlags): (tool: string)
    ensures tool != ""
    ensures tool == "podman" <==>
              if toolOverride.Some? && toolOverride.value != "" then toolOverride.value == "podman" else flags.podmanAvailable
  {
    if toolOverride.None? || toolOverride.value == "" then DefaultTool(flags) else toolOverride.value
  }

  /** The executables a translated command can start with. */
  predicate IsLauncher(program: string) {
    program in {"podman-compose", "docker-compose", "docker", "podman"}
  }

  /** Recovers the tool-neutral command from a translated argv: the inverse of `Translate`. */
  function CommandOf(argv: seq<string>): (command: seq<string>)
    requires |argv| > 0
    ensures |command| >= |argv| - 1
  {
    if argv[0] == "podman-compose" || argv[0] == "docker-compose" then ["compose"] + argv[1..] else argv[1..]
  }

  /**
   * The argv `run_command` executes. `compose` becomes `podman-compose`
   * for podman, `docker-compose` when the legacy binary was detected, and
   * `docker compose` otherwise; any other command is prefixed with
   * `podman` for podman and with `docker` for every other tool.
   */
  function Translate(command: seq<string>, toolOverride: Option<string>, flags: ToolFlags): (argv: seq<string>)
    requires |command| > 0
    ensures |argv| >= |command| && IsLauncher(argv[0])
    ensures argv[|argv| - (|command| - 1)..] == command[1..]
    ensures CommandOf(argv) == command
  {
    var tool := EffectiveTool(toolOverride, flags);
    var argv :=
      if command[0] == "compose" then
        if tool == "podman" then ["podman-compose"] + command[1..]
        else if flags.legacyComposeAvailable then ["docker-compose"] + command[1..]
        else ["docker", "compose"] + command[1..]
      else if tool == "podman" then ["podman"] + command
      else ["docker"] + command;
    assert command == [command[0]] + command[1..];
    argv
  }

  /** The argv starts with a podman executable exactly when the effective tool is podman. */
  lemma PodmanExactlyWhenChosen(command: seq<string>, toolOverride: Option<string>, flags: ToolFlags)
    requires |command| > 0
    ensures var argv := Translate(command, toolOverride, flags);
      argv[0] in {"podman", "podman-compose"} <==> EffectiveTool(toolOverride, flags) == "podman"
  {
  }

  /**
   * Under any tool other than podman, a compose command runs the legacy
   * `docker-compose` binary exactly when it was detected, and `docker
   * compose` otherwise; the override does not choose between the two.
   */
  lemma ComposeUnderDocker(command: seq<string>, toolOverride: Option<string>, flags: ToolFlags)
    requires |command| > 0 && command[0] == "compose"
    requires EffectiveTool(toolOverride, flags) != "podman"
    ensures var argv := Translate(command, toolOverride, flags);
      && (argv[0] == "docker-compose" <==> flags.legacyComposeAvailable)
      && (flags.legacyComposeAvailable ==> argv == ["docker-compose"] + command[1..])
      && (!flags.legacyComposeAvailable ==> argv == ["docker", "compose"] + command[1..])
  {
  }

  /** Under podman, a compose command runs `podman-compose` with the words after `compose`. */
  lemma ComposeUnderPodman(command: seq<string>, toolOverride: Option<string>, flags: ToolFlags)
    requires |command| > 0 && command[0] == "compose"
    requires EffectiveTool(toolOverride, flags) == "podman"
    ensures Translate(command, toolOverride, flags) == ["podman-compose"] + command[1..]
  {
  }

  /** Any command other than `compose` keeps its words and gains one leading executable: `podman` or `docker`. */
  lemma OtherCommandsArePrefixed(command: seq<string>, toolOverride: Option<string>, flags: ToolFlags)
    requires |command| > 0 && command[0] != "compose"
    ensures var argv := Translate(command, toolOverride, flags);
      && argv[1..] == command
      && (argv[0] == "podman" <==> EffectiveTool(toolOverride, flags) == "podman")
      && (argv[0] != "podman" ==> argv[0] == "docker")
  {
  }

  /** A missing override and an empty one behave alike, and both behave as naming the default tool. */
  lemma FalsyOverrideIsDefault(command: seq<string>, flags: ToolFlags)
    requires |command| > 0
    ensures Translate(command, None, flags) == Translate(command, Some(""), flags)
    ensures Translate(command, None, flags) == Translate(command, Some(DefaultTool(flags)), flags)
  {
  }
}
