/**
 * src/cli.rs: the argument dispatcher. `start` and `stop` as the first
 * argument toggle the recurring service (a systemd user timer on Linux, a
 * launchd agent on macOS) and tell `main` to exit; anything else lets the
 * poll run. The service commands go to `execute_command`, whose results
 * (`succeeded`) the dispatcher ignores.
 */
module Cli {
  import opened Prelude

  const StartTimer := "systemctl --user start gh-notifier.timer"
  const EnableTimer := "systemctl --user enable gh-notifier.timer"
  const StopTimer := "systemctl --user stop gh-notifier.timer"
  const DisableTimer := "systemctl --user disable gh-notifier.timer"
  /** The launchd agent's property list, as the shell sees it (`$HOME` is expanded there). */
  const AgentPlist := "$HOME/Library/LaunchAgents/com.gh-notifier.plist"
  const LoadAgent := "launchctl load " + AgentPlist
  const UnloadAgent := "launchctl unload " + AgentPlist

  /** `start_service`: the commands it runs, in order. */
  function StartService(target: TargetOs): seq<string>
  {
    match target
    case Linux => [StartTimer, EnableTimer]
    case MacOS => [LoadAgent]
  }

  /** `stop_service`: the commands it runs, in order. */
  function StopService(target: TargetOs): seq<string>
  {
    match target
    case Linux => [StopTimer, DisableTimer]
    case MacOS => [UnloadAgent]
  }

  /** Whether the arguments were consumed (`main` then exits), and the commands issued. */
  datatype ArgsOutcome = ArgsOutcome(consumed: bool, issued: seq<string>)

  /** `get_args` over the process arguments (`args[0]` is the program name). */
  function GetArgs(args: seq<string>, target: TargetOs, succeeded: string -> bool): (d: ArgsOutcome)
    ensures d.consumed <==> |args| >= 2 && (args[1] == "start" || args[1] == "stop")
    ensures !d.consumed ==> d.issued == []
    ensures d.consumed && args[1] == "start" ==> d.issued == StartService(target)
    ensures d.consumed && args[1] == "stop" ==> d.issued == StopService(target)
  {
    if |args| < 2 then ArgsOutcome(false, [])
    else if args[1] == "stop" then ArgsOutcome(true, StopService(target))
    else if args[1] == "start" then ArgsOutcome(true, StartService(target))
    else ArgsOutcome(false, [])
  }

  /** The outcome does not depend on whether the service commands succeed. `GetArgs` never
      consults `succeeded`, so this holds by construction, as `get_args` discards the
      results of `start_service` and `stop_service`. */
  lemma GetArgsIgnoresCommandResults(args: seq<string>, target: TargetOs, s1: string -> bool, s2: string -> bool)
    ensures GetArgs(args, target, s1) == GetArgs(args, target, s2)
  {
  }

  /** On Linux, `start` starts the timer and then enables it; `stop` stops it and then disables it. */
  lemma LinuxServiceOrder(args: seq<string>, succeeded: string -> bool)
    requires |args| >= 2
    ensures args[1] == "start" ==> GetArgs(args, Linux, succeeded) == ArgsOutcome(true, [StartTimer, EnableTimer])
    ensures args[1] == "stop" ==> GetArgs(args, Linux, succeeded) == ArgsOutcome(true, [StopTimer, DisableTimer])
  {
  }

  /** Every consumed invocation issues at least one service command; every other issues none. */
  lemma ConsumedIffIssued(args: seq<string>, target: TargetOs, succeeded: string -> bool)
    ensures GetArgs(args, target, succeeded).consumed <==> GetArgs(args, target, succeeded).issued != []
  {
  }
}
