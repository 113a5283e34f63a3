/**
 * src/util.rs: an earlier copy of the argument dispatcher (launchd only),
 * of the click-URL builder, and of the persistence path, which `main` does
 * not use. Each is modelled and tied to its counterpart.
 */
module Util {
  import opened Prelude
  import opened Strings
  import Cli
  import Notifier
  import FileOperations

  const LaunchAgentPlistPath := "$HOME/Library/LaunchAgents/com.gh-notifier.plist"
  const IdsFileName := ".gh-read-notification-ids"

  /** `stop_service`: `launchctl unload` of the agent. */
  function StopService(): string
  {
    "launchctl unload " + LaunchAgentPlistPath
  }

  /** `start_service`: `launchctl load` of the agent. */
  function StartService(): string
  {
    "launchctl load " + LaunchAgentPlistPath
  }

  /** `parse_args`: whether `start` or `stop` was given, and the launchctl command issued. */
  function ParseArgs(args: seq<string>, succeeded: string -> bool): (d: Cli.ArgsOutcome)
    ensures d.consumed <==> |args| >= 2 && (args[1] == "start" || args[1] == "stop")
    ensures !d.consumed ==> d.issued == []
    ensures d.consumed && args[1] == "stop" ==> d.issued == [StopService()]
    ensures d.consumed && args[1] == "start" ==> d.issued == [StartService()]
  {
    if |args| < 2 then Cli.ArgsOutcome(false, [])
    else if args[1] == "stop" then Cli.ArgsOutcome(true, [StopService()])
    else if args[1] == "start" then Cli.ArgsOutcome(true, [StartService()])
    else Cli.ArgsOutcome(false, [])
  }

  /** This dispatcher is the macOS build of `cli::get_args`. */
  lemma ParseArgsIsMacOSGetArgs(args: seq<string>, succeeded: string -> bool)
    ensures ParseArgs(args, succeeded) == Cli.GetArgs(args, MacOS, succeeded)
  {
  }

  /** `build_pull_or_issue_url`, taking the `Option` by value. */
  function BuildPullOrIssueUrl(url: Option<string>): (r: Result<string, Notifier.UrlError>)
    ensures url == None ==> r == Success("")
    ensures url.Some? ==> (r.Failure? <==> |Split(url.value, '/')| < 4)
    ensures url.Some? && r.Failure? ==> r.error == Notifier.TooFewSegments(url.value)
  {
    match url
    case None => Success("")
    case Some(u) =>
      var urlParts := Split(u, '/');
      var len := |urlParts|;
      var pullOrIssue := if "issues" in urlParts then "issues" else "pull";
      if len < 4 then Failure(Notifier.TooFewSegments(u))
      else Success("https://github.com/" + urlParts[len - 4] + "/" + urlParts[len - 3] + "/" + pullOrIssue
                   + "/" + urlParts[len - 1])
  }

  /** Both copies of the URL builder agree on every input. */
  lemma BuildPullOrIssueUrlAgrees(url: Option<string>)
    ensures BuildPullOrIssueUrl(url) == Notifier.BuildPullOrIssueUrl(url)
  {
  }

  /** `get_persistence_file_path`: `$HOME` followed by `/.gh-read-notification-ids`,
      created empty when it does not exist. */
  method GetPersistenceFilePath(fs: FileOperations.FileSystem, home: string) returns (idsFilePath: string)
    modifies fs
    ensures idsFilePath == FileOperations.PersistenceFilePath(home, IdsFileName)
    ensures fs.files == FileOperations.CreateIfAbsent(old(fs.files), idsFilePath)
  {
    idsFilePath := home;
    var idsFilename := "/.gh-read-notification-ids";
    idsFilePath := idsFilePath + idsFilename;
    assert idsFilename == "/" + IdsFileName;
    if idsFilePath !in fs.files {
      fs.files := fs.files[idsFilePath := ""];
    }
  }

  /** The two persistence paths differ only in the file name. */
  lemma PersistencePathsDiffer(home: string)
    ensures FileOperations.PersistenceFilePath(home, IdsFileName)
         != FileOperations.PersistenceFilePath(home, Notifier.ReadIdsFileName)
  {
    var a := FileOperations.PersistenceFilePath(home, IdsFileName);
    var b := FileOperations.PersistenceFilePath(home, Notifier.ReadIdsFileName);
    assert |a| != |b|;
  }
}
