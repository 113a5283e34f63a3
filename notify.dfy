/**
 * src/notify/src/lib.rs: the command line handed to the shell to raise a
 * desktop notification. On Linux it is `notify-send`; elsewhere it is
 * `terminal-notifier`, whose message must not contain `[` or `]`. Running
 * the command is `execute_command`'s business; the model returns the string.
 */
module Notify {
  import opened Prelude
  import opened Strings

  /** The characters terminal-notifier cannot show; they are deleted from the message. */
  const TerminalNotifierUnsafeChars: seq<char> := ['[', ']']

  /** `notify`: `notify-send` on Linux, `terminal-notifier` on every other target. */
  method Notify(target: TargetOs, title: string, subtitle: string, message: string, sound: string, open: string)
    returns (command: string)
    ensures target == Linux ==> command == NotifySendCommand(title, subtitle, message)
    ensures target != Linux ==>
      command == TerminalNotifierLine(title, subtitle, Without(message, TerminalNotifierUnsafeChars), sound, open)
  {
    if target == Linux {
      command := NotifySendCommand(title, subtitle, message);
    } else {
      command := TerminalNotifierCommand(title, subtitle, message, sound, open);
    }
  }

  /** The terminal-notifier command for an already sanitised message: four quoted
      options, then `-open "<url>"` only when there is a URL. */
  function TerminalNotifierLine(title: string, subtitle: string, safeMessage: string, sound: string, open: string): string
  {
    var options := "-title \"" + title + "\" -subtitle \"" + subtitle + "\" -message \"" + safeMessage
                   + "\" -sound \"" + sound + "\"";
    "terminal-notifier " + (if |open| > 0 then options + " -open \"" + open + "\"" else options)
  }

  /** `terminal_notifier_command`: deletes each unsafe character from the message in turn,
      then builds the command, adding the `-open` option when `open` is not empty. */
  method TerminalNotifierCommand(title: string, subtitle: string, message: string, sound: string, open: string)
    returns (command: string)
    ensures command == TerminalNotifierLine(title, subtitle, Without(message, TerminalNotifierUnsafeChars), sound, open)
  {
    var safeMessage := message;
    WithoutNothing(message);
    assert TerminalNotifierUnsafeChars[..0] == [];
    for i := 0 to |TerminalNotifierUnsafeChars|
      invariant safeMessage == Without(message, TerminalNotifierUnsafeChars[..i])
    {
      var c := TerminalNotifierUnsafeChars[i];
      WithoutTwice(message, TerminalNotifierUnsafeChars[..i], [c]);
      assert TerminalNotifierUnsafeChars[..i] + [c] == TerminalNotifierUnsafeChars[..i + 1];
      safeMessage := Without(safeMessage, [c]);
    }
    assert TerminalNotifierUnsafeChars[..|TerminalNotifierUnsafeChars|] == TerminalNotifierUnsafeChars;
    var notificationStr := "-title \"" + title + "\" -subtitle \"" + subtitle + "\" -message \"" + safeMessage
                           + "\" -sound \"" + sound + "\"";
    if |open| > 0 {
      notificationStr := notificationStr + " -open \"" + open + "\"";
    }
    command := "terminal-notifier " + notificationStr;
  }

  /** `notify_send_command`: `notify-send "<title> (<subtitle>)" "<message>"`; the message
      is used as it is, and sound and click URL are not part of it. */
  function NotifySendCommand(title: string, subtitle: string, message: string): string
  {
    "notify-send \"" + title + " (" + subtitle + ")\" \"" + message + "\""
  }

  // ---------------------------------------------------------------------
  // Properties

  /** The sanitised message has no `[` and no `]`. */
  lemma SanitisedHasNoBrackets(message: string)
    ensures '[' !in Without(message, TerminalNotifierUnsafeChars)
    ensures ']' !in Without(message, TerminalNotifierUnsafeChars)
  {
    var safe := Without(message, TerminalNotifierUnsafeChars);
    assert forall k :: 0 <= k < |safe| ==> safe[k] != '[' && safe[k] != ']';
  }

  /** Sanitising twice is sanitising once. */
  lemma SanitiseIdempotent(message: string)
    ensures Without(Without(message, TerminalNotifierUnsafeChars), TerminalNotifierUnsafeChars)
         == Without(message, TerminalNotifierUnsafeChars)
  {
    WithoutIdempotent(message, TerminalNotifierUnsafeChars);
  }

  /** Sanitising keeps every other character as often as it occurs, and leaves a
      message without brackets unchanged. */
  lemma SanitiseKeepsOthers(message: string, ch: char)
    requires ch != '[' && ch != ']'
    ensures multiset(Without(message, TerminalNotifierUnsafeChars))[ch] == multiset(message)[ch]
    ensures '[' !in message && ']' !in message ==> Without(message, TerminalNotifierUnsafeChars) == message
  {
    WithoutKeepsOthers(message, TerminalNotifierUnsafeChars, ch);
    if '[' !in message && ']' !in message {
      WithoutAbsent(message, TerminalNotifierUnsafeChars);
    }
  }

  /** Sanitising works character by character, left to right: a message followed by a
      character is sanitised to the sanitised message followed by that character, or by
      nothing when it is a bracket. So the kept characters keep their order. */
  lemma SanitiseKeepsOrder(message: string, ch: char)
    ensures Without(message + [ch], TerminalNotifierUnsafeChars)
         == Without(message, TerminalNotifierUnsafeChars) + (if ch == '[' || ch == ']' then "" else [ch])
  {
    WithoutAppend(message, [ch], TerminalNotifierUnsafeChars);
    assert [ch][1..] == [];
  }

  /** The `-open` option is present exactly when there is a URL: the command with a URL
      is the command without one followed by `-open "<url>"`. */
  lemma OpenOptionOnlyWithUrl(title: string, subtitle: string, safeMessage: string, sound: string, open: string)
    ensures |open| > 0 ==>
      TerminalNotifierLine(title, subtitle, safeMessage, sound, open)
        == TerminalNotifierLine(title, subtitle, safeMessage, sound, "") + " -open \"" + open + "\""
    ensures |open| == 0 ==>
      TerminalNotifierLine(title, subtitle, safeMessage, sound, open)
        == "terminal-notifier -title \"" + title + "\" -subtitle \"" + subtitle + "\" -message \""
           + safeMessage + "\" -sound \"" + sound + "\""
  {
  }

  /** The sanitised message appears in the terminal-notifier command. */
  lemma TerminalCommandCarriesMessage(title: string, subtitle: string, message: string, sound: string, open: string)
    ensures IsSubstring(Without(message, TerminalNotifierUnsafeChars),
                        TerminalNotifierLine(title, subtitle, Without(message, TerminalNotifierUnsafeChars), sound, open))
  {
    var safe := Without(message, TerminalNotifierUnsafeChars);
    var before := "terminal-notifier " + "-title \"" + title + "\" -subtitle \"" + subtitle + "\" -message \"";
    var after := "\" -sound \"" + sound + "\"" + (if |open| > 0 then " -open \"" + open + "\"" else "");
    assert TerminalNotifierLine(title, subtitle, safe, sound, open) == before + safe + after;
    InMiddleIsSubstring(before, safe, after);
  }

  /** notify-send shows the message verbatim: brackets survive there. */
  lemma NotifySendCarriesMessage(title: string, subtitle: string, message: string)
    ensures IsSubstring(message, NotifySendCommand(title, subtitle, message))
  {
    var before := "notify-send \"" + title + " (" + subtitle + ")\" \"";
    assert NotifySendCommand(title, subtitle, message) == before + message + "\"";
    InMiddleIsSubstring(before, message, "\"");
  }
}
