/**
 * src/notifier.rs: turning fetched GitHub notifications into desktop
 * notifications. The click URL is rebuilt from the API URL; an item is
 * announced unless its identifier (`id` followed by `updated_at`) occurs in
 * the persisted identifier string; every identifier of the batch is saved
 * at the end, unless an announcement failed first.
 *
 * The notification display is an oracle `accepts`: it either shows a
 * notification or fails. A display that fails ends the run through `?`.
 */
module Notifier {
  import opened Prelude
  import opened Strings
  import opened FileOperations

  datatype Subject = Subject(title: string, url: Option<string>)

  /** One element of the JSON array the notifications endpoint returns. */
  datatype Notification = Notification(id: string, subject: Subject, reason: string, updatedAt: string)

  /** What `new_github_notification` hands to the display. */
  datatype Dispatch = Dispatch(title: string, subtitle: string, message: string, open: string)

  /** Indexing `url_parts[len - 4]` with fewer than four segments panics in the source. */
  datatype UrlError = TooFewSegments(url: string)

  datatype RunError =
    | MalformedUrl(urlError: UrlError)
    | DisplayFailed(rejected: Dispatch)
    | SaveFailed(ioError: IoError)

  const NewNotificationTitle := "New Github Notification"
  const ReadIdsFileName := ".gh-notifier-read-notifications"
  const HtmlBase := "https://github.com/"

  // ---------------------------------------------------------------------
  // Click URL

  /** `build_pull_or_issue_url`: `https://github.com/<owner>/<repo>/<issues|pull>/<number>`
      from the fourth-last, third-last and last `/`-segments of the API URL. */
  function BuildPullOrIssueUrl(url: Option<string>): (r: Result<string, UrlError>)
    ensures url == None ==> r == Success("")
    ensures url.Some? ==> (r.Failure? <==> |Split(url.value, '/')| < 4)
    ensures url.Some? && r.Failure? ==> r.error == TooFewSegments(url.value)
  {
    match url
    case None => Success("")
    case Some(u) =>
      var parts := Split(u, '/');
      var n := |parts|;
      if n < 4 then Failure(TooFewSegments(u))
      else Success(HtmlBase + parts[n - 4] + "/" + parts[n - 3] + "/" + UrlKind(parts) + "/" + parts[n - 1])
  }

  /** A rebuilt URL consists of scheme, host, the fourth-last and third-last segments of
      the API URL, the kind, and the last segment. */
  lemma RebuiltUrlSegments(url: string)
    requires BuildPullOrIssueUrl(Some(url)).Success?
    ensures var p := Split(url, '/');
            var n := |p|;
            n >= 4 &&
            Split(BuildPullOrIssueUrl(Some(url)).value, '/')
              == ["https:", "", "github.com", p[n - 4], p[n - 3], UrlKind(p), p[n - 1]]
  {
    var p := Split(url, '/');
    var n := |p|;
    HtmlUrlSegments(p[n - 4], p[n - 3], UrlKind(p), p[n - 1]);
  }

  /** `"issues"` when some segment is exactly `issues`, otherwise `"pull"`. */
  function UrlKind(parts: seq<string>): (kind: string)
  {
    if "issues" in parts then "issues" else "pull"
  }

  lemma UrlKindIff(parts: seq<string>)
    ensures UrlKind(parts) == "issues" || UrlKind(parts) == "pull"
    ensures UrlKind(parts) == "issues" <==> exists k :: 0 <= k < |parts| && parts[k] == "issues"
  {
  }

  /** The rebuilt URL splits back into its scheme, host and the four chosen segments. */
  lemma HtmlUrlSegments(owner: string, repo: string, kind: string, number: string)
    requires '/' !in owner && '/' !in repo && '/' !in kind && '/' !in number
    ensures Split(HtmlBase + owner + "/" + repo + "/" + kind + "/" + number, '/')
         == ["https:", "", "github.com", owner, repo, kind, number]
  {
    assert HtmlBase == "https:" + "/" + "" + "/" + "github.com" + "/";
    SevenSegments("https:", "", "github.com", owner, repo, kind, number);
  }

  lemma SevenSegments(a: string, b: string, c: string, d: string, e: string, f: string, g: string)
    requires '/' !in a && '/' !in b && '/' !in c && '/' !in d && '/' !in e && '/' !in f && '/' !in g
    ensures Split(a + "/" + b + "/" + c + "/" + d + "/" + e + "/" + f + "/" + g, '/') == [a, b, c, d, e, f, g]
  {
    SplitWithoutSeparator(a, '/');
    SplitAppendPiece(a, '/', b);
    SplitAppendPiece(a + "/" + b, '/', c);
    SplitAppendPiece(a + "/" + b + "/" + c, '/', d);
    SplitAppendPiece(a + "/" + b + "/" + c + "/" + d, '/', e);
    SplitAppendPiece(a + "/" + b + "/" + c + "/" + d + "/" + e, '/', f);
    SplitAppendPiece(a + "/" + b + "/" + c + "/" + d + "/" + e + "/" + f, '/', g);
  }

  /** A rebuilt URL is rebuilt to itself: the HTML URL is a fixed point of the rebuilding. */
  lemma HtmlUrlIsFixedPoint(url: string)
    requires BuildPullOrIssueUrl(Some(url)).Success?
    ensures var html := BuildPullOrIssueUrl(Some(url)).value;
            BuildPullOrIssueUrl(Some(html)) == Success(html)
  {
    var p := Split(url, '/');
    var n := |p|;
    var html := BuildPullOrIssueUrl(Some(url)).value;
    var q := Split(html, '/');
    RebuiltUrlSegments(url);
    assert q == ["https:", "", "github.com", p[n - 4], p[n - 3], UrlKind(p), p[n - 1]];
    if "issues" in p {
      assert q[5] == "issues";
    } else {
      assert "issues" !in q;
    }
    assert UrlKind(q) == UrlKind(p);
  }

  /** An issue URL from the API, `https://api.github.com/repos/<o>/<r>/issues/<n>`,
      becomes the issue's page `https://github.com/<o>/<r>/issues/<n>`. */
  lemma IssueApiUrl(owner: string, repo: string, number: string)
    requires '/' !in owner && '/' !in repo && '/' !in number
    ensures BuildPullOrIssueUrl(Some(ApiBase + owner + "/" + repo + "/" + "issues" + "/" + number))
         == Success(HtmlBase + owner + "/" + repo + "/" + "issues" + "/" + number)
  {
    ApiUrlSegments(owner, repo, "issues", number);
  }

  /** A pull-request URL from the API, `.../repos/<o>/<r>/pulls/<n>`, becomes the page
      `https://github.com/<o>/<r>/pull/<n>` unless one of its segments is `issues`. */
  lemma PullApiUrl(owner: string, repo: string, number: string)
    requires '/' !in owner && '/' !in repo && '/' !in number
    requires owner != "issues" && repo != "issues" && number != "issues"
    ensures BuildPullOrIssueUrl(Some(ApiBase + owner + "/" + repo + "/" + "pulls" + "/" + number))
         == Success(HtmlBase + owner + "/" + repo + "/" + "pull" + "/" + number)
  {
    var parts := ["https:", "", "api.github.com", "repos", owner, repo, "pulls", number];
    ApiUrlSegments(owner, repo, "pulls", number);
    assert "issues" !in parts;
  }

  const ApiBase := "https://api.github.com/repos/"

  lemma ApiUrlSegments(owner: string, repo: string, kind: string, number: string)
    requires '/' !in owner && '/' !in repo && '/' !in kind && '/' !in number
    ensures Split(ApiBase + owner + "/" + repo + "/" + kind + "/" + number, '/')
         == ["https:", "", "api.github.com", "repos", owner, repo, kind, number]
  {
    assert ApiBase == "https:" + "/" + "" + "/" + "api.github.com" + "/" + "repos" + "/";
    SevenSegments("https:", "", "api.github.com", "repos", owner, repo, kind);
    SplitAppendPiece(ApiBase + owner + "/" + repo + "/" + kind, '/', number);
  }

  // ---------------------------------------------------------------------
  // Identifiers and the seen test

  /** The deduplication key: `id` followed by `updated_at`. */
  function Identifier(n: Notification): string
  {
    n.id + n.updatedAt
  }

  /** The `new_ids` list: one identifier per fetched notification, in order. */
  function Identifiers(ns: seq<Notification>): (ids: seq<string>)
    ensures |ids| == |ns|
    ensures forall k :: 0 <= k < |ns| ==> ids[k] == Identifier(ns[k])
    decreases |ns|
  {
    if ns == [] then [] else [Identifier(ns[0])] + Identifiers(ns[1..])
  }

  /** `read_ids.contains(&identifier)`: a substring test on the raw file content. */
  predicate AlreadyRead(n: Notification, readIds: string)
  {
    IsSubstring(Identifier(n), readIds)
  }

  /** The notifications of the batch that are announced, in batch order. */
  function Unread(ns: seq<Notification>, readIds: string): seq<Notification>
    decreases |ns|
  {
    if ns == [] then []
    else (if AlreadyRead(ns[0], readIds) then [] else [ns[0]]) + Unread(ns[1..], readIds)
  }

  /** An item is announced iff the seen test rejects it. */
  lemma {:induction false} UnreadMembers(ns: seq<Notification>, readIds: string)
    ensures |Unread(ns, readIds)| <= |ns|
    ensures forall n :: n in Unread(ns, readIds) <==> n in ns && !AlreadyRead(n, readIds)
    decreases |ns|
  {
    if ns != [] {
      UnreadMembers(ns[1..], readIds);
      assert ns == [ns[0]] + ns[1..];
    }
  }

  lemma {:induction false} UnreadAppend(xs: seq<Notification>, ys: seq<Notification>, readIds: string)
    ensures Unread(xs + ys, readIds) == Unread(xs, readIds) + Unread(ys, readIds)
    decreases |xs|
  {
    if xs == [] {
      assert xs + ys == ys;
    } else {
      assert (xs + ys)[1..] == xs[1..] + ys;
      UnreadAppend(xs[1..], ys, readIds);
    }
  }

  /** Unread keeps exactly the items the seen test rejects, in their order. */
  lemma {:induction false} UnreadKeepsOrder(ns: seq<Notification>, readIds: string)
    requires forall k :: 0 <= k < |ns| ==> !AlreadyRead(ns[k], readIds)
    ensures Unread(ns, readIds) == ns
    decreases |ns|
  {
    if ns != [] {
      UnreadKeepsOrder(ns[1..], readIds);
      assert ns == [ns[0]] + ns[1..];
    }
  }

  lemma {:induction false} UnreadAllRead(ns: seq<Notification>, readIds: string)
    requires forall k :: 0 <= k < |ns| ==> AlreadyRead(ns[k], readIds)
    ensures Unread(ns, readIds) == []
    decreases |ns|
  {
    if ns != [] {
      UnreadAllRead(ns[1..], readIds);
    }
  }

  // ---------------------------------------------------------------------
  // Display fields and the announcement plan

  /** `reason.split("_").join(" ")`. */
  function Subtitle(reason: string): (s: string)
    ensures s == Replace(reason, '_', ' ')
    ensures |s| == |reason|
  {
    JoinSplitIsReplace(reason, '_', ' ');
    ReplaceLength(reason, '_', ' ');
    Join(Split(reason, '_'), " ")
  }

  lemma {:induction false} ReplaceLength(s: string, c: char, d: char)
    ensures |Replace(s, c, d)| == |s|
    decreases |s|
  {
    if s != [] {
      ReplaceLength(s[1..], c, d);
    }
  }

  /** A reason without underscores is its own subtitle. */
  lemma SubtitleWithoutUnderscore(reason: string)
    requires '_' !in reason
    ensures Subtitle(reason) == reason
  {
    ReplaceAbsent(reason, '_', ' ');
  }

  /** `review_requested` style reasons: one underscore becomes one space. */
  lemma SubtitleOfTwoWords(first: string, second: string)
    requires '_' !in first && '_' !in second
    ensures Subtitle(first + "_" + second) == first + " " + second
  {
    SplitAppendPiece(first, '_', second);
    SplitWithoutSeparator(first, '_');
    assert Split(first + "_" + second, '_') == [first, second];
    assert [first, second][1..] == [second];
    assert Join([first, second], " ") == first + " " + second;
    assert Subtitle(first + "_" + second) == Join(Split(first + "_" + second, '_'), " ");
  }

  /** The notification built for an item, or the panic of its URL. */
  function ToDispatch(n: Notification): Result<Dispatch, RunError>
  {
    match BuildPullOrIssueUrl(n.subject.url)
    case Failure(e) => Failure(MalformedUrl(e))
    case Success(open) => Success(Dispatch(NewNotificationTitle, Subtitle(n.reason), n.subject.title, open))
  }

  /** `e` is how announcing `n` fails: its URL panics, or the display rejects it. */
  predicate FailsWith(n: Notification, accepts: Dispatch -> bool, e: RunError)
  {
    match ToDispatch(n)
    case Failure(urlError) => e == urlError
    case Success(d) => !accepts(d) && e == DisplayFailed(d)
  }

  /** The notifications shown, and the error if announcing stopped early. */
  datatype Announced = Announced(shown: seq<Dispatch>, failure: Option<RunError>)

  /** Announcing `items` in order until the first one that fails. */
  function Announce(items: seq<Notification>, accepts: Dispatch -> bool): Announced
    decreases |items|
  {
    if items == [] then Announced([], None)
    else
      match ToDispatch(items[0])
      case Failure(e) => Announced([], Some(e))
      case Success(d) =>
        if !accepts(d) then Announced([], Some(DisplayFailed(d)))
        else
          var rest := Announce(items[1..], accepts);
          Announced([d] + rest.shown, rest.failure)
  }

  /** What announcing shows: a prefix of the items' notifications, each accepted; then
      either every item was shown, or the next item is the one that failed. */
  lemma {:induction false} AnnounceShape(items: seq<Notification>, accepts: Dispatch -> bool)
    ensures var a := Announce(items, accepts);
      && |a.shown| <= |items|
      && (forall k :: 0 <= k < |a.shown| ==> ToDispatch(items[k]) == Success(a.shown[k]) && accepts(a.shown[k]))
      && (a.failure.None? ==> |a.shown| == |items|)
      && (a.failure.Some? ==> |a.shown| < |items| && FailsWith(items[|a.shown|], accepts, a.failure.value))
    decreases |items|
  {
    if items != [] {
      AnnounceShape(items[1..], accepts);
    }
  }

  /** Every item is shown iff none fails; then the shown list is the items' notifications. */
  lemma AnnounceSucceedsIff(items: seq<Notification>, accepts: Dispatch -> bool)
    ensures Announce(items, accepts).failure.None? <==>
      forall k :: 0 <= k < |items| ==> ToDispatch(items[k]).Success? && accepts(ToDispatch(items[k]).value)
  {
    var a := Announce(items, accepts);
    AnnounceShape(items, accepts);
    if a.failure.Some? {
      var k := |a.shown|;
      assert !(ToDispatch(items[k]).Success? && accepts(ToDispatch(items[k]).value));
    }
  }

  lemma {:induction false} AnnounceAppend(xs: seq<Notification>, ys: seq<Notification>, accepts: Dispatch -> bool)
    ensures Announce(xs + ys, accepts) ==
      var a := Announce(xs, accepts);
      if a.failure.Some? then a
      else Announced(a.shown + Announce(ys, accepts).shown, Announce(ys, accepts).failure)
    decreases |xs|
  {
    if xs == [] {
      assert xs + ys == ys;
    } else {
      assert (xs + ys)[0] == xs[0];
      assert (xs + ys)[1..] == xs[1..] + ys;
      AnnounceAppend(xs[1..], ys, accepts);
    }
  }

  // ---------------------------------------------------------------------
  // notify_all

  /** `notify_all`: reads the identifier file, announces every unread notification in
      order, and saves the identifiers of the whole batch, unless an announcement
      failed first, in which case the file is left as `get_persistence_file_path` left it. */
  method NotifyAll(fs: FileSystem, home: string, ns: seq<Notification>, accepts: Dispatch -> bool, writeOk: bool)
    returns (r: Outcome<RunError>, shown: seq<Dispatch>)
    modifies fs
    ensures
      var path := PersistenceFilePath(home, ReadIdsFileName);
      var plan := Announce(Unread(ns, old(fs.GetLocalIds(path))), accepts);
      && shown == plan.shown
      && (plan.failure.Some? ==>
            r == Fail(plan.failure.value) && fs.files == CreateIfAbsent(old(fs.files), path))
      && (plan.failure.None? ==>
            fs.files == Saved(CreateIfAbsent(old(fs.files), path), path, Identifiers(ns), writeOk)
            && r == (if ns != [] && !writeOk then Fail(SaveFailed(WriteFailed(path))) else Pass))
  {
    var path := fs.GetPersistenceFilePath(home, ReadIdsFileName);
    var readIds := fs.GetLocalIds(path);
    var newIds, failure;
    newIds, shown, failure := AnnounceBatch(ns, readIds, accepts);
    if failure.Some? {
      r := Fail(failure.value);
      return;
    }
    var saved := fs.SaveLocalIds(newIds, path, writeOk);
    r := if saved.Fail? then Fail(SaveFailed(saved.error)) else Pass;
  }

  /** The loop of `notify_all`: builds each identifier, skips the seen items, and shows
      the others in order, stopping at the first URL panic or display failure. */
  method AnnounceBatch(ns: seq<Notification>, readIds: string, accepts: Dispatch -> bool)
    returns (newIds: seq<string>, shown: seq<Dispatch>, failure: Option<RunError>)
    ensures Announced(shown, failure) == Announce(Unread(ns, readIds), accepts)
    ensures failure.None? ==> newIds == Identifiers(ns)
  {
    newIds := [];
    shown := [];
    failure := None;
    for i := 0 to |ns|
      invariant newIds == Identifiers(ns[..i])
      invariant Announce(Unread(ns[..i], readIds), accepts) == Announced(shown, None)
    {
      var notification := ns[i];
      var identifier := Identifier(notification);
      newIds := newIds + [identifier];
      assert ns[..i + 1] == ns[..i] + [notification];
      AnnounceStep(ns, i, readIds, accepts, shown);
      if AlreadyRead(notification, readIds) {
        continue;
      }
      var message := notification.subject.title;
      var onclickUrl := BuildPullOrIssueUrl(notification.subject.url);
      if onclickUrl.Failure? {
        failure := Some(MalformedUrl(onclickUrl.error));
        StopsWholeRun(ns, i, readIds, accepts);
        return;
      }
      var subtitle := Subtitle(notification.reason);
      var d := Dispatch(NewNotificationTitle, subtitle, message, onclickUrl.value);
      assert ToDispatch(notification) == Success(d);
      if !accepts(d) {
        failure := Some(DisplayFailed(d));
        StopsWholeRun(ns, i, readIds, accepts);
        return;
      }
      shown := shown + [d];
    }
    assert ns[..|ns|] == ns;
  }

  /** Announcing one item: it fails, or it is shown. */
  lemma AnnounceSingle(n: Notification, accepts: Dispatch -> bool)
    ensures Announce([n], accepts) ==
      match ToDispatch(n)
      case Failure(e) => Announced([], Some(e))
      case Success(d) => if accepts(d) then Announced([d], None) else Announced([], Some(DisplayFailed(d)))
  {
    assert [n][1..] == [];
  }

  /** One more item of the batch: skipped when seen, otherwise announced after the others. */
  lemma AnnounceStep(ns: seq<Notification>, i: nat, readIds: string, accepts: Dispatch -> bool, shown: seq<Dispatch>)
    requires i < |ns|
    requires Announce(Unread(ns[..i], readIds), accepts) == Announced(shown, None)
    ensures AlreadyRead(ns[i], readIds) ==>
      Announce(Unread(ns[..i + 1], readIds), accepts) == Announced(shown, None)
    ensures !AlreadyRead(ns[i], readIds) ==>
      Announce(Unread(ns[..i + 1], readIds), accepts) ==
        match ToDispatch(ns[i])
        case Failure(e) => Announced(shown, Some(e))
        case Success(d) => if accepts(d) then Announced(shown + [d], None) else Announced(shown, Some(DisplayFailed(d)))
  {
    assert ns[..i + 1] == ns[..i] + [ns[i]];
    UnreadAppend(ns[..i], [ns[i]], readIds);
    assert [ns[i]][1..] == [];
    if AlreadyRead(ns[i], readIds) {
      assert Unread([ns[i]], readIds) == [];
      assert Unread(ns[..i + 1], readIds) == Unread(ns[..i], readIds);
    } else {
      assert Unread([ns[i]], readIds) == [ns[i]];
      AnnounceAppend(Unread(ns[..i], readIds), [ns[i]], accepts);
      AnnounceSingle(ns[i], accepts);
    }
  }

  /** A failure among the first `i + 1` items is the failure of the whole batch. */
  lemma StopsWholeRun(ns: seq<Notification>, i: nat, readIds: string, accepts: Dispatch -> bool)
    requires i < |ns|
    requires Announce(Unread(ns[..i + 1], readIds), accepts).failure.Some?
    ensures Announce(Unread(ns, readIds), accepts) == Announce(Unread(ns[..i + 1], readIds), accepts)
  {
    TakeDrop(ns, i + 1);
    UnreadStopsEarly(ns[..i + 1], ns[i + 1..], readIds, accepts);
  }

  lemma TakeDrop<T>(s: seq<T>, i: nat)
    requires i <= |s|
    ensures s[..i] + s[i..] == s
  {
  }

  /** A failure among the unread items of `xs` is the failure of `xs + ys`. */
  lemma UnreadStopsEarly(xs: seq<Notification>, ys: seq<Notification>, readIds: string, accepts: Dispatch -> bool)
    requires Announce(Unread(xs, readIds), accepts).failure.Some?
    ensures Announce(Unread(xs + ys, readIds), accepts) == Announce(Unread(xs, readIds), accepts)
  {
    UnreadAppend(xs, ys, readIds);
    AnnounceStopsEarly(Unread(xs, readIds), Unread(ys, readIds), accepts);
  }

  /** Once announcing fails, later items change nothing. */
  lemma {:induction false} AnnounceStopsEarly(xs: seq<Notification>, ys: seq<Notification>, accepts: Dispatch -> bool)
    requires Announce(xs, accepts).failure.Some?
    ensures Announce(xs + ys, accepts) == Announce(xs, accepts)
    decreases |xs|
  {
    assert xs != [];
    assert (xs + ys)[0] == xs[0];
    assert (xs + ys)[1..] == xs[1..] + ys;
    match ToDispatch(xs[0])
    case Failure(_) =>
    case Success(d) =>
      if accepts(d) {
        AnnounceStopsEarly(xs[1..], ys, accepts);
      }
  }

  // ---------------------------------------------------------------------
  // Properties of a run

  /** After a successful save, the same batch read back from the file is all seen:
      running again announces nothing. */
  lemma RerunIsQuiet(files: map<string, string>, path: string, ns: seq<Notification>, accepts: Dispatch -> bool)
    ensures var after := Saved(files, path, Identifiers(ns), true);
            var readIds := if path in after then after[path] else "";
            Unread(ns, readIds) == [] && Announce(Unread(ns, readIds), accepts) == Announced([], None)
  {
    var ids := Identifiers(ns);
    var after := Saved(files, path, ids, true);
    var readIds := if path in after then after[path] else "";
    if ns != [] {
      forall k | 0 <= k < |ns|
        ensures AlreadyRead(ns[k], readIds)
      {
        SerializedContainsEveryId(ids, k);
      }
    }
    UnreadAllRead(ns, readIds);
  }

  /** With no identifier file content, every notification with a non-empty identifier is new. */
  lemma FirstRunAnnouncesAll(ns: seq<Notification>)
    requires forall k :: 0 <= k < |ns| ==> Identifier(ns[k]) != ""
    ensures Unread(ns, "") == ns
  {
    forall k | 0 <= k < |ns|
      ensures !AlreadyRead(ns[k], "")
    {
      SubstringOfEmpty(Identifier(ns[k]));
    }
    UnreadKeepsOrder(ns, "");
  }

  /** A saved identifier is always seen again (the seen test never re-announces a saved item). */
  lemma SavedIsSeen(ns: seq<Notification>, k: nat)
    requires k < |ns|
    ensures Serialize(Identifiers(ns)).Some?
    ensures AlreadyRead(ns[k], Serialize(Identifiers(ns)).value)
  {
    SerializedContainsEveryId(Identifiers(ns), k);
  }

  /** The same `id` with a different `updated_at` of the same length is announced again
      after the first one was saved. */
  lemma UpdatedNotificationIsNew(first: Notification, again: Notification)
    requires again.id == first.id && again.updatedAt != first.updatedAt
    requires |again.updatedAt| == |first.updatedAt|
    ensures Unread([again], Serialize(Identifiers([first])).value) == [again]
  {
    assert [first][1..] == [];
    var readIds := Identifier(first);
    assert Identifiers([first]) == [readIds];
    assert Identifier(again)[|first.id|..] == again.updatedAt;
    assert readIds[|first.id|..] == first.updatedAt;
    assert Identifier(again) != readIds;
    assert readIds[0..|readIds|] == readIds;
    assert !AlreadyRead(again, readIds);
    assert [again][1..] == [];
  }

  /** An update is hidden when another saved identifier contains the new identifier:
      `42` updated to `T` is not announced after the batch `142`/`T`, `42`/`U` was saved,
      because `42T` occurs inside `142T`. */
  lemma UpdateHiddenByAnotherSavedIdentifier()
    ensures var other := Notification("142", Subject("", None), "", "T");
            var first := Notification("42", Subject("", None), "", "U");
            var again := Notification("42", Subject("", None), "", "T");
            && again.id == first.id && again.updatedAt != first.updatedAt
            && |again.updatedAt| == |first.updatedAt|
            && Unread([again], Serialize(Identifiers([other, first])).value) == []
  {
    var other := Notification("142", Subject("", None), "", "T");
    var first := Notification("42", Subject("", None), "", "U");
    var again := Notification("42", Subject("", None), "", "T");
    assert [other, first][1..] == [first];
    assert [first][1..] == [];
    assert Identifier(other) == "142T" && Identifier(first) == "42U";
    assert Identifiers([first]) == ["42U"];
    assert Identifiers([other, first]) == ["142T", "42U"];
    assert ["142T", "42U"][1..] == ["42U"];
    var readIds := Join(["142T", "42U"], ",");
    assert readIds == "142T,42U";
    assert readIds[1..4] == "42T";
    assert OccursAt(Identifier(again), readIds, 1);
    assert AlreadyRead(again, readIds);
    assert [again][1..] == [];
  }

  /** The seen test is a substring test: an identifier that is a proper suffix of a saved
      identifier counts as seen, although it is not one of the saved identifiers. */
  lemma SubstringSeenTestIsLooserThanMembership(saved: Notification, other: Notification)
    requires saved.updatedAt == other.updatedAt
    requires |saved.id| > |other.id| && saved.id[|saved.id| - |other.id|..] == other.id
    requires ',' !in Identifier(saved)
    ensures var readIds := Serialize(Identifiers([saved])).value;
            AlreadyRead(other, readIds) && Identifier(other) !in Split(readIds, ',')
  {
    assert [saved][1..] == [];
    var readIds := Identifier(saved);
    assert Identifiers([saved]) == [readIds];
    var offset := |saved.id| - |other.id|;
    assert readIds[offset..offset + |Identifier(other)|] == Identifier(other);
    assert OccursAt(Identifier(other), readIds, offset);
    SplitWithoutSeparator(readIds, ',');
  }
}
