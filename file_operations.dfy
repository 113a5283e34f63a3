/**
 * The identifier file (src/file_operations.rs). The filesystem is a map
 * from path to content; a path that is not in the map is a file that does
 * not exist, so reading it fails. Whether a write succeeds is decided by
 * the caller (`writeOk`): the model does not know why a real write fails.
 */
module FileOperations {
  import opened Prelude
  import opened Strings

  /** The I/O failure `save_local_ids` propagates with `?`. */
  datatype IoError = WriteFailed(path: string)

  /** The path `get_persistence_file_path` builds: `$HOME`, a slash, the file name. */
  function PersistenceFilePath(home: string, filename: string): (path: string)
    ensures |path| == |home| + 1 + |filename|
    ensures path[..|home|] == home && path[|home|] == '/' && path[|home| + 1..] == filename
  {
    home + "/" + filename
  }

  /** The filesystem after `File::create` on a path that may already exist. */
  function CreateIfAbsent(files: map<string, string>, path: string): map<string, string>
  {
    if path in files then files else files[path := ""]
  }

  /** What `save_local_ids` writes: nothing for no ids, the id itself for one,
      the ids joined by commas for more. */
  function Serialize(ids: seq<string>): Option<string>
  {
    if |ids| == 1 then Some(ids[0])
    else if |ids| > 1 then Some(Join(ids, ","))
    else None
  }

  /** The filesystem after `save_local_ids(ids, path)`. A failed write leaves it unchanged. */
  function Saved(files: map<string, string>, path: string, ids: seq<string>, writeOk: bool): map<string, string>
  {
    match Serialize(ids)
    case None => files
    case Some(content) => if writeOk then files[path := content] else files
  }

  /** The two writing branches agree: for every non-empty list the content is the comma join. */
  lemma SerializeIsJoin(ids: seq<string>)
    requires ids != []
    ensures Serialize(ids) == Some(Join(ids, ","))
  {
  }

  /** Every saved identifier occurs in the written content. */
  lemma SerializedContainsEveryId(ids: seq<string>, k: nat)
    requires k < |ids|
    ensures Serialize(ids).Some? && IsSubstring(ids[k], Serialize(ids).value)
  {
    SerializeIsJoin(ids);
    PieceIsSubstringOfJoin(ids, ",", k);
  }

  /** Identifiers without commas can be read back by splitting the content on commas. */
  lemma SerializeRoundTrip(ids: seq<string>)
    requires ids != []
    requires forall k :: 0 <= k < |ids| ==> ',' !in ids[k]
    ensures Serialize(ids).Some? && Split(Serialize(ids).value, ',') == ids
  {
    SerializeIsJoin(ids);
    JoinSplitRoundTrip(ids, ',');
  }

  class FileSystem {
    var files: map<string, string>

    constructor (files: map<string, string>)
      ensures this.files == files
    {
      this.files := files;
    }

    /** `get_persistence_file_path(filename)`: builds `$HOME/filename` and creates
        the file, empty, when it does not exist yet. */
    method GetPersistenceFilePath(home: string, filename: string) returns (path: string)
      modifies this
      ensures path == home + "/" + filename
      ensures path in files && files[path] == (if path in old(files) then old(files)[path] else "")
      ensures forall p :: p != path ==> (p in files <==> p in old(files))
      ensures forall p :: p != path && p in files ==> files[p] == old(files)[p]
      ensures files == CreateIfAbsent(old(files), path)
    {
      path := home;
      path := path + ("/" + filename);
      if path !in files {
        files := files[path := ""];
      }
    }

    /** `get_local_ids(path)`: the whole content of the file, or `""` when it cannot be read. */
    function GetLocalIds(path: string): (ids: string)
      reads this
      ensures path in files ==> ids == files[path]
      ensures path !in files ==> ids == ""
    {
      if path in files then files[path] else ""
    }

    /** `fs::write(path, content)`. */
    method Write(path: string, content: string, writeOk: bool) returns (r: Outcome<IoError>)
      modifies this
      ensures writeOk ==> r == Pass && files == old(files)[path := content]
      ensures !writeOk ==> r == Fail(WriteFailed(path)) && files == old(files)
    {
      if writeOk {
        files := files[path := content];
        r := Pass;
      } else {
        r := Fail(WriteFailed(path));
      }
    }

    /** `save_local_ids(ids, path)`: no ids writes nothing and succeeds; one id is
        written as it is; more are written joined by commas. */
    method SaveLocalIds(ids: seq<string>, path: string, writeOk: bool) returns (r: Outcome<IoError>)
      modifies this
      ensures ids == [] ==> r == Pass && files == old(files)
      ensures |ids| == 1 && writeOk ==> r == Pass && files == old(files)[path := ids[0]]
      ensures |ids| > 1 && writeOk ==> r == Pass && files == old(files)[path := Join(ids, ",")]
      ensures ids != [] && !writeOk ==> r == Fail(WriteFailed(path)) && files == old(files)
      ensures files == Saved(old(files), path, ids, writeOk)
    {
      var idsLen := |ids|;
      if idsLen == 1 {
        r := Write(path, ids[0], writeOk);
      } else if idsLen > 1 {
        var idsToWrite := Join(ids, ",");
        r := Write(path, idsToWrite, writeOk);
      } else {
        r := Pass;
      }
    }
  }
}
