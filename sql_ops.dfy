/** The operations of the SQL-backed filesystem as functions of the record
    table: each query gives its answer, each update gives the new table and
    the error it reports (None for success). */
module SqlOps {
  import opened Wrappers
  import opened Strings
  import opened Consts
  import opened Sorting
  import opened Base64
  import opened Decimal
  import opened SqlPaths
  import opened Records
  import opened DeleteProps

  function NewDirectory(id: nat, parentId: int, name: string, path: string): Record {
    Record(id, parentId, name, path, Directory, "", "", "", false)
  }

  function NewFile(id: nat, parentId: int, name: string, path: string,
                   contents: string, size: string, extension: string): Record {
    Record(id, parentId, name, path, File, contents, size, extension, false)
  }

  /** Exists: some live record sits at the rooted form of the path. */
  function Exists(t: Table, path: string): (r: bool)
    ensures r <==> exists i :: Live(t, i) && t[i].path == FixPath(path)
  {
    FindByPath(t, FixPath(path)).Some?
  }

  /** A path and its rooted form exist together. */
  lemma ExistsRooted(t: Table, path: string)
    ensures Exists(t, FixPath(path)) == Exists(t, path)
  {
    FixPathIdempotent(path);
  }

  /** findParentDirectoryFromPath: the first live record (of either kind) at
      the parent lookup path; None when there is none. */
  function FindParentDirectory(t: Table, path: string): (r: Option<nat>)
    ensures r.Some? ==> Live(t, r.value) && t[r.value].path == ParentLookupPath(path)
    ensures r.None? <==> forall i :: Live(t, i) ==> t[i].path != ParentLookupPath(path)
  {
    FindByPath(t, ParentLookupPath(path))
  }

  /** The path under which a new record below `parent` is stored. */
  function ChildPath(t: Table, parent: nat, name: string): string
    requires parent < |t|
  {
    t[parent].path + PathSeparator + name
  }

  /** DirectoryCreate: refuses a path that exists or whose parent is missing;
      otherwise appends a live directory named after the last segment, below
      the parent and stored at the parent's path plus that name. */
  function DirectoryCreate(t: Table, path: string): (r: (Table, Option<string>))
    ensures Exists(t, path) ==> r == (t, Some("directory already exists"))
    ensures !Exists(t, path) && FindParentDirectory(t, path).None? ==>
      r == (t, Some("parent directory not found"))
    ensures r.1.None? <==> !Exists(t, path) && FindParentDirectory(t, path).Some?
    ensures r.1.None? ==>
      var d := FindParentDirectory(t, path).value;
      var name := FindFileName(path);
      |r.0| == |t| + 1 && r.0[..|t|] == t &&
      r.0[|t|] == NewDirectory(|t|, d, name, ChildPath(t, d, name))
  {
    if Exists(t, path) then (t, Some("directory already exists"))
    else match FindParentDirectory(t, path)
      case None => (t, Some("parent directory not found"))
      case Some(d) =>
        var name := FindFileName(path);
        (t + [NewDirectory(|t|, d, name, ChildPath(t, d, name))], None)
  }

  /** Appending a record below a live record, at that record's path plus its
      name, keeps the table valid. */
  lemma AppendKeepsValid(t: Table, rec: Record)
    requires Valid(t) && rec.id == |t| && 0 <= rec.parentId < |t|
    requires rec.path == ChildPath(t, rec.parentId, rec.name)
    ensures Valid(t + [rec])
  {
  }

  /** Appending a live record at a fresh path below a live directory keeps a
      tidy table tidy. */
  lemma AppendKeepsTidy(t: Table, rec: Record)
    requires Valid(t) && Tidy(t) && rec.id == |t|
    requires Live(t, rec.parentId) && t[rec.parentId].kind == Directory
    requires forall i :: Live(t, i) ==> t[i].path != rec.path
    ensures Tidy(t + [rec])
  {
    var u := t + [rec];
    forall i, j | Live(u, i) && Live(u, j) && u[i].path == u[j].path ensures i == j {
      if i < |t| && j < |t| {
        assert Live(t, i) && Live(t, j);
      }
    }
  }

  lemma DirectoryCreateKeepsValid(t: Table, path: string)
    requires Valid(t)
    ensures Valid(DirectoryCreate(t, path).0)
  {
    if DirectoryCreate(t, path).1.None? {
      var d := FindParentDirectory(t, path).value;
      AppendKeepsValid(t, NewDirectory(|t|, d, FindFileName(path), ChildPath(t, d, FindFileName(path))));
    }
  }

  /** A directory created where its rooted path is the stored path can be
      found by Exists afterwards. */
  lemma DirectoryCreateThenExists(t: Table, path: string)
    requires DirectoryCreate(t, path).1.None?
    requires var d := FindParentDirectory(t, path).value;
      ChildPath(t, d, FindFileName(path)) == FixPath(path)
    ensures Exists(DirectoryCreate(t, path).0, path)
  {
    var u := DirectoryCreate(t, path).0;
    assert Live(u, |t|) && u[|t|].path == FixPath(path);
  }

  /** The file record FilePut appends below parent `d`. */
  function PutRecord(t: Table, d: nat, path: string, content: seq<byte>): Record
    requires d < |t|
  {
    var name := FindFileName(path);
    NewFile(|t|, d, name, ChildPath(t, d, name), Encode(content), NatToString(|content|), FindExtension(path))
  }

  /** FilePut: refuses a path whose parent is missing; otherwise appends a
      live file record with the base 64 contents and the decimal length. An
      existing record at the same path is left in place. */
  function FilePut(t: Table, path: string, content: seq<byte>): (r: (Table, Option<string>))
    ensures FindParentDirectory(t, path).None? ==> r == (t, Some("parent directory not found"))
    ensures FindParentDirectory(t, path).Some? ==>
      var d := FindParentDirectory(t, path).value;
      r.1.None? && |r.0| == |t| + 1 && r.0[..|t|] == t && r.0[|t|] == PutRecord(t, d, path, content)
  {
    match FindParentDirectory(t, path)
    case None => (t, Some("parent directory not found"))
    case Some(d) => (t + [PutRecord(t, d, path, content)], None)
  }

  lemma FilePutKeepsValid(t: Table, path: string, content: seq<byte>)
    requires Valid(t)
    ensures Valid(FilePut(t, path, content).0)
  {
    if FindParentDirectory(t, path).Some? {
      AppendKeepsValid(t, PutRecord(t, FindParentDirectory(t, path).value, path, content));
    }
  }

  /** FileRead: "file not found" when no live record is at the path (taken as
      given), otherwise the base 64 decoding of its contents. */
  function FileRead(t: Table, path: string): (r: Result<seq<byte>>)
    ensures FindByPath(t, path).None? ==> r == Err("file not found")
    ensures FindByPath(t, path).Some? ==> r == Decode(t[FindByPath(t, path).value].contents)
  {
    match FindByPath(t, path)
    case None => Err("file not found")
    case Some(i) => Decode(t[i].contents)
  }

  /** FileSize and DirectorySize: the stored size string read as a signed
      64-bit decimal, 0 for the empty string, -1 and the parse error
      otherwise. The record must exist. */
  function RecordSize(t: Table, path: string): (r: (int, Option<string>))
    requires FindByPath(t, path).Some?
    ensures var s := t[FindByPath(t, path).value].size;
      && (s == "" ==> r == (0, None))
      && (s != "" && ParseInt(s).Ok? ==> r == (ParseInt(s).value, None))
      && (s != "" && ParseInt(s).Err? ==> r == (-1, Some(ParseInt(s).error)))
    ensures r.1.None? ==> MinInt64 <= r.0 <= MaxInt64
  {
    var s := t[FindByPath(t, path).value].size;
    if s == "" then (0, None)
    else match ParseInt(s)
      case Ok(v) => (v, None)
      case Err(e) => (-1, Some(e))
  }

  /** Whatever FilePut stores can be read back at the stored path, and its
      size is the content length, provided no live record was already there. */
  lemma FilePutThenRead(t: Table, path: string, content: seq<byte>)
    requires FindParentDirectory(t, path).Some?
    requires |content| <= MaxInt64
    requires var rec := PutRecord(t, FindParentDirectory(t, path).value, path, content);
      forall i :: Live(t, i) ==> t[i].path != rec.path
    ensures var u := FilePut(t, path, content).0;
      var stored := u[|t|].path;
      FileRead(u, stored) == Ok(content) && RecordSize(u, stored) == (|content|, None)
  {
    var rec := PutRecord(t, FindParentDirectory(t, path).value, path, content);
    var u := FilePut(t, path, content).0;
    assert u == t + [rec];
    FindAppended(t, rec);
    DecodeEncode(content);
    ParseNatToString(|content|);
    assert FileRead(u, rec.path) == Decode(rec.contents);
    assert rec.size != "";
  }

  /** A live record appended at a path no live record has is what a lookup
      of that path finds. */
  lemma FindAppended(t: Table, rec: Record)
    requires !rec.deleted && forall i :: Live(t, i) ==> t[i].path != rec.path
    ensures FindByPath(t + [rec], rec.path) == Some(|t|)
  {
    var u := t + [rec];
    forall k | 0 <= k < |t| ensures !(Live(u, k) && u[k].path == rec.path) {
      assert u[k] == t[k];
    }
    assert Live(u, |t|) && u[|t|].path == rec.path;
  }

  /** FileUrl and DirectoryUrl: the stored path, after the base URL when one
      is set. The record must exist. */
  function RecordUrl(url: string, t: Table, path: string): (r: string)
    requires FindByPath(t, path).Some?
    ensures url == "" ==> r == path
    ensures url != "" ==> r == url + path
  {
    var stored := t[FindByPath(t, path).value].path;
    if url != "" then url + stored else stored
  }

  /** DirectoryCopy never copies: it reports a missing origin, an origin that
      is not a directory, or that copying is not implemented. */
  function DirectoryCopy(t: Table, origin: string, target: string): (r: string)
    ensures FindByPath(t, origin).None? ==> r == "path not found"
    ensures FindByPath(t, origin).Some? && t[FindByPath(t, origin).value].kind == File ==>
      r == "not a directory"
    ensures FindByPath(t, origin).Some? && t[FindByPath(t, origin).value].kind == Directory ==>
      r == "not implemented"
  {
    match FindByPath(t, origin)
    case None => "path not found"
    case Some(i) => if t[i].kind != Directory then "not a directory" else "not implemented"
  }

  /** The live file found at `origin` for a copy, if any. */
  predicate CopyableFile(t: Table, origin: string) {
    FindByPath(t, origin).Some? && t[FindByPath(t, origin).value].kind == File
  }

  /** The record FileCopy appends: the origin's name, contents, size and
      extension, below the target's parent directory. */
  function CopyRecord(t: Table, o: nat, d: nat): Record
    requires o < |t| && d < |t|
  {
    NewFile(|t|, d, t[o].name, ChildPath(t, d, t[o].name), t[o].contents, t[o].size, t[o].extension)
  }

  /** FileCopy: "path not found" and "not a file" for a bad origin; otherwise
      a new file record below the target's parent, named like the origin.
      A missing target parent is a nil dereference in the original and is
      therefore excluded. */
  function FileCopy(t: Table, origin: string, target: string): (r: (Table, Option<string>))
    requires CopyableFile(t, origin) ==> FindParentDirectory(t, target).Some?
    ensures FindByPath(t, origin).None? ==> r == (t, Some("path not found"))
    ensures FindByPath(t, origin).Some? && !CopyableFile(t, origin) ==> r == (t, Some("not a file"))
    ensures CopyableFile(t, origin) ==>
      r.1.None? && |r.0| == |t| + 1 && r.0[..|t|] == t &&
      r.0[|t|] == CopyRecord(t, FindByPath(t, origin).value, FindParentDirectory(t, target).value)
  {
    match FindByPath(t, origin)
    case None => (t, Some("path not found"))
    case Some(o) =>
      if t[o].kind != File then (t, Some("not a file"))
      else (t + [CopyRecord(t, o, FindParentDirectory(t, target).value)], None)
  }

  lemma FileCopyKeepsValid(t: Table, origin: string, target: string)
    requires Valid(t)
    requires CopyableFile(t, origin) ==> FindParentDirectory(t, target).Some?
    ensures Valid(FileCopy(t, origin, target).0)
  {
    if CopyableFile(t, origin) {
      AppendKeepsValid(t, CopyRecord(t, FindByPath(t, origin).value, FindParentDirectory(t, target).value));
    }
  }

  /** The copy reads back as the origin, provided no live record was already
      at its stored path. */
  lemma FileCopyThenRead(t: Table, origin: string, target: string)
    requires CopyableFile(t, origin) && FindParentDirectory(t, target).Some?
    requires var rec := CopyRecord(t, FindByPath(t, origin).value, FindParentDirectory(t, target).value);
      forall i :: Live(t, i) ==> t[i].path != rec.path
    ensures var u := FileCopy(t, origin, target).0;
      FileRead(u, u[|t|].path) == FileRead(t, origin)
  {
    var rec := CopyRecord(t, FindByPath(t, origin).value, FindParentDirectory(t, target).value);
    var u := FileCopy(t, origin, target).0;
    assert u == t + [rec];
    FindAppended(t, rec);
    assert FindByPath(u, origin) == FindByPath(t, origin) by {
      var o := FindByPath(t, origin).value;
      assert u[o] == t[o];
      forall k | 0 <= k < o ensures !(Live(u, k) && u[k].path == origin) {
        assert u[k] == t[k];
      }
    }
  }

  /** The record Move writes back: re-parented, renamed after the target's
      last segment and stored below the target's parent. */
  function MovedRecord(t: Table, o: nat, d: nat, target: string): Record
    requires o < |t| && d < |t|
  {
    var name := FindFileName(target);
    t[o].(parentId := d, name := name, path := ChildPath(t, d, name))
  }

  /** Move: refuses equal paths, a missing origin and a missing target parent;
      otherwise updates the origin record in place and nothing else. The
      stored paths of records below a moved directory are not rewritten. */
  function Move(t: Table, origin: string, target: string): (r: (Table, Option<string>))
    ensures origin == target ==> r == (t, Some("origin and target paths are the same"))
    ensures origin != target && FindByPath(t, origin).None? ==>
      r == (t, Some("origin file or folder path not found"))
    ensures origin != target && FindByPath(t, origin).Some? && FindParentDirectory(t, target).None? ==>
      r == (t, Some("target directory not found"))
    ensures r.1.None? <==>
      origin != target && FindByPath(t, origin).Some? && FindParentDirectory(t, target).Some?
    ensures r.1.None? ==>
      var o := FindByPath(t, origin).value;
      r.0 == t[o := MovedRecord(t, o, FindParentDirectory(t, target).value, target)]
  {
    if origin == target then (t, Some("origin and target paths are the same"))
    else match FindByPath(t, origin)
      case None => (t, Some("origin file or folder path not found"))
      case Some(o) =>
        match FindParentDirectory(t, target)
        case None => (t, Some("target directory not found"))
        case Some(d) => (t[o := MovedRecord(t, o, d, target)], None)
  }

  /** A live record of `t` has `o` as its parent. */
  ghost predicate HasLiveChild(t: Table, o: nat) {
    exists j :: Live(t, j) && t[j].parentId == o
  }

  /** Replacing row `o` by a record below another live row, at that row's
      path plus its name, keeps the table valid when `o` has no live child. */
  lemma UpdateKeepsValid(t: Table, o: nat, rec: Record)
    requires Valid(t) && o < |t| && rec.id == o && !HasLiveChild(t, o)
    requires 0 <= rec.parentId < |t| && rec.parentId != o
    requires rec.path == ChildPath(t, rec.parentId, rec.name)
    ensures Valid(t[o := rec])
  {
    var u := t[o := rec];
    forall i | Live(u, i) && u[i].parentId != NoParent
      ensures 0 <= u[i].parentId < |u| && u[i].path == u[u[i].parentId].path + PathSeparator + u[i].name
    {
      if i != o {
        assert u[i] == t[i] && Live(t, i);
      }
    }
  }

  /** Moving a record with no live children to a different directory keeps
      the table valid. */
  lemma MoveKeepsValid(t: Table, origin: string, target: string)
    requires Valid(t) && Move(t, origin, target).1.None?
    requires !HasLiveChild(t, FindByPath(t, origin).value)
    requires FindParentDirectory(t, target) != FindByPath(t, origin)
    ensures Valid(Move(t, origin, target).0)
  {
    var o := FindByPath(t, origin).value;
    var d := FindParentDirectory(t, target).value;
    UpdateKeepsValid(t, o, MovedRecord(t, o, d, target));
  }

  lemma SuffixCancel(a: string, b: string, s: string)
    requires a + s == b + s
    ensures a == b
  {
    assert a == (a + s)[..|a|];
  }

  /** Giving a row with a live child a new stored path breaks validity. */
  lemma UpdateStalesChild(t: Table, o: nat, rec: Record, c: nat)
    requires Valid(t) && o < |t| && Live(t, c) && t[c].parentId == o && c != o
    requires rec.path != t[o].path
    ensures !Valid(t[o := rec])
  {
    var u := t[o := rec];
    assert u[c] == t[c];
    if Valid(u) {
      assert rec.path + PathSeparator + t[c].name == rec.path + (PathSeparator + t[c].name);
      assert t[o].path + PathSeparator + t[c].name == t[o].path + (PathSeparator + t[c].name);
      SuffixCancel(rec.path, t[o].path, PathSeparator + t[c].name);
      assert false;
    }
  }

  /** Moving a directory that has a live child to a new stored path leaves
      that child's stored path stale: the table is no longer valid. */
  lemma MoveStalesChildren(t: Table, origin: string, target: string, c: nat)
    requires Valid(t) && Move(t, origin, target).1.None?
    requires var o := FindByPath(t, origin).value;
      Live(t, c) && t[c].parentId == o && c != o &&
      MovedRecord(t, o, FindParentDirectory(t, target).value, target).path != t[o].path
    ensures !Valid(Move(t, origin, target).0)
  {
    var o := FindByPath(t, origin).value;
    var d := FindParentDirectory(t, target).value;
    UpdateStalesChild(t, o, MovedRecord(t, o, d, target), c);
  }

  /** The loop of FileDelete over `paths`: a missing path is skipped, a
      directory is deleted recursively (its error ends the loop), and the
      first file is soft-deleted and then reported as "not a file or
      directory", which ends the loop too. */
  function DeletePaths(t: Table, paths: seq<string>, bound: nat): (r: (Table, Option<string>))
    requires Valid(t) && Bounded(t, bound)
    ensures FlagsOnly(t, r.0)
    decreases |paths|
  {
    if paths == [] then (t, None)
    else match FindByPath(t, paths[0])
      case None => DeletePaths(t, paths[1..], bound)
      case Some(x) =>
        if t[x].kind == Directory then
          var (t1, err) := DeleteTree(t, t[x].path, bound);
          if err.Some? then (t1, err)
          else
            FlagsOnlyKeeps(t, t1, bound);
            var r := DeletePaths(t1, paths[1..], bound);
            FlagsOnlyTransitive(t, t1, r.0);
            r
        else
          SoftDeleteFlagsOnly(t, x);
          (SoftDelete(t, x), Some("not a file or directory: " + t[x].path))
  }

  /** FileDelete on the whole table. */
  function FileDelete(t: Table, paths: seq<string>): (r: (Table, Option<string>))
    requires Valid(t)
    ensures FlagsOnly(t, r.0)
  {
    DeletePaths(t, paths, MaxPathLength(t))
  }

  /** Paths that name nothing are skipped: deleting only such paths is a
      successful no-op. */
  lemma {:induction false} DeletePathsMissing(t: Table, paths: seq<string>, bound: nat)
    requires Valid(t) && Bounded(t, bound)
    requires forall k :: 0 <= k < |paths| ==> FindByPath(t, paths[k]).None?
    ensures DeletePaths(t, paths, bound) == (t, None)
    decreases |paths|
  {
    if paths != [] {
      DeletePathsMissing(t, paths[1..], bound);
    }
  }

  /** A path that names nothing is skipped, and the loop goes on with the
      paths after it. */
  lemma DeletePathsSkip(t: Table, p: string, paths: seq<string>, bound: nat)
    requires Valid(t) && Bounded(t, bound) && FindByPath(t, p).None?
    ensures DeletePaths(t, [p] + paths, bound) == DeletePaths(t, paths, bound)
  {
    assert ([p] + paths)[0] == p && ([p] + paths)[1..] == paths;
  }

  /** A path that names a directory deletes that directory's tree; a failure
      ends the loop with its error, and otherwise the loop goes on with the
      paths after it on the table the tree delete left. */
  lemma DeletePathsDirectory(t: Table, p: string, paths: seq<string>, bound: nat)
    requires Valid(t) && Bounded(t, bound)
    requires FindByPath(t, p).Some? && t[FindByPath(t, p).value].kind == Directory
    ensures var (t1, err) := DeleteTree(t, p, bound);
      && (err.Some? ==> DeletePaths(t, [p] + paths, bound) == (t1, err))
      && (err.None? ==>
            Valid(t1) && Bounded(t1, bound) &&
            DeletePaths(t, [p] + paths, bound) == DeletePaths(t1, paths, bound))
  {
    assert ([p] + paths)[0] == p && ([p] + paths)[1..] == paths;
    FlagsOnlyKeeps(t, DeleteTree(t, p, bound).0, bound);
  }

  /** FileDelete with one directory path is DirectoryDelete of that path. */
  lemma FileDeleteDirectory(t: Table, p: string)
    requires Valid(t) && FindByPath(t, p).Some? && t[FindByPath(t, p).value].kind == Directory
    ensures FileDelete(t, [p]) == DirectoryDeleteSpec(t, p)
  {
    DeletePathsDirectory(t, p, [], MaxPathLength(t));
    assert [p] + [] == [p];
  }

  /** A file among the paths is soft-deleted and reported as an error, and
      the paths after it are not looked at. */
  lemma FileDeleteStopsAtFile(t: Table, paths: seq<string>, x: nat)
    requires Valid(t) && |paths| > 0 && FindByPath(t, paths[0]) == Some(x) && t[x].kind == File
    ensures FileDelete(t, paths) == (SoftDelete(t, x), Some("not a file or directory: " + paths[0]))
  {
  }

  /** Only records inside the subtree of one of the paths are deleted. */
  lemma {:induction false} DeletePathsScope(t: Table, paths: seq<string>, bound: nat)
    requires Valid(t) && Bounded(t, bound)
    ensures forall i :: Changed(t, DeletePaths(t, paths, bound).0, i) ==>
      exists k :: 0 <= k < |paths| && InSubtree(t[i].path, paths[k])
    decreases |paths|
  {
    if paths != [] {
      match FindByPath(t, paths[0])
      case None =>
        DeletePathsScope(t, paths[1..], bound);
        forall i | Changed(t, DeletePaths(t, paths, bound).0, i)
          ensures exists k :: 0 <= k < |paths| && InSubtree(t[i].path, paths[k])
        {
          var k :| 0 <= k < |paths[1..]| && InSubtree(t[i].path, paths[1..][k]);
          assert paths[1..][k] == paths[k + 1];
        }
      case Some(x) =>
        if t[x].kind == Directory {
          var (t1, err) := DeleteTree(t, t[x].path, bound);
          DeleteTreeScope(t, t[x].path, bound);
          if err.None? {
            FlagsOnlyKeeps(t, t1, bound);
            DeletePathsScope(t1, paths[1..], bound);
            var u := DeletePaths(t1, paths[1..], bound).0;
            forall i | Changed(t, u, i)
              ensures exists k :: 0 <= k < |paths| && InSubtree(t[i].path, paths[k])
            {
              if Changed(t, t1, i) {
                assert InSubtree(t[i].path, paths[0]);
              } else {
                assert Changed(t1, u, i) && t1[i].path == t[i].path;
                var k :| 0 <= k < |paths[1..]| && InSubtree(t1[i].path, paths[1..][k]);
                assert paths[1..][k] == paths[k + 1];
              }
            }
          } else {
            forall i | Changed(t, t1, i)
              ensures exists k :: 0 <= k < |paths| && InSubtree(t[i].path, paths[k])
            {
              assert InSubtree(t[i].path, paths[0]);
            }
          }
        } else {
          forall i | Changed(t, SoftDelete(t, x), i)
            ensures exists k :: 0 <= k < |paths| && InSubtree(t[i].path, paths[k])
          {
            assert InSubtree(t[i].path, paths[0]);
          }
        }
    }
  }

  /** DirectoriesList, FilesList and List: "directory not found" when no live
      record is at the rooted path; otherwise the stored paths of its live
      children of the requested kind, in ascending order. */
  function ListChildren(t: Table, path: string, filter: Option<Kind>): (r: Result<seq<string>>)
    ensures r.Err? <==> FindByPath(t, FixPath(path)).None?
    ensures r.Err? ==> r.error == "directory not found"
    ensures r.Ok? ==>
      var d := FindByPath(t, FixPath(path)).value;
      Sorted(r.value) && multiset(r.value) == multiset(PathsOf(LiveChildren(t, d, filter)))
  {
    match FindByPath(t, FixPath(path))
    case None => Err("directory not found")
    case Some(d) => Ok(Sort(PathsOf(LiveChildren(t, d, filter))))
  }

  /** A listing holds exactly the stored paths of the live children of the
      requested kind. */
  lemma ListChildrenMembers(t: Table, path: string, filter: Option<Kind>, p: string)
    requires ListChildren(t, path, filter).Ok?
    ensures var d := FindByPath(t, FixPath(path)).value;
      p in ListChildren(t, path, filter).value <==>
        exists j :: Live(t, j) && t[j].parentId == d && Matches(t[j].kind, filter) && t[j].path == p
  {
    var d := FindByPath(t, FixPath(path)).value;
    var r := ListChildren(t, path, filter).value;
    var ps := PathsOf(LiveChildren(t, d, filter));
    ChildPathsMembers(t, d, filter, p);
    assert p in r <==> p in ps by {
      assert p in r <==> p in multiset(r);
      assert p in ps <==> p in multiset(ps);
    }
  }

  /** An existing directory without live children lists as empty. */
  lemma ListChildrenEmpty(t: Table, path: string, filter: Option<Kind>)
    requires FindByPath(t, FixPath(path)).Some?
    requires var d := FindByPath(t, FixPath(path)).value;
      forall j :: Live(t, j) && t[j].parentId == d ==> !Matches(t[j].kind, filter)
    ensures ListChildren(t, path, filter) == Ok([])
  {
    var d := FindByPath(t, FixPath(path)).value;
    var kids := LiveChildren(t, d, filter);
    LiveChildrenMembers(t, d, filter);
    assert forall x :: x in kids ==> x in t && !x.deleted && x.parentId == d && Matches(x.kind, filter);
  }

  /** List returns what DirectoriesList and FilesList return together,
      re-sorted. */
  lemma ListIsDirectoriesAndFiles(t: Table, path: string)
    requires FindByPath(t, FixPath(path)).Some?
    ensures Sorted(ListChildren(t, path, None).value)
    ensures multiset(ListChildren(t, path, None).value) ==
      multiset(ListChildren(t, path, Some(Directory)).value) + multiset(ListChildren(t, path, Some(File)).value)
  {
    ChildrenSplit(t, FindByPath(t, FixPath(path)).value);
  }
}
