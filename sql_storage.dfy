/** The SQL-backed filesystem as an object holding its record table. Each
    state-changing operation updates the table step by step as the original
    does and is proved equal to its specification in SqlOps; the listings copy
    the children's paths in a loop. Read-only queries are the SqlOps
    functions applied to `records`. */
module SqlBackend {
  import opened Wrappers
  import opened Consts
  import opened Sorting
  import opened Base64
  import opened Decimal
  import opened SqlPaths
  import opened Records
  import SqlOps

  class SqlStorage {
    /** The base URL prefixed to stored paths by the URL queries. */
    const url: string
    /** The record table of the file store. */
    var records: Table

    constructor(url: string, initial: Table)
      ensures this.url == url && records == initial
    {
      this.url := url;
      records := initial;
    }

    method DirectoryCreate(path: string) returns (err: Option<string>)
      modifies this
      ensures (records, err) == SqlOps.DirectoryCreate(old(records), path)
    {
      if SqlOps.Exists(records, path) {
        return Some("directory already exists");
      }
      var parent := SqlOps.FindParentDirectory(records, path);
      if parent.None? {
        return Some("parent directory not found");
      }
      var d := parent.value;
      var name := FindFileName(path);
      records := records + [SqlOps.NewDirectory(|records|, d, name, SqlOps.ChildPath(records, d, name))];
      return None;
    }

    method FilePut(path: string, content: seq<byte>) returns (err: Option<string>)
      modifies this
      ensures (records, err) == SqlOps.FilePut(old(records), path, content)
    {
      var parent := SqlOps.FindParentDirectory(records, path);
      if parent.None? {
        return Some("parent directory not found");
      }
      var d := parent.value;
      var b64 := Encode(content);
      var name := FindFileName(path);
      var extension := FindExtension(path);
      var stored := SqlOps.ChildPath(records, d, name);
      records := records + [SqlOps.NewFile(|records|, d, name, stored, b64, NatToString(|content|), extension)];
      return None;
    }

    method FileCopy(origin: string, target: string) returns (err: Option<string>)
      requires SqlOps.CopyableFile(records, origin) ==> SqlOps.FindParentDirectory(records, target).Some?
      modifies this
      ensures (records, err) == SqlOps.FileCopy(old(records), origin, target)
    {
      var found := FindByPath(records, origin);
      if found.None? {
        return Some("path not found");
      }
      var rec := records[found.value];
      if rec.kind != File {
        return Some("not a file");
      }
      var d := SqlOps.FindParentDirectory(records, target).value;
      var stored := SqlOps.ChildPath(records, d, rec.name);
      records := records + [SqlOps.NewFile(|records|, d, rec.name, stored, rec.contents, rec.size, rec.extension)];
      return None;
    }

    method Move(origin: string, target: string) returns (err: Option<string>)
      modifies this
      ensures (records, err) == SqlOps.Move(old(records), origin, target)
    {
      if origin == target {
        return Some("origin and target paths are the same");
      }
      var found := FindByPath(records, origin);
      if found.None? {
        return Some("origin file or folder path not found");
      }
      var parent := SqlOps.FindParentDirectory(records, target);
      if parent.None? {
        return Some("target directory not found");
      }
      var o, d := found.value, parent.value;
      var name := FindFileName(target);
      var rec := records[o].(parentId := d, name := name, path := SqlOps.ChildPath(records, d, name));
      records := records[o := rec];
      return None;
    }

    method DirectoryDelete(path: string) returns (err: Option<string>)
      requires Valid(records)
      modifies this
      ensures (records, err) == DirectoryDeleteSpec(old(records), path)
    {
      err := DeleteTreeAt(path, MaxPathLength(records));
    }

    /** The recursive body of DirectoryDelete; `bound` bounds every stored
        path, so the walk down ever longer child paths ends. */
    method DeleteTreeAt(path: string, ghost bound: nat) returns (err: Option<string>)
      requires Valid(records) && Bounded(records, bound)
      modifies this
      ensures (records, err) == DeleteTree(old(records), path, bound)
      decreases if |path| <= bound then bound - |path| else 0
    {
      var found := FindByPath(records, path);
      if found.None? {
        return None;
      }
      var f := found.value;
      if records[f].kind != Directory {
        return Some("not a directory");
      }
      var kids := LiveChildren(records, f, None);
      DeleteTreeDirectory(records, path, bound, f);
      ghost var goal := DeleteChildren(records, kids, 0, path, bound);
      var i := 0;
      while i < |kids|
        invariant 0 <= i <= |kids|
        invariant Valid(records) && Bounded(records, bound)
        invariant DeleteChildren(records, kids, i, path, bound) == goal
      {
        var c := kids[i];
        if c.kind == Directory {
          DeleteChildrenDirectory(records, kids, i, path, bound);
          var e := DeleteTreeAt(c.path, bound);
          if e.Some? {
            return e;
          }
        } else {
          DeleteChildrenFile(records, kids, i, path, bound);
          records := SoftDelete(records, c.id);
        }
        i := i + 1;
      }
      assert goal == (records, None);
      records := SoftDelete(records, f);
      return None;
    }

    method FileDelete(paths: seq<string>) returns (err: Option<string>)
      requires Valid(records)
      modifies this
      ensures (records, err) == SqlOps.FileDelete(old(records), paths)
    {
      ghost var bound := MaxPathLength(records);
      ghost var t0 := records;
      var i := 0;
      while i < |paths|
        invariant 0 <= i <= |paths|
        invariant Valid(records) && Bounded(records, bound)
        invariant SqlOps.DeletePaths(records, paths[i..], bound) == SqlOps.DeletePaths(t0, paths, bound)
      {
        assert paths[i..][0] == paths[i] && paths[i..][1..] == paths[i + 1..];
        var found := FindByPath(records, paths[i]);
        if found.Some? {
          var x := found.value;
          if records[x].kind == Directory {
            ghost var before := records;
            var e := DeleteTreeAt(records[x].path, bound);
            if e.Some? {
              return e;
            }
            FlagsOnlyKeeps(before, records, bound);
          } else {
            var stored := records[x].path;
            records := SoftDelete(records, x);
            return Some("not a file or directory: " + stored);
          }
        }
        i := i + 1;
      }
      return None;
    }

    /** The listing shared by DirectoriesList, FilesList and List: look up the
        rooted directory, then copy the stored paths of its children of the
        requested kind, which the store returns in ascending order. */
    method ListByKind(path: string, filter: Option<Kind>) returns (r: Result<seq<string>>)
      ensures r == SqlOps.ListChildren(records, path, filter)
    {
      var dir := FindByPath(records, FixPath(path));
      if dir.None? {
        return Err("directory not found");
      }
      var kids := LiveChildren(records, dir.value, filter);
      if |kids| == 0 {
        return Ok([]);
      }
      var paths: seq<string> := [];
      var i := 0;
      while i < |kids|
        invariant 0 <= i <= |kids|
        invariant paths == PathsOf(kids[..i])
      {
        assert kids[..i + 1][..i] == kids[..i];
        paths := paths + [kids[i].path];
        i := i + 1;
      }
      assert kids[..|kids|] == kids;
      return Ok(Sort(paths));
    }

    method DirectoriesList(path: string) returns (r: Result<seq<string>>)
      ensures r == SqlOps.ListChildren(records, path, Some(Directory))
    {
      r := ListByKind(path, Some(Directory));
    }

    method FilesList(path: string) returns (r: Result<seq<string>>)
      ensures r == SqlOps.ListChildren(records, path, Some(File))
    {
      r := ListByKind(path, Some(File));
    }

    method List(path: string) returns (r: Result<seq<string>>)
      ensures r == SqlOps.ListChildren(records, path, None)
    {
      r := ListByKind(path, None);
    }
  }
}
