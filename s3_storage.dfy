/** The S3 backend as an object: the disk it was built from, the service it
    talks to, and the bucket's objects, which its methods change. */
module S3Backend {
  import opened Wrappers
  import opened Strings
  import opened Sorting
  import opened Disks
  import opened S3Paths
  import S3Ops

  /** The keys of a finite set in ascending order, as the service returns
      them in a listing page. */
  method SortedKeys(s: set<string>) returns (r: seq<string>)
    ensures r == S3Ops.Listing(s)
  {
    var rest := s;
    var xs: seq<string> := [];
    while rest != {}
      invariant multiset(xs) + multiset(rest) == multiset(s)
      decreases |rest|
    {
      var k :| k in rest;
      S3Ops.MultisetOfSetSplit(rest, k);
      xs := xs + [k];
      rest := rest - {k};
    }
    r := Sort(xs);
    SortedUnique(r, S3Ops.Listing(s));
  }

  class S3Storage {
    const disk: Disk
    const service: S3Ops.Service
    var objects: S3Ops.Objects

    constructor (disk: Disk, service: S3Ops.Service, objects: S3Ops.Objects)
      ensures this.disk == disk && this.service == service && this.objects == objects
    {
      this.disk := disk;
      this.service := service;
      this.objects := objects;
    }

    /** ListObjectsV2 on one page: with the delimiter "/" the contents and the
        common prefixes under `prefix`, without it every key under `prefix`. */
    method ListObjects(prefix: string, delimited: bool)
      returns (contents: seq<string>, commonPrefixes: seq<string>, err: Option<string>)
      ensures err == if service.unavailable then Some(S3Ops.Unavailable) else None
      ensures err.Some? ==> contents == [] && commonPrefixes == []
      ensures err.None? && delimited ==>
        contents == S3Ops.Listing(S3Ops.Contents(objects.Keys, prefix)) &&
        commonPrefixes == S3Ops.Listing(S3Ops.CommonPrefixes(objects.Keys, prefix))
      ensures err.None? && !delimited ==>
        contents == S3Ops.Listing(S3Ops.KeysUnder(objects.Keys, prefix)) && commonPrefixes == []
    {
      if service.unavailable {
        return [], [], Some(S3Ops.Unavailable);
      }
      if delimited {
        contents := SortedKeys(S3Ops.Contents(objects.Keys, prefix));
        commonPrefixes := SortedKeys(S3Ops.CommonPrefixes(objects.Keys, prefix));
      } else {
        contents := SortedKeys(S3Ops.KeysUnder(objects.Keys, prefix));
        commonPrefixes := [];
      }
      err := None;
    }

    method FilePut(filePath: string, content: seq<byte>) returns (err: Option<string>)
      modifies this
      ensures (objects, err) == S3Ops.Put(service, old(objects), filePath, content)
    {
      if service.unavailable {
        return Some(S3Ops.Unavailable);
      }
      objects := objects[filePath := content];
      err := None;
    }

    method DirectoryCreate(dirPath: string) returns (err: Option<string>)
      modifies this
      ensures (objects, err) == S3Ops.DirectoryCreate(service, old(objects), dirPath)
    {
      var path := dirPath;
      if !HasSuffix(path, "/") {
        path := path + "/";
      }
      err := FilePut(path, []);
    }

    method FileCopy(originFile: string, targetFile: string) returns (err: Option<string>)
      modifies this
      ensures (objects, err) == S3Ops.Copy(service, old(objects), originFile, targetFile)
    {
      if service.unavailable {
        return Some(S3Ops.Unavailable);
      } else if originFile !in objects {
        return Some(S3Ops.NoSuchKey);
      } else if originFile == targetFile {
        return Some(S3Ops.CopyToItself);
      }
      objects := objects[targetFile := objects[originFile]];
      err := None;
    }

    method FileDelete(filePaths: seq<string>) returns (err: Option<string>)
      modifies this
      ensures (objects, err) == S3Ops.DeleteBatch(service, old(objects), filePaths)
    {
      if service.unavailable {
        return Some(S3Ops.Unavailable);
      }
      objects := map k | k in objects && (k !in filePaths || k in service.locked) :: objects[k];
      err := None;
    }

    method FileMove(oldFile: string, newFile: string) returns (err: Option<string>)
      modifies this
      ensures (objects, err) == S3Ops.FileMove(service, old(objects), oldFile, newFile)
    {
      err := FileCopy(oldFile, newFile);
      if err.Some? {
        return;
      }
      err := FileDelete([oldFile]);
    }

    /** DeleteObject of one key. */
    method DeleteObject(key: string) returns (err: Option<string>)
      modifies this
      ensures service.unavailable ==> objects == old(objects) && err == Some(S3Ops.Unavailable)
      ensures !service.unavailable && key in service.locked ==>
        objects == old(objects) && err == Some(S3Ops.AccessDenied)
      ensures !service.unavailable && key !in service.locked ==>
        objects == old(objects) - {key} && err.None?
    {
      if service.unavailable {
        return Some(S3Ops.Unavailable);
      } else if key in service.locked {
        return Some(S3Ops.AccessDenied);
      }
      objects := objects - {key};
      err := None;
    }

    method DirectoryDelete(directory: string) returns (err: Option<string>)
      modifies this
      ensures (objects, err) == S3Ops.DirectoryDelete(service, old(objects), directory)
    {
      var prefix := directory;
      if !HasSuffix(prefix, "/") {
        prefix := prefix + "/";
      }
      var keys, _, e := ListObjects(prefix, false);
      if e.Some? {
        return e;
      }
      if |keys| == 0 {
        return None;
      }
      ghost var start := objects;
      var i := 0;
      while i < |keys|
        invariant 0 <= i <= |keys|
        invariant S3Ops.DeleteEach(service, objects, keys[i..]) == S3Ops.DeleteEach(service, start, keys)
      {
        err := DeleteObject(keys[i]);
        if err.Some? {
          return;
        }
        assert keys[i..][1..] == keys[i + 1..];
        i := i + 1;
      }
      err := None;
    }

    method DirectoriesList(dir: string) returns (dirs: seq<string>, err: Option<string>)
      ensures (dirs, err) == S3Ops.DirectoriesList(service, objects, dir)
    {
      var _, prefixes, e := ListObjects(ToValidS3DirPath(dir), true);
      if e.Some? {
        return [], e;
      }
      dirs := [];
      for i := 0 to |prefixes|
        invariant dirs == prefixes[..i]
      {
        assert prefixes[..i + 1] == prefixes[..i] + [prefixes[i]];
        dirs := dirs + [prefixes[i]];
      }
      assert prefixes[..|prefixes|] == prefixes;
      err := None;
    }

    method FilesList(dir: string) returns (files: seq<string>, err: Option<string>)
      ensures (files, err) == S3Ops.FilesList(service, objects, dir)
    {
      var marker := ToValidS3DirPath(dir);
      var contents, _, e := ListObjects(marker, true);
      if e.Some? {
        return [], e;
      }
      files := [];
      for i := 0 to |contents|
        invariant files == S3Ops.Without(contents[..i], marker)
      {
        S3Ops.WithoutStep(contents, i, marker);
        if marker == contents[i] {
          continue;
        }
        files := files + [contents[i]];
      }
      assert contents[..|contents|] == contents;
      err := None;
    }

    method List(dir: string) returns (list: seq<string>, err: Option<string>)
      ensures (list, err) == S3Ops.List(service, objects, dir)
    {
      var dirs, e := DirectoriesList(dir);
      if e.Some? {
        return [], e;
      }
      var files;
      files, e := FilesList(dir);
      if e.Some? {
        return [], e;
      }
      list := Sort(dirs + files);
      S3Ops.ListIsSortedMerge(objects, ToValidS3DirPath(dir));
      err := None;
    }
  }
}
