/** The read-only static backend (a CDN): it can only build URLs; every other
    operation fails with a fixed value. */
module Static {
  import opened Wrappers
  import opened Strings
  import opened Disks

  const NotImplemented := "not implemented"
  const NotSupported := "not supported"

  lemma TrimRightOne(s: string, c: char)
    ensures TrimRight(s + [c], c) == TrimRight(s, c)
  {
    var t := s + [c];
    assert t[..|t| - 1] == s;
  }

  lemma TrimLeftOne(s: string, c: char)
    ensures TrimLeft([c] + s, c) == TrimLeft(s, c)
  {
    var t := [c] + s;
    assert t[1..] == s;
  }

  datatype StaticStorage = StaticStorage(disk: Disk) {

    /** Url: the base URL without its trailing separators, one separator, and
        the path without its leading ones; the error is always set. */
    function Url(filePath: string): (r: (string, Option<string>))
      ensures r.1 == Some(NotImplemented)
      ensures var base := TrimRight(disk.url, '/');
        && HasPrefix(r.0, base + "/")
        && HasPrefix(disk.url, base) && (base == "" || base[|base| - 1] != '/')
        && (forall i :: |base| <= i < |disk.url| ==> disk.url[i] == '/')
      ensures var rest := r.0[|TrimRight(disk.url, '/')| + 1..];
        && HasSuffix(filePath, rest) && (rest == "" || rest[0] != '/')
        && (forall i :: 0 <= i < |filePath| - |rest| ==> filePath[i] == '/')
    {
      var base := TrimRight(disk.url, '/');
      var rest := TrimLeft(filePath, '/');
      JoinParts(base, rest);
      (base + "/" + rest, Some(NotImplemented))
    }

    function Copy(originFile: string, targetFile: string): Option<string> {
      Some(NotSupported)
    }

    function DeleteFile(filePaths: seq<string>): Option<string> {
      Some(NotImplemented)
    }

    function DeleteDirectory(dirPath: string): Option<string> {
      Some(NotImplemented)
    }

    function Directories(dirPath: string): (seq<string>, Option<string>) {
      ([], Some(NotImplemented))
    }

    function Exists(filePath: string): (bool, Option<string>) {
      (false, Some(NotImplemented))
    }

    function Files(dirPath: string): (seq<string>, Option<string>) {
      ([], Some(NotImplemented))
    }

    function MakeDirectory(dirPath: string): Option<string> {
      Some(NotImplemented)
    }

    function Move(originFile: string, targetFile: string): Option<string> {
      Some(NotImplemented)
    }

    /** ReadFile: a nil slice, which is the empty sequence here. */
    function ReadFile(filePath: string): (seq<byte>, Option<string>) {
      ([], Some(NotImplemented))
    }

    function Size(filePath: string): (int, Option<string>) {
      (-1, Some(NotImplemented))
    }

    function Put(filePath: string, content: seq<byte>): Option<string> {
      Some(NotImplemented)
    }
  }

  /** One more separator at the end of the base URL, or at the start of the
      path, never changes the URL. */
  lemma UrlIgnoresExtraSeparator(s: StaticStorage, filePath: string)
    ensures StaticStorage(s.disk.(url := s.disk.url + "/")).Url(filePath) == s.Url(filePath)
    ensures s.Url("/" + filePath) == s.Url(filePath)
  {
    TrimRightOne(s.disk.url, '/');
    TrimLeftOne(filePath, '/');
  }

  /** Every operation other than Url fails, whatever its arguments, with the
      placeholders the backend returns. */
  lemma EveryOtherOperationFails(s: StaticStorage, p: string, q: string, ps: seq<string>, content: seq<byte>)
    ensures s.Copy(p, q) == Some(NotSupported)
    ensures s.DeleteFile(ps) == s.DeleteDirectory(p) == s.MakeDirectory(p) ==
            s.Move(p, q) == s.Put(p, content) == Some(NotImplemented)
    ensures s.Directories(p) == s.Files(p) == ([], Some(NotImplemented))
    ensures s.Exists(p) == (false, Some(NotImplemented))
    ensures s.ReadFile(p) == ([], Some(NotImplemented))
    ensures s.Size(p) == (-1, Some(NotImplemented))
  {
  }
}
