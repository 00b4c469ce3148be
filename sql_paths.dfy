/** The pure path helpers of the SQL-backed filesystem. */
module SqlPaths {
  import opened Strings
  import opened Consts

  /** fixPath: roots a path by prefixing the separator when it is missing. */
  function FixPath(path: string): (r: string)
    ensures HasPrefix(r, PathSeparator)
    ensures HasPrefix(path, PathSeparator) ==> r == path
    ensures !HasPrefix(path, PathSeparator) ==> r == PathSeparator + path
  {
    if HasPrefix(path, PathSeparator) then path else PathSeparator + path
  }

  lemma FixPathIdempotent(path: string)
    ensures FixPath(FixPath(path)) == FixPath(path)
  {
  }

  /** The text after the last separator. */
  function LastSegment(t: string): (r: string)
    ensures Separator !in r
    ensures HasSuffix(t, r) && (|r| == |t| || t[|t| - |r| - 1] == Separator)
  {
    SplitLastPiece(t, Separator);
    var parts := Split(t, Separator);
    parts[|parts| - 1]
  }

  /** findFileName: the last segment of the path once every leading and
      trailing separator is trimmed. */
  function FindFileName(path: string): (r: string)
    ensures Separator !in r
    ensures var t := Trim(path, Separator);
      HasSuffix(t, r) && (|r| == |t| || t[|t| - |r| - 1] == Separator)
  {
    LastSegment(Trim(path, Separator))
  }

  /** The piece between the first dot and the next one (or the end); "" when
      there is no dot. */
  function SecondPiece(name: string): (r: string)
    ensures '.' !in r
    ensures r != "" ==> '.' in name
    ensures '.' in name ==>
      var rest := name[IndexOf(name, '.') + 1..];
      HasPrefix(rest, r) && (|r| == |rest| || rest[|r|] == '.')
  {
    var parts := Split(name, '.');
    SplitSecondPiece(name, '.');
    if |parts| < 2 then "" else parts[1]
  }

  /** findExtension: the piece of the file name between its first and second
      dot (or the end), and "" when the name has no dot. */
  function FindExtension(path: string): (r: string)
    ensures '.' !in r && Separator !in r
    ensures '.' !in FindFileName(path) ==> r == ""
    ensures var name := FindFileName(path);
      '.' in name ==>
        var rest := name[IndexOf(name, '.') + 1..];
        HasPrefix(rest, r) && (|r| == |rest| || rest[|r|] == '.')
  {
    var name := FindFileName(path);
    if name == "" then "" else ExtensionOfName(name); SecondPiece(name)
  }

  lemma ExtensionOfName(name: string)
    requires Separator !in name
    ensures var r := SecondPiece(name);
      && Separator !in r
      && ('.' in name ==>
            var rest := name[IndexOf(name, '.') + 1..];
            HasPrefix(rest, r) && (|r| == |rest| || rest[|r|] == '.'))
  {
    var r := SecondPiece(name);
    if '.' in name {
      var rest := name[IndexOf(name, '.') + 1..];
      forall k | 0 <= k < |r| ensures r[k] != Separator {
        assert r[k] == rest[k] == name[IndexOf(name, '.') + 1 + k];
      }
    }
  }

  /** Everything before the last separator, "" when there is none. */
  function BeforeLastSegment(path: string): (r: string)
    ensures Separator !in path ==> r == ""
    ensures Separator in path ==>
      |r| < |path| && path[..|r|] == r && path[|r|] == Separator && Separator !in path[|r| + 1..]
  {
    var parts := Split(path, Separator);
    SplitSecondPiece(path, Separator);
    if Separator in path then SplitBeforeLast(path, Separator); Join(parts[..|parts| - 1], Separator)
    else Join(parts[..|parts| - 1], Separator)
  }

  /** The path findParentDirectoryFromPath looks up: the root path followed
      by everything before the last separator (just the root when there is
      none). The raw path is not normalised first. */
  function ParentLookupPath(path: string): (r: string)
    ensures HasPrefix(r, RootPath)
    ensures Separator !in path ==> r == RootPath
    ensures Separator in path ==>
      |r| <= |path| && path[..|r| - 1] == r[1..] && path[|r| - 1] == Separator &&
      Separator !in path[|r|..]
  {
    RootPath + BeforeLastSegment(path)
  }

  /** `i` is the position of the last separator of `t`, or -1 when there is
      none. */
  predicate LastSeparatorAt(t: string, i: int) {
    -1 <= i < |t| && (i == -1 || t[i] == Separator) &&
    forall k :: i < k < |t| ==> t[k] != Separator
  }

  lemma LastSeparatorUnique(t: string, i: int, j: int)
    requires LastSeparatorAt(t, i) && LastSeparatorAt(t, j)
    ensures i == j
  {
  }

  /** The text after the last separator of `t` is `y` when `t` ends in `y`,
      `y` holds no separator, and `y` is all of `t` or follows a separator. */
  lemma LastSegmentOf(t: string, y: string)
    requires HasSuffix(t, y) && Separator !in y
    requires |y| == |t| || t[|t| - |y| - 1] == Separator
    ensures LastSegment(t) == y
  {
    var r := LastSegment(t);
    forall k | |t| - |r| - 1 < k < |t| ensures t[k] != Separator {
      assert t[k] == r[k - (|t| - |r|)];
    }
    forall k | |t| - |y| - 1 < k < |t| ensures t[k] != Separator {
      assert t[k] == y[k - (|t| - |y|)];
    }
    LastSeparatorUnique(t, |t| - |r| - 1, |t| - |y| - 1);
  }

  /** Everything before the last separator of `x + "/" + y` is `x` when `y`
      holds no separator. */
  lemma BeforeLastOf(x: string, y: string)
    requires Separator !in y
    ensures BeforeLastSegment(x + [Separator] + y) == x
  {
    var p := x + [Separator] + y;
    assert p[|x|] == Separator;
    var r := BeforeLastSegment(p);
    forall k | |r| < k < |p| ensures p[k] != Separator {
      assert p[k] == p[|r| + 1..][k - |r| - 1];
    }
    forall k | |x| < k < |p| ensures p[k] != Separator {
      assert p[k] == y[k - |x| - 1];
    }
    LastSeparatorUnique(p, |r|, |x|);
    assert r == p[..|x|];
  }

  /** The name of `x + "/" + y` is `y` when `y` is a non-empty segment. */
  lemma FileNameOf(x: string, y: string)
    requires y != "" && Separator !in y
    ensures FindFileName(x + [Separator] + y) == y
  {
    var p := x + [Separator] + y;
    var l := TrimLeft(p, Separator);
    assert p[|p| - |y|] == y[0];
    assert |l| >= |y|;
    assert l[|l| - 1] == y[|y| - 1];
    assert Trim(p, Separator) == l;
    assert l[|l| - |y|..] == y;
    assert |l| > |y| ==> l[|l| - |y| - 1] == p[|p| - |y| - 1];
    LastSegmentOf(l, y);
  }

  /** A relative path looks up its parent as the rooted text before the last
      separator. */
  lemma ParentOfRelative(x: string, y: string)
    requires Separator !in y
    ensures ParentLookupPath(x + [Separator] + y) == RootPath + x
  {
    BeforeLastOf(x, y);
  }

  /** A rooted path looks up a parent that starts with two separators,
      because the root is prefixed to the already rooted text. */
  lemma ParentOfRooted(x: string, y: string)
    requires Separator !in y
    ensures ParentLookupPath(RootPath + x + [Separator] + y) == RootPath + RootPath + x
  {
    assert RootPath + x + [Separator] + y == (RootPath + x) + [Separator] + y;
    BeforeLastOf(RootPath + x, y);
  }

  /** A relative path `x/y` is stored under its rooted form `/x/y`... */
  lemma StoredPathRelative(x: string, y: string)
    requires x != "" && x[0] != Separator && y != "" && Separator !in y
    ensures var p := x + PathSeparator + y;
      ParentLookupPath(p) + PathSeparator + FindFileName(p) == FixPath(p)
  {
    var p := x + PathSeparator + y;
    var parent, name := ParentLookupPath(p), FindFileName(p);
    assert parent == RootPath + x by {
      assert p == x + [Separator] + y;
      ParentOfRelative(x, y);
    }
    assert name == y by {
      assert p == x + [Separator] + y;
      FileNameOf(x, y);
    }
    assert parent + PathSeparator + name == PathSeparator + p by {
      Regroup(PathSeparator, x, PathSeparator, y);
    }
    assert FixPath(p) == PathSeparator + p by { assert p[0] == x[0]; }
  }

  /** ...but a rooted path `/x/y` is stored as `//x/y`, which is not its
      rooted form, so Exists does not find the directory created at it. */
  lemma StoredPathRooted(x: string, y: string)
    requires y != "" && Separator !in y
    ensures var p := RootPath + x + PathSeparator + y;
      ParentLookupPath(p) + PathSeparator + FindFileName(p) == RootPath + p &&
      FixPath(p) == p
  {
    var p := RootPath + x + PathSeparator + y;
    var parent, name := ParentLookupPath(p), FindFileName(p);
    assert parent == RootPath + RootPath + x by {
      assert p == (RootPath + x) + [Separator] + y;
      ParentOfRooted(x, y);
    }
    assert name == y by {
      assert p == (RootPath + x) + [Separator] + y;
      FileNameOf(RootPath + x, y);
    }
    assert parent + PathSeparator + name == RootPath + p by {
      Regroup5(RootPath, RootPath, x, PathSeparator, y);
    }
    assert HasPrefix(p, PathSeparator) by { assert p[..1] == PathSeparator; }
  }
}
