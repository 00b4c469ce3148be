/** The pure path and URL helpers of the S3 backend, and the two functions of
    Go's `path` package they use. */
module S3Paths {
  import opened Wrappers
  import opened Strings
  import SqlPaths

  /** The length of `p` when `s` starts with it, else 0. */
  function Skip(s: string, p: string): (n: nat)
    ensures n <= |s| && (n == 0 || n == |p|)
  {
    if HasPrefix(s, p) then |p| else 0
  }

  /** The path with "./", then "/", then "." each removed once from its start. */
  function StripLeading(path: string): (r: string)
    ensures HasSuffix(path, r) && |path| - 4 <= |r|
    ensures var a := Skip(path, "./");
      var b := a + Skip(path[a..], "/");
      r == path[b + Skip(path[b..], ".")..]
  {
    var a := Skip(path, "./");
    var b := a + Skip(path[a..], "/");
    StripLeadingSteps(path);
    SuffixFrom(path, b + Skip(path[b..], "."));
    TrimPrefix(TrimPrefix(TrimPrefix(path, "./"), "/"), ".")
  }

  /** The three trims, each dropping what `Skip` counts. */
  lemma StripLeadingSteps(path: string)
    ensures var a := Skip(path, "./");
      var b := a + Skip(path[a..], "/");
      TrimPrefix(TrimPrefix(TrimPrefix(path, "./"), "/"), ".") == path[b + Skip(path[b..], ".")..]
  {
    var a := Skip(path, "./");
    var b := a + Skip(path[a..], "/");
    assert TrimPrefix(path, "./") == path[a..] by {
      TrimPrefixSkip(path, "./", 0);
      assert path[0..] == path;
    }
    assert TrimPrefix(path[a..], "/") == path[b..] by {
      TrimPrefixSkip(path, "/", a);
    }
    TrimPrefixSkip(path, ".", b);
  }

  /** Every tail of a text is a suffix of it. */
  lemma SuffixFrom(s: string, k: nat)
    requires k <= |s|
    ensures HasSuffix(s, s[k..])
  {
  }

  /** Trimming `p` from the rest of `s` after `k` drops `Skip` more. */
  lemma TrimPrefixSkip(s: string, p: string, k: nat)
    requires k <= |s|
    ensures k + Skip(s[k..], p) <= |s|
    ensures TrimPrefix(s[k..], p) == s[k + Skip(s[k..], p)..]
  {
  }

  /** toValidS3DirPath: the listing prefix of a directory, "" for the top of
      the bucket and otherwise a text that ends with one "/". */
  function ToValidS3DirPath(path: string): (r: string)
    ensures r == "" || HasSuffix(r, "/")
    ensures r == "" || HasSuffix(path, r) || HasSuffix(path, r[..|r| - 1])
    ensures var p := StripLeading(path);
      (r == p || r == p + "/") && (r == p + "/" <==> p != "" && !HasSuffix(p, "/"))
  {
    var p := StripLeading(path);
    if p != "" && !HasSuffix(p, "/") then p + "/" else p
  }

  lemma TrimPrefixCases(s: string, p: string, t: string)
    requires TrimPrefix(s, p) == t
    ensures s == t || s == p + t
  {
  }

  lemma TrimPrefixHit(p: string, t: string)
    ensures TrimPrefix(p + t, p) == t
  {
    assert (p + t)[..|p|] == p;
  }

  lemma TrimPrefixMiss(s: string, p: string)
    requires |p| > 0 && (|s| < |p| || s[0] != p[0])
    ensures TrimPrefix(s, p) == s
  {
    if |p| <= |s| { assert s[..|p|][0] != p[0]; }
  }

  /** Only these eight inputs denote the top of the bucket. */
  lemma ToValidS3DirPathEmptyOnly(path: string)
    requires ToValidS3DirPath(path) == ""
    ensures path in {"", ".", "/", "/.", "./", "./.", ".//", ".//."}
  {
    assert StripLeading(path) == "";
    TrimsEmptyOnly(path);
  }

  /** The three trims leave nothing only for these eight inputs. */
  lemma TrimsEmptyOnly(path: string)
    requires TrimPrefix(TrimPrefix(TrimPrefix(path, "./"), "/"), ".") == ""
    ensures path in {"", ".", "/", "/.", "./", "./.", ".//", ".//."}
  {
    var s1 := TrimPrefix(path, "./");
    var s2 := TrimPrefix(s1, "/");
    assert s2 in {"", "."} by {
      TrimPrefixCases(s2, ".", "");
      assert "." + "" == ".";
    }
    assert s1 in {"", ".", "/", "/."} by {
      TrimPrefixCases(s1, "/", s2);
      assert "/" + "" == "/" && "/" + "." == "/.";
    }
    TrimPrefixCases(path, "./", s1);
    assert "./" + "" == "./" && "./" + "." == "./." && "./" + "/" == ".//" && "./" + "/." == ".//.";
  }

  /** What is left of the four short tails once "/" and "." are stripped. */
  lemma ShortTailsStrip(t: string)
    requires t in {"", ".", "/", "/."}
    ensures TrimPrefix(t, "./") == t
    ensures TrimPrefix(TrimPrefix(t, "/"), ".") == ""
  {
    TrimPrefixMiss(t, "./");
    if t == "" {
      TrimPrefixMiss(t, "/");
      TrimPrefixMiss(t, ".");
    } else if t == "." {
      TrimPrefixMiss(t, "/");
      TrimPrefixHit(".", "");
      assert "." + "" == ".";
    } else if t == "/" {
      TrimPrefixHit("/", "");
      assert "/" + "" == "/";
      TrimPrefixMiss("", ".");
    } else {
      TrimPrefixHit("/", ".");
      TrimPrefixHit(".", "");
      assert "." + "" == ".";
    }
  }

  lemma ShortPathsEmpty(t: string)
    requires t in {"", ".", "/", "/."}
    ensures ToValidS3DirPath(t) == "" && ToValidS3DirPath("./" + t) == ""
  {
    ShortTailsStrip(t);
    TrimPrefixHit("./", t);
  }

  lemma EmptyInputs()
    ensures ToValidS3DirPath("") == "" && ToValidS3DirPath(".") == ""
    ensures ToValidS3DirPath("/") == "" && ToValidS3DirPath("/.") == ""
    ensures ToValidS3DirPath("./") == "" && ToValidS3DirPath("./.") == ""
    ensures ToValidS3DirPath(".//") == "" && ToValidS3DirPath(".//.") == ""
  {
    EmptyInput("");
    EmptyInput(".");
    EmptyInput("/");
    EmptyInput("/.");
    EmptyInput("./");
    EmptyInput("./.");
    EmptyInput(".//");
    EmptyInput(".//.");
  }

  /** Each of the eight inputs denotes the top of the bucket. */
  lemma EmptyInput(path: string)
    requires path in {"", ".", "/", "/.", "./", "./.", ".//", ".//."}
    ensures ToValidS3DirPath(path) == ""
  {
    if path in {"", ".", "/", "/."} {
      ShortPathsEmpty(path);
    } else {
      var t := path[2..];
      assert path == "./" + t;
      ShortPathsEmpty(t);
    }
  }

  /** These eight inputs, and only they, denote the top of the bucket. */
  lemma ToValidS3DirPathEmpty(path: string)
    ensures ToValidS3DirPath(path) == "" <==>
      path in {"", ".", "/", "/.", "./", "./.", ".//", ".//."}
  {
    if ToValidS3DirPath(path) == "" {
      ToValidS3DirPathEmptyOnly(path);
    } else {
      EmptyInputs();
    }
  }

  /** A text that starts with neither "." nor "/". */
  predicate Plain(t: string) {
    t == "" || (t[0] != '.' && t[0] != '/')
  }

  /** Each of the three prefixes is removed from a plain text. */
  lemma StripLeadingPlain(t: string)
    requires Plain(t)
    ensures StripLeading(t) == t
    ensures StripLeading("./" + t) == t
    ensures StripLeading("/" + t) == t
    ensures StripLeading("." + t) == t
  {
    TrimPrefixMiss(t, "./");
    TrimPrefixMiss(t, "/");
    TrimPrefixMiss(t, ".");
    TrimPrefixHit("./", t);
    TrimPrefixMiss("/" + t, "./");
    TrimPrefixHit("/", t);
    var d := "." + t;
    if |d| >= 2 {
      assert d[..2][1] != "./"[1];
    }
    assert !HasPrefix(d, "./");
    TrimPrefixMiss(d, "/");
    TrimPrefixHit(".", t);
  }

  /** The prefixes are stripped once each and in order: after "./" is gone,
      a second "./" loses only its dot. */
  lemma StripLeadingOnce(t: string)
    ensures StripLeading("./" + ("./" + t)) == "/" + t
  {
    TrimPrefixHit("./", "./" + t);
    TrimPrefixMiss("./" + t, "/");
    assert "./" + t == "." + ("/" + t);
    TrimPrefixHit(".", "/" + t);
  }

  /** The sanitiser is not idempotent: a "/.." prefix leaves a name that
      starts with a dot, which the next application strips. */
  lemma ToValidS3DirPathNotIdempotent(t: string)
    requires t != "" && Plain(t) && !HasSuffix(t, "/")
    ensures ToValidS3DirPath("/.." + t) == "." + t + "/"
    ensures ToValidS3DirPath("." + t + "/") == t + "/"
  {
    var p := "/.." + t;
    TrimPrefixMiss(p, "./");
    assert p == "/" + (".." + t);
    TrimPrefixHit("/", ".." + t);
    assert ".." + t == "." + ("." + t);
    TrimPrefixHit(".", "." + t);
    var d := "." + t;
    assert !HasSuffix(d, "/") by { assert d[|d| - 1] == t[|t| - 1]; }
    var q := "." + (t + "/");
    assert "." + t + "/" == q;
    assert q[..2][1] != "./"[1];
    TrimPrefixMiss(q, "/");
    TrimPrefixHit(".", t + "/");
    assert HasSuffix(t + "/", "/");
  }

  /** The host the S3 client talks to: every "https://" removed, then one
      leading "<bucket>." and then one trailing "/<bucket>". */
  function Endpoint(url: string, bucket: string): (r: string)
    ensures |r| <= |url|
    ensures var n := RemoveAll(url, "https://");
      var front := if HasPrefix(n, bucket + ".") then bucket + "." else "";
      var back := if HasSuffix(n[|front|..], "/" + bucket) then "/" + bucket else "";
      n == front + r + back
  {
    var noScheme := RemoveAll(url, "https://");
    var noHost := TrimPrefix(noScheme, bucket + ".");
    TrimSuffix(noHost, "/" + bucket)
  }

  lemma RemoveAllScheme(h: string)
    requires !Contains(h, "https://")
    ensures RemoveAll("https://" + h, "https://") == h
  {
    var s := "https://" + h;
    assert s[..8] == "https://" && s[8..] == h;
    RemoveAllAbsent(h, "https://");
  }

  /** A plain host behind the scheme is the endpoint itself. */
  lemma EndpointOfHost(h: string, bucket: string)
    requires !Contains(h, "https://")
    requires !HasPrefix(h, bucket + ".") && !HasSuffix(h, "/" + bucket)
    ensures Endpoint("https://" + h, bucket) == h
  {
    RemoveAllScheme(h);
  }

  /** A virtual-hosted url (the bucket as the first label) loses the bucket. */
  lemma EndpointOfBucketHost(h: string, bucket: string)
    requires !Contains(bucket + "." + h, "https://")
    requires !HasSuffix(h, "/" + bucket)
    ensures Endpoint("https://" + bucket + "." + h, bucket) == h
  {
    assert "https://" + bucket + "." + h == "https://" + (bucket + "." + h);
    RemoveAllScheme(bucket + "." + h);
    var b := bucket + ".";
    assert (b + h)[..|b|] == b;
  }

  /** A path-style url (the bucket as the first path segment) loses the bucket. */
  lemma EndpointOfBucketPath(h: string, bucket: string)
    requires !Contains(h + "/" + bucket, "https://")
    requires !HasPrefix(h + "/" + bucket, bucket + ".")
    ensures Endpoint("https://" + h + "/" + bucket, bucket) == h
  {
    assert "https://" + h + "/" + bucket == "https://" + (h + "/" + bucket);
    RemoveAllScheme(h + "/" + bucket);
    var b := "/" + bucket;
    assert h + "/" + bucket == h + b;
    assert (h + b)[|h + b| - |b|..] == b;
  }

  /** Removing every occurrence can create a new one: the result may still
      hold the scheme. */
  lemma RemoveAllMayLeaveScheme()
    ensures var scheme := "https://";
      RemoveAll(scheme[..2] + scheme + scheme[2..], scheme) == scheme
  {
    var scheme := "https://";
    RemoveAllMayLeave(scheme[..2], scheme[2..]);
    assert scheme[..2] + scheme[2..] == scheme;
  }

  /** FileUrl and DirectoryUrl: the base url with one trailing "/" removed,
      a "/", and the path with one leading "/" removed. */
  function JoinUrl(base: string, path: string): (r: string)
    ensures HasSuffix(base, "/") ==> r == base + TrimPrefix(path, "/")
    ensures !HasSuffix(base, "/") ==> r == base + "/" + TrimPrefix(path, "/")
  {
    TrimSuffix(base, "/") + "/" + TrimPrefix(path, "/")
  }

  /** A rooted path keeps its own separator: nothing is doubled. */
  lemma JoinUrlRooted(base: string, path: string)
    requires !HasSuffix(base, "/") && HasPrefix(path, "/")
    ensures JoinUrl(base, path) == base + path
  {
    assert path == "/" + path[1..];
  }

  /** Only one separator is removed on each side. */
  lemma JoinUrlKeepsDoubleSeparators()
    ensures JoinUrl("https://cdn//", "//a") == "https://cdn///a"
  {
    assert HasSuffix("https://cdn//", "/");
    assert HasPrefix("//a", "/");
  }

  /** path.Ext: the suffix from the last "." of the final element, "" when
      that element has no dot. */
  function Ext(p: string): (r: string)
    ensures r != "" ==> HasSuffix(p, r) && r[0] == '.' && '/' !in r && '.' !in r[1..]
    ensures r == "" ==> forall i :: 0 <= i < |p| && p[i] == '.' ==> '/' in p[i + 1..]
  {
    if p == [] || p[|p| - 1] == '/' then
      forall i | 0 <= i < |p| && p[i] == '.' ensures '/' in p[i + 1..] {
        assert p[i + 1..][|p| - i - 2] == p[|p| - 1];
      }
      ""
    else if p[|p| - 1] == '.' then "."
    else
      var q := p[..|p| - 1];
      var e := Ext(q);
      if e == "" then
        forall i | 0 <= i < |q| && q[i] == '.' ensures '/' in p[i + 1..] {
          var k :| 0 <= k < |q[i + 1..]| && q[i + 1..][k] == '/';
          assert p[i + 1..][k] == '/';
        }
        ""
      else e + [p[|p| - 1]]
  }

  /** path.Base: the last element once trailing separators are removed; "."
      for the empty path and "/" for a path of separators only. */
  function Base(p: string): (r: string)
    ensures p == "" ==> r == "."
    ensures p != "" && TrimRight(p, '/') == "" ==> r == "/"
    ensures var t := TrimRight(p, '/');
      t != "" ==> r != "" && '/' !in r && HasSuffix(t, r) && (|r| == |t| || t[|t| - |r| - 1] == '/')
  {
    if p == "" then "."
    else
      var t := TrimRight(p, '/');
      if t == "" then "/" else SqlPaths.LastSegment(t)
  }

  /** The name of an uploaded object with an extension: the directory
      without one trailing "/", a "/", and the base name of `name` without
      one leading "/". `sourceExtension` is what the upload library reports
      for the source file, asked only when `name` has no extension. */
  function FullPathOfFile(filePath: string, name: string, sourceExtension: Result<string>): (r: Result<string>)
    ensures Ext(name) != "" ==> r.Ok?
    ensures Ext(name) == "" && sourceExtension.Err? ==> r == sourceExtension
  {
    var extension := Ext(name);
    if extension == "" then
      match sourceExtension
      case Err(e) => Err(e)
      case Ok(ext) =>
        Ok(TrimSuffix(filePath, "/") + "/" + TrimSuffix(TrimPrefix(Base(name), "/"), "/") + "." + ext)
    else
      Ok(TrimSuffix(filePath, "/") + "/" + TrimPrefix(Base(name), "/"))
  }

  /** With an extension in the name, the object lands directly under the
      directory, under the last element of the name, and keeps the
      extension. */
  lemma FullPathKeepsExtension(filePath: string, name: string, sourceExtension: Result<string>)
    requires Ext(name) != ""
    ensures var r := FullPathOfFile(filePath, name, sourceExtension).value;
      var leaf := r[|TrimSuffix(filePath, "/")| + 1..];
      HasPrefix(r, TrimSuffix(filePath, "/") + "/") && leaf == Base(name) &&
      '/' !in leaf && HasSuffix(name, leaf) && HasSuffix(leaf, Ext(name)) &&
      (|leaf| == |name| || name[|name| - |leaf| - 1] == '/')
  {
    var b := Base(name);
    LeafOfName(name, Ext(name));
    var dir := TrimSuffix(filePath, "/");
    var r := FullPathOfFile(filePath, name, sourceExtension).value;
    assert TrimPrefix(b, "/") == b by {
      assert b != "" ==> b[0] != '/';
    }
    JoinParts(dir, b);
    assert r[..|dir| + 1] == dir + "/";
  }

  /** A name that ends with a non-empty text free of separators (such as its
      extension) does not end in a separator, so its last element is a
      suffix of it, free of separators, that is all of the name or follows
      a separator, and that ends with that text. */
  lemma LeafOfName(name: string, e: string)
    requires e != "" && HasSuffix(name, e) && '/' !in e
    ensures var b := Base(name);
      '/' !in b && HasSuffix(name, b) && HasSuffix(b, e) &&
      (|b| == |name| || name[|name| - |b| - 1] == '/')
  {
    var b := Base(name);
    assert TrimRight(name, '/') == name by {
      assert name[|name| - 1] == e[|e| - 1];
    }
    SuffixWithin(name, e, b);
  }

  /** A suffix free of separators lies within any suffix that is all of the
      text or follows a separator. */
  lemma SuffixWithin(s: string, e: string, b: string)
    requires HasSuffix(s, e) && HasSuffix(s, b) && '/' !in e
    requires |b| == |s| || s[|s| - |b| - 1] == '/'
    ensures HasSuffix(b, e)
  {
    assert |e| <= |b|;
    assert b[|b| - |e|..] == s[|s| - |e|..];
  }
}
