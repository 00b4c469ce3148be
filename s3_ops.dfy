/** The S3 backend's effect on a bucket, as functions of the bucket's objects
    (a map from key to bytes) and of how the service answers. The service
    stands in for the SDK and the network: it may be unavailable, in which
    case every request fails, and it may refuse to delete some keys. */
module S3Ops {
  import opened Wrappers
  import opened Strings
  import opened Sorting
  import opened S3Paths

  type Objects = map<string, seq<byte>>

  datatype Service = Service(unavailable: bool, locked: set<string>)

  /** Stand-ins for the messages of the errors the SDK returns. */
  const Unavailable := "service unavailable"
  const NoSuchKey := "NoSuchKey"
  const NotFound := "NotFound"
  const AccessDenied := "AccessDenied"
  const CopyToItself := "InvalidRequest"
  const NotImplemented := "not implemented"

  /* ---------------- ListObjectsV2 ---------------- */

  /** A key under `prefix` whose remainder holds the delimiter "/". */
  predicate Nested(k: string, prefix: string) {
    HasPrefix(k, prefix) && '/' in k[|prefix|..]
  }

  /** The common prefix a nested key rolls up into: the key up to and
      including the first "/" after the prefix. */
  function RollUp(k: string, prefix: string): (r: string)
    requires Nested(k, prefix)
    ensures |prefix| < |r| <= |k| && HasPrefix(r, prefix) && HasPrefix(k, r)
    ensures r[|r| - 1] == '/' && '/' !in r[|prefix|..|r| - 1]
  {
    var rest := k[|prefix|..];
    var j := IndexOf(rest, '/');
    var r := k[..|prefix| + j + 1];
    assert r[|prefix|..|r| - 1] == rest[..j];
    r
  }

  /** The keys a listing without delimiter returns. */
  function KeysUnder(keys: set<string>, prefix: string): set<string> {
    set k | k in keys && HasPrefix(k, prefix)
  }

  /** The Contents of a listing with delimiter "/": keys under the prefix
      with no further "/". */
  function Contents(keys: set<string>, prefix: string): set<string> {
    set k | k in keys && HasPrefix(k, prefix) && '/' !in k[|prefix|..]
  }

  /** The CommonPrefixes of a listing with delimiter "/". */
  function CommonPrefixes(keys: set<string>, prefix: string): set<string> {
    set k | k in keys && Nested(k, prefix) :: RollUp(k, prefix)
  }

  lemma MultisetOfSetSplit(s: set<string>, x: string)
    requires x in s
    ensures multiset(s) == multiset{x} + multiset(s - {x})
  {
    forall y ensures multiset(s)[y] == (multiset{x} + multiset(s - {x}))[y] {
      if y == x {
        assert y !in s - {x};
      } else {
        assert (y in s) == (y in s - {x});
      }
    }
  }

  lemma {:induction false} SortedEnumeration(s: set<string>)
    ensures exists xs :: Sorted(xs) && multiset(xs) == multiset(s)
    decreases |s|
  {
    if s == {} {
      assert Sorted([]) && multiset([]) == multiset(s);
    } else {
      var x :| x in s;
      SortedEnumeration(s - {x});
      var ys :| Sorted(ys) && multiset(ys) == multiset(s - {x});
      var zs := Sort([x] + ys);
      MultisetOfSetSplit(s, x);
      assert multiset(zs) == multiset(s);
    }
  }

  /** A set of keys in ascending order, as the service lists them. */
  ghost function Listing(s: set<string>): (r: seq<string>)
    ensures Sorted(r) && multiset(r) == multiset(s)
  {
    SortedEnumeration(s);
    var xs :| Sorted(xs) && multiset(xs) == multiset(s);
    xs
  }

  lemma ListingMembers(s: set<string>)
    ensures forall k :: k in Listing(s) <==> k in s
  {
    var r := Listing(s);
    forall k ensures k in r <==> k in s {
      assert k in r <==> multiset(r)[k] > 0;
      assert k in s <==> multiset(s)[k] > 0;
    }
  }

  /** A common prefix ends in "/" right after its first new segment, and
      some key of the bucket starts with it. */
  lemma CommonPrefixShape(keys: set<string>, prefix: string, d: string)
    requires d in CommonPrefixes(keys, prefix)
    ensures HasPrefix(d, prefix) && |d| > |prefix| && d[|d| - 1] == '/'
    ensures '/' !in d[|prefix|..|d| - 1]
    ensures exists k :: k in keys && HasPrefix(k, d)
  {
    var k :| k in keys && Nested(k, prefix) && d == RollUp(k, prefix);
  }

  /** No key is both a content and a common prefix of one listing. */
  lemma ContentsPrefixesDisjoint(keys: set<string>, prefix: string)
    ensures CommonPrefixes(keys, prefix) * Contents(keys, prefix) == {}
  {
    forall d | d in CommonPrefixes(keys, prefix) ensures d !in Contents(keys, prefix) {
      CommonPrefixShape(keys, prefix, d);
      assert d[|prefix|..][|d| - 1 - |prefix|] == '/';
    }
  }

  /** A directory marker one level below the prefix shows up as a common
      prefix of that listing. */
  lemma MarkerIsCommonPrefix(keys: set<string>, prefix: string, name: string)
    requires '/' !in name && prefix + name + "/" in keys
    ensures prefix + name + "/" in CommonPrefixes(keys, prefix)
  {
    var k := prefix + name + "/";
    assert k[..|prefix|] == prefix;
    var rest := k[|prefix|..];
    assert rest == name + "/";
    assert rest[|name|] == '/';
    var j := IndexOf(rest, '/');
    assert j == |name|;
    assert k[..|prefix| + j + 1] == k;
    assert RollUp(k, prefix) == k;
  }

  /** A file one level below the prefix shows up among the contents. */
  lemma FileIsContent(keys: set<string>, prefix: string, name: string)
    requires '/' !in name && prefix + name in keys
    ensures prefix + name in Contents(keys, prefix)
  {
    var k := prefix + name;
    assert k[..|prefix|] == prefix && k[|prefix|..] == name;
  }

  /* ---------------- Listings of the backend ---------------- */

  /** The sequence with every occurrence of `p` skipped, in order. */
  function Without(xs: seq<string>, p: string): seq<string> {
    if xs == [] then []
    else Without(xs[..|xs| - 1], p) + (if xs[|xs| - 1] == p then [] else [xs[|xs| - 1]])
  }

  lemma WithoutStep(xs: seq<string>, i: nat, p: string)
    requires i < |xs|
    ensures Without(xs[..i + 1], p) == Without(xs[..i], p) + (if xs[i] == p then [] else [xs[i]])
  {
    assert xs[..i + 1][..i] == xs[..i];
  }

  lemma {:induction false} WithoutCounts(xs: seq<string>, p: string)
    ensures forall y :: multiset(Without(xs, p))[y] == if y == p then 0 else multiset(xs)[y]
  {
    if xs != [] {
      var init, last := xs[..|xs| - 1], xs[|xs| - 1];
      WithoutCounts(init, p);
      assert xs == init + [last];
    }
  }

  /** Skipping entries keeps a sequence sorted. */
  lemma {:induction false} WithoutSorted(xs: seq<string>, p: string)
    requires Sorted(xs)
    ensures Sorted(Without(xs, p))
  {
    if xs != [] {
      var init, last := xs[..|xs| - 1], xs[|xs| - 1];
      WithoutSorted(init, p);
      WithoutCounts(init, p);
      var w := Without(init, p);
      forall i | 0 <= i < |w| ensures Le(w[i], last) {
        assert multiset(w)[w[i]] > 0;
        assert w[i] in init;
      }
    }
  }

  /** FilesList's result: the contents of the listing, the directory's own
      marker skipped. */
  ghost function FilesOf(objects: Objects, prefix: string): seq<string> {
    Without(Listing(Contents(objects.Keys, prefix)), prefix)
  }

  /** DirectoriesList's result: the common prefixes, in listing order. */
  ghost function DirectoriesOf(objects: Objects, prefix: string): seq<string> {
    Listing(CommonPrefixes(objects.Keys, prefix))
  }

  /** List's result, as a set: the common prefixes and the contents other
      than the marker, in ascending order. */
  ghost function EntriesOf(objects: Objects, prefix: string): seq<string> {
    Listing(CommonPrefixes(objects.Keys, prefix) + (Contents(objects.Keys, prefix) - {prefix}))
  }

  /** FilesList lists exactly the contents other than the marker. */
  lemma FilesOfMembers(objects: Objects, prefix: string)
    ensures forall k :: k in FilesOf(objects, prefix) <==> k in Contents(objects.Keys, prefix) && k != prefix
    ensures multiset(FilesOf(objects, prefix)) == multiset(Contents(objects.Keys, prefix) - {prefix})
  {
    var c := Contents(objects.Keys, prefix);
    var xs := Listing(c);
    WithoutCounts(xs, prefix);
    var f := Without(xs, prefix);
    forall y ensures multiset(f)[y] == multiset(c - {prefix})[y] {
      assert (y in c - {prefix}) == (y in c && y != prefix);
    }
    forall k ensures k in f <==> k in c && k != prefix {
      assert k in f <==> multiset(f)[k] > 0;
      assert k in c - {prefix} <==> multiset(c - {prefix})[k] > 0;
    }
  }

  /** The marker of the listed directory is never among the files. */
  lemma MarkerNeverListed(objects: Objects, dir: string)
    ensures ToValidS3DirPath(dir) !in FilesOf(objects, ToValidS3DirPath(dir))
  {
    FilesOfMembers(objects, ToValidS3DirPath(dir));
  }

  /** List sorts the concatenation of the two listings, and that is the
      ascending listing of their union. */
  lemma ListIsSortedMerge(objects: Objects, prefix: string)
    ensures Sort(DirectoriesOf(objects, prefix) + FilesOf(objects, prefix)) == EntriesOf(objects, prefix)
  {
    var cp, c := CommonPrefixes(objects.Keys, prefix), Contents(objects.Keys, prefix);
    var dirs, files := DirectoriesOf(objects, prefix), FilesOf(objects, prefix);
    FilesOfMembers(objects, prefix);
    ContentsPrefixesDisjoint(objects.Keys, prefix);
    var union := cp + (c - {prefix});
    assert multiset(dirs + files) == multiset(union) by {
      forall y ensures multiset(dirs + files)[y] == multiset(union)[y] {
        assert multiset(dirs + files)[y] == multiset(cp)[y] + multiset(c - {prefix})[y];
        assert !(y in cp && y in c - {prefix});
      }
    }
    SortedUnique(Sort(dirs + files), EntriesOf(objects, prefix));
  }

  /** The listing of entries holds exactly the sub-directory prefixes and
      the files. */
  lemma EntriesOfMembers(objects: Objects, prefix: string)
    ensures forall k :: k in EntriesOf(objects, prefix) <==>
      k in CommonPrefixes(objects.Keys, prefix) || (k in Contents(objects.Keys, prefix) && k != prefix)
  {
    ListingMembers(CommonPrefixes(objects.Keys, prefix) + (Contents(objects.Keys, prefix) - {prefix}));
  }

  /** The listings report the service's failure with an empty result, and
      otherwise hold each entry once, in ascending order. */
  ghost function DirectoriesList(service: Service, objects: Objects, dir: string): (r: (seq<string>, Option<string>))
    ensures r.1.None? <==> !service.unavailable
    ensures r.1.Some? ==> r.0 == []
    ensures r.1.None? ==>
      Sorted(r.0) && multiset(r.0) == multiset(CommonPrefixes(objects.Keys, ToValidS3DirPath(dir)))
  {
    if service.unavailable then ([], Some(Unavailable))
    else (DirectoriesOf(objects, ToValidS3DirPath(dir)), None)
  }

  ghost function FilesList(service: Service, objects: Objects, dir: string): (r: (seq<string>, Option<string>))
    ensures r.1.None? <==> !service.unavailable
    ensures r.1.Some? ==> r.0 == []
    ensures var prefix := ToValidS3DirPath(dir);
      r.1.None? ==> Sorted(r.0) && multiset(r.0) == multiset(Contents(objects.Keys, prefix) - {prefix})
  {
    var prefix := ToValidS3DirPath(dir);
    FilesOfMembers(objects, prefix);
    WithoutSorted(Listing(Contents(objects.Keys, prefix)), prefix);
    if service.unavailable then ([], Some(Unavailable))
    else (FilesOf(objects, prefix), None)
  }

  ghost function List(service: Service, objects: Objects, dir: string): (r: (seq<string>, Option<string>))
    ensures r.1.None? <==> !service.unavailable
    ensures r.1.Some? ==> r.0 == []
    ensures var prefix := ToValidS3DirPath(dir);
      r.1.None? ==>
        Sorted(r.0) &&
        multiset(r.0) == multiset(CommonPrefixes(objects.Keys, prefix) + (Contents(objects.Keys, prefix) - {prefix}))
  {
    if service.unavailable then ([], Some(Unavailable))
    else (EntriesOf(objects, ToValidS3DirPath(dir)), None)
  }

  /* ---------------- Objects ---------------- */

  /** PutObject. */
  function Put(service: Service, objects: Objects, key: string, content: seq<byte>): (r: (Objects, Option<string>))
    ensures r.1.None? <==> !service.unavailable
    ensures r.1.None? ==> r.0.Keys == objects.Keys + {key} && r.0[key] == content
    ensures forall k :: k in objects && k != key ==> k in r.0 && r.0[k] == objects[k]
    ensures r.1.Some? ==> r.0 == objects
  {
    if service.unavailable then (objects, Some(Unavailable))
    else (objects[key := content], None)
  }

  /** The key of a directory's marker: the path with one "/" at the end. */
  function MarkerKey(dirPath: string): (r: string)
    ensures HasSuffix(r, "/")
    ensures HasSuffix(dirPath, "/") ==> r == dirPath
    ensures !HasSuffix(dirPath, "/") ==> r == dirPath + "/"
  {
    if HasSuffix(dirPath, "/") then dirPath else dirPath + "/"
  }

  lemma MarkerKeyIdempotent(dirPath: string)
    ensures MarkerKey(MarkerKey(dirPath)) == MarkerKey(dirPath)
  {
  }

  /** DirectoryCreate: an empty object at the marker key. */
  function DirectoryCreate(service: Service, objects: Objects, dirPath: string): (r: (Objects, Option<string>))
    ensures r.1.None? <==> !service.unavailable
    ensures r.1.None? ==>
      r.0.Keys == objects.Keys + {MarkerKey(dirPath)} && r.0[MarkerKey(dirPath)] == [] && HasSuffix(MarkerKey(dirPath), "/")
    ensures forall k :: k in objects && k != MarkerKey(dirPath) ==> k in r.0 && r.0[k] == objects[k]
    ensures r.1.Some? ==> r.0 == objects
  {
    Put(service, objects, MarkerKey(dirPath), [])
  }

  /** A created directory one level below a listed one appears among its
      sub-directories. */
  lemma DirectoryCreateListed(service: Service, objects: Objects, dir: string, name: string)
    requires !service.unavailable && name != "" && '/' !in name
    ensures var prefix := ToValidS3DirPath(dir);
      var after := DirectoryCreate(service, objects, prefix + name).0;
      prefix + name + "/" in DirectoriesList(service, after, dir).0
  {
    var prefix := ToValidS3DirPath(dir);
    var path := prefix + name;
    var marker := prefix + name + "/";
    var after := DirectoryCreate(service, objects, path).0;
    assert marker in after.Keys by {
      assert path[|path| - 1] == name[|name| - 1];
      assert MarkerKey(path) == marker;
    }
    assert marker in CommonPrefixes(after.Keys, prefix) by {
      MarkerIsCommonPrefix(after.Keys, prefix, name);
    }
    ListingMembers(CommonPrefixes(after.Keys, prefix));
  }

  /** A file put one level below a listed directory appears among its files. */
  lemma FilePutListed(service: Service, objects: Objects, dir: string, name: string, content: seq<byte>)
    requires !service.unavailable && name != "" && '/' !in name
    ensures var prefix := ToValidS3DirPath(dir);
      var after := Put(service, objects, prefix + name, content).0;
      prefix + name in FilesList(service, after, dir).0
  {
    var prefix := ToValidS3DirPath(dir);
    var after := Put(service, objects, prefix + name, content).0;
    FileIsContent(after.Keys, prefix, name);
    FilesOfMembers(after, prefix);
  }

  /** GetObject. */
  function Read(service: Service, objects: Objects, key: string): (r: Result<seq<byte>>)
    ensures r.Ok? <==> !service.unavailable && key in objects
    ensures r.Ok? ==> r.value == objects[key]
    ensures !service.unavailable && key !in objects ==> r == Err(NoSuchKey)
  {
    if service.unavailable then Err(Unavailable)
    else if key !in objects then Err(NoSuchKey)
    else Ok(objects[key])
  }

  lemma PutThenRead(service: Service, objects: Objects, key: string, content: seq<byte>)
    requires !service.unavailable
    ensures Read(service, Put(service, objects, key, content).0, key) == Ok(content)
  {
  }

  /** Exists, through HeadObject: true exactly when the request succeeds. */
  function Exists(service: Service, objects: Objects, key: string): (r: (bool, Option<string>))
    ensures r.0 <==> r.1.None?
    ensures r.0 <==> !service.unavailable && key in objects
  {
    if service.unavailable then (false, Some(Unavailable))
    else if key !in objects then (false, Some(NotFound))
    else (true, None)
  }

  /** Missing: the negation of Exists, with its error. */
  function Missing(service: Service, objects: Objects, key: string): (r: (bool, Option<string>))
    ensures r.0 <==> service.unavailable || key !in objects
    ensures r.0 <==> r.1.Some?
  {
    var (found, err) := Exists(service, objects, key);
    (!found, err)
  }

  /** Missing answers true, with an error, when the service fails: a failed
      request is not told apart from an absent key by the flag alone. */
  lemma MissingOnFailure(service: Service, objects: Objects, key: string)
    ensures Missing(service, objects, key).0 == !Exists(service, objects, key).0
    ensures Missing(service, objects, key).1 == Exists(service, objects, key).1
    ensures Missing(service, objects, key).0 <==> service.unavailable || key !in objects
  {
  }

  /** CopyObject within the bucket. The service refuses to copy a key onto
      itself unchanged. */
  function Copy(service: Service, objects: Objects, origin: string, target: string): (r: (Objects, Option<string>))
    ensures r.1.None? <==> !service.unavailable && origin in objects && origin != target
    ensures r.1.None? ==> r.0 == objects[target := objects[origin]]
    ensures r.1.Some? ==> r.0 == objects
  {
    if service.unavailable then (objects, Some(Unavailable))
    else if origin !in objects then (objects, Some(NoSuchKey))
    else if origin == target then (objects, Some(CopyToItself))
    else (objects[target := objects[origin]], None)
  }

  /** FileDelete through DeleteObjects: the keys the service accepts are
      removed. Quiet mode leaves the deleted keys out of the response, but
      the response still lists each refused key; the caller discards it, so
      only a failed request is an error. */
  function DeleteBatch(service: Service, objects: Objects, keys: seq<string>): (r: (Objects, Option<string>))
    ensures r.1.None? <==> !service.unavailable
    ensures forall k :: k in r.0 <==> k in objects && (r.1.Some? || k !in keys || k in service.locked)
    ensures forall k :: k in r.0 ==> r.0[k] == objects[k]
  {
    if service.unavailable then (objects, Some(Unavailable))
    else (map k | k in objects && (k !in keys || k in service.locked) :: objects[k], None)
  }

  /** The batch reports success even when a key it was asked to delete is
      still there, since the per-key errors are dropped with the response. */
  lemma DeleteBatchHidesRefusal(service: Service, objects: Objects, key: string)
    requires !service.unavailable && key in objects && key in service.locked
    ensures DeleteBatch(service, objects, [key]) == (objects, None)
  {
    var r := DeleteBatch(service, objects, [key]).0;
    assert r.Keys == objects.Keys;
    assert forall k :: k in r ==> r[k] == objects[k];
    assert r == objects;
  }

  /** FileMove: copy, then delete the origin; a failed copy deletes nothing. */
  function FileMove(service: Service, objects: Objects, oldFile: string, newFile: string): (r: (Objects, Option<string>))
    ensures r.1.None? <==> !service.unavailable && oldFile in objects && oldFile != newFile
    ensures r.1.Some? ==> r.0 == objects
    ensures r.1.None? ==>
      newFile in r.0 && r.0[newFile] == objects[oldFile] && (oldFile in r.0 <==> oldFile in service.locked)
    ensures forall k :: k != oldFile && k != newFile ==>
      (k in r.0 <==> k in objects) && (k in r.0 ==> r.0[k] == objects[k])
  {
    var (copied, err) := Copy(service, objects, oldFile, newFile);
    if err.Some? then (copied, err)
    else DeleteBatch(service, copied, [oldFile])
  }

  lemma FileMoveMoves(service: Service, objects: Objects, oldFile: string, newFile: string)
    requires !service.unavailable && oldFile in objects && oldFile != newFile
    requires oldFile !in service.locked
    ensures var (after, err) := FileMove(service, objects, oldFile, newFile);
      err.None? && newFile in after && after[newFile] == objects[oldFile] && oldFile !in after &&
      forall k :: k != oldFile && k != newFile ==> (k in after <==> k in objects)
  {
  }

  lemma FileMoveFailedCopy(service: Service, objects: Objects, oldFile: string, newFile: string)
    requires service.unavailable || oldFile !in objects || oldFile == newFile
    ensures FileMove(service, objects, oldFile, newFile).0 == objects
    ensures FileMove(service, objects, oldFile, newFile).1.Some?
  {
  }

  /** The item loop of DirectoryDelete: keys removed one at a time, stopping
      at the first one the service refuses. */
  function DeleteEach(service: Service, objects: Objects, keys: seq<string>): (r: (Objects, Option<string>))
    ensures forall k :: k in r.0 ==> k in objects && r.0[k] == objects[k]
    ensures forall k :: k in objects && k !in keys ==> k in r.0
    ensures forall k :: k in objects && k in service.locked ==> k in r.0
    ensures r.1.None? <==> forall i :: 0 <= i < |keys| ==> keys[i] !in service.locked
    ensures r.1.Some? ==> r.1 == Some(AccessDenied)
    ensures r.1.None? ==> forall k :: k in keys ==> k !in r.0
    decreases |keys|
  {
    if keys == [] then (objects, None)
    else if keys[0] in service.locked then (objects, Some(AccessDenied))
    else
      var rest := DeleteEach(service, objects - {keys[0]}, keys[1..]);
      assert forall i :: 1 <= i < |keys| ==> keys[i] == keys[1..][i - 1];
      rest
  }

  /** The loop stops at the first refused key: the keys listed before it
      are gone, and that key and every key listed after it stay. */
  lemma {:induction false} DeleteEachStops(service: Service, objects: Objects, keys: seq<string>, j: nat)
    requires j < |keys| && keys[j] in service.locked
    requires forall i :: 0 <= i < j ==> keys[i] !in service.locked
    ensures var (after, err) := DeleteEach(service, objects, keys);
      err == Some(AccessDenied) && forall k :: k in after <==> k in objects && k !in keys[..j]
    decreases j
  {
    if j > 0 {
      var rest := keys[1..];
      assert rest[j - 1] == keys[j];
      assert forall i :: 0 <= i < j - 1 ==> rest[i] == keys[i + 1];
      DeleteEachStops(service, objects - {keys[0]}, rest, j - 1);
      assert keys[..j] == [keys[0]] + rest[..j - 1];
    }
  }

  /** Two positions of a listing hold different keys. */
  lemma ListingDistinct(s: set<string>, i: nat, j: nat)
    requires i < j < |Listing(s)|
    ensures Listing(s)[i] != Listing(s)[j]
  {
    var r := Listing(s);
    assert r == r[..j] + [r[j]] + r[j + 1..];
    assert r[i] in r[..j];
    assert multiset(r)[r[j]] == multiset(r[..j])[r[j]] + 1 + multiset(r[j + 1..])[r[j]];
    assert multiset(s)[r[j]] <= 1;
  }

  /** DirectoryDelete: every key under the directory's marker, in ascending
      order, one page. Nothing outside the directory is touched and no value
      changes. */
  ghost function DirectoryDelete(service: Service, objects: Objects, directory: string): (r: (Objects, Option<string>))
    ensures forall k :: k in r.0 ==> k in objects && r.0[k] == objects[k]
    ensures forall k :: k in objects && !HasPrefix(k, MarkerKey(directory)) ==> k in r.0
    ensures service.unavailable ==> r == (objects, Some(Unavailable))
    ensures r.1.Some? ==> r.1 == Some(Unavailable) || r.1 == Some(AccessDenied)
  {
    var prefix := MarkerKey(directory);
    if service.unavailable then (objects, Some(Unavailable))
    else
      var keys := Listing(KeysUnder(objects.Keys, prefix));
      ListingMembers(KeysUnder(objects.Keys, prefix));
      if |keys| == 0 then (objects, None)
      else DeleteEach(service, objects, keys)
  }

  /** With no refused key under it, the whole directory goes, marker included. */
  lemma DirectoryDeleteComplete(service: Service, objects: Objects, directory: string)
    requires !service.unavailable
    requires forall k :: k in objects && HasPrefix(k, MarkerKey(directory)) ==> k !in service.locked
    ensures var (after, err) := DirectoryDelete(service, objects, directory);
      err.None? && forall k :: k in after <==> k in objects && !HasPrefix(k, MarkerKey(directory))
  {
    var prefix := MarkerKey(directory);
    var under := KeysUnder(objects.Keys, prefix);
    ListingMembers(under);
    var keys := Listing(under);
    assert forall i :: 0 <= i < |keys| ==> keys[i] in under;
  }

  /** A refused key under the directory makes the call fail. The keys are
      deleted in ascending order, so exactly the keys under the directory
      that sort before the least refused one are gone. */
  lemma DirectoryDeleteStops(service: Service, objects: Objects, directory: string, key: string)
    requires !service.unavailable
    requires key in objects && HasPrefix(key, MarkerKey(directory)) && key in service.locked
    requires forall k :: k in objects && HasPrefix(k, MarkerKey(directory)) && k in service.locked ==> Le(key, k)
    ensures var (after, err) := DirectoryDelete(service, objects, directory);
      err == Some(AccessDenied) &&
      forall k :: k in after <==> k in objects && (!HasPrefix(k, MarkerKey(directory)) || Le(key, k))
  {
    var prefix := MarkerKey(directory);
    var under := KeysUnder(objects.Keys, prefix);
    ListingMembers(under);
    var keys := Listing(under);
    assert key in keys;
    var j :| 0 <= j < |keys| && keys[j] == key;
    forall i | 0 <= i < j ensures keys[i] !in service.locked && !Le(key, keys[i]) {
      ListingDistinct(under, i, j);
      assert Le(keys[i], key);
      assert keys[i] in under;
      if Le(key, keys[i]) {
        LeAntisymmetric(key, keys[i]);
      }
    }
    DeleteEachStops(service, objects, keys, j);
    var after := DirectoryDelete(service, objects, directory).0;
    forall k ensures k in after <==> k in objects && (!HasPrefix(k, prefix) || Le(key, k)) {
      if k in objects && HasPrefix(k, prefix) {
        assert k in keys;
        var m :| 0 <= m < |keys| && keys[m] == k;
        if m < j {
          assert k in keys[..j];
        } else {
          if m > j {
            assert Le(keys[j], keys[m]);
          } else {
            LeReflexive(key);
          }
          assert k !in keys[..j];
        }
      } else if k in objects {
        assert k !in under;
        assert k !in keys[..j];
      }
    }
  }

  /** An empty directory (nothing under its marker) is deleted trivially. */
  lemma DirectoryDeleteNothingUnder(service: Service, objects: Objects, directory: string)
    requires !service.unavailable
    requires forall k :: k in objects ==> !HasPrefix(k, MarkerKey(directory))
    ensures DirectoryDelete(service, objects, directory) == (objects, None)
  {
    var under := KeysUnder(objects.Keys, MarkerKey(directory));
    assert under == {};
    assert multiset(Listing(under)) == multiset{};
  }
}
