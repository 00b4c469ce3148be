# A verified model of the gouniverse filesystem storages

The Go package `filesystem` offers one storage interface with three
backends, chosen by a disk description:

- **SQL storage** keeps a tree of files and directories in a database
  table. There is one record per entry. Each record links to its directory
  by a parent id, stores its full path redundantly, keeps file contents as
  base 64 text and sizes as decimal text, and is removed by setting a
  soft-delete flag.
- **S3 storage** keeps a flat map from object keys to bytes. Directories
  exist only as key prefixes, or as an empty "marker" object whose key ends
  in `/`. Listings are the delimiter-`/` listings of S3.
- **Static storage** only builds URLs. Every other operation fails.
- **The factory** `NewStorage` checks a disk description and builds one of
  the three.

The model is organised as follows.

- `Records` (records.dfy) holds the SQL table as a `seq<Record>`.
  - `Valid` says that ids are row numbers and that a live record's path is
    its parent's path, a separator and its name.
  - `Tidy` says that live paths are unique and that parents are
    directories.
  - The module also holds the record queries and the specification of the
    recursive directory delete.
- `SqlOps` specifies every SQL operation as a function from a table to a
  new table and an optional error, with the source's own error texts.
- `SqlBackend.SqlStorage` is a class whose `records` field the methods
  reassign. Each method is proved equal to its specification function. The
  recursive delete and the listing loops are written as the source writes
  them.
- `DeleteProps` proves what the recursive delete does:
  - it only sets delete flags;
  - it touches nothing outside the deleted subtree;
  - on a tidy tree it deletes every descendant;
  - a second delete changes nothing.
- `S3Ops` specifies the S3 operations over `map<string, seq<byte>>` and a
  `Service` value.
  - The `Service` value stands for the remote side: whether calls fail,
    and which keys refuse deletion.
  - A listing is the sorted enumeration of a set of keys.
  - Module `S3Backend` holds the class whose methods are proved against
    those functions.
- `S3Paths` holds the S3 path helpers:
  - `toValidS3DirPath`;
  - the endpoint derivation of the client;
  - URL joining;
  - `path.Ext`, `path.Base` and `fullPathOfFile`.
- `Static` models the static backend as a value type. Its storage is never
  updated.
- `Factory` models `NewStorage` and `NewSqlStorage`.
- `Base64` models Go's `base64.StdEncoding`. It proves that decoding an
  encoding gives back the input.
- `Decimal` models the decimal size text and `strconv.ParseInt`. It proves
  that they round-trip. It also proves which error `ParseInt` reports: its
  digit loop gives the error for whichever comes first, a character that is
  not a digit or a digit that overflows 64 bits.
- `Strings` and `Sorting` are support modules; only the `Strings` lemma
  about removing `https://` has a row of its own:
  - `Strings` holds the Go `strings` functions the code relies on (`Split`,
    `Join`, `Trim*`, `TrimPrefix`/`TrimSuffix`, removal of every
    occurrence of a substring);
  - `Sorting` is `sort.Strings`, as an insertion sort with a uniqueness
    lemma.

Where the code behaves differently from what its names suggest, the model
follows the code and proves the behaviour:

- An SQL `FileDelete` of a file soft-deletes it and then returns the error
  "not a file or directory", which leaves the remaining paths untouched.
- `findParentDirectoryFromPath` prefixes the root to a path that is already
  rooted. So `"/a/b.txt"` looks up `"//a"`.
- `toValidS3DirPath` is not idempotent.
- S3 `FileDelete` discards the `DeleteObjects` response, which lists each
  key the service refused. A refused key therefore gives no error.
- The S3 endpoint is computed from the disk URL by removing every
  `https://`, then a leading `<bucket>.`, then a trailing `/<bucket>`.

## Model

| member | source | states |
|---|---|---|
| SqlPaths.FixPath | SqlStorage.go:632-638 | the result is rooted; a rooted path is unchanged and any other gets exactly one separator in front |
| SqlPaths.FixPathIdempotent | SqlStorage.go:632-638 | rooting a rooted path changes nothing |
| SqlPaths.FindFileName | SqlStorage.go:670-678 | the name holds no separator and is the last separator-delimited piece of the path trimmed of separators at both ends |
| SqlPaths.FindExtension | SqlStorage.go:647-661 | the extension holds no dot or separator; it is empty when the name has no dot, and otherwise it is the text right after the name's first dot, up to the next dot or the end |
| SqlPaths.ParentLookupPath | SqlStorage.go:77-85 | the looked-up directory is the root followed by everything before the last separator, and just the root for a path without a separator |
| SqlPaths.ParentOfRelative | SqlStorage.go:78-84 | a path `x/y` whose last segment `y` holds no separator looks up its parent as `/x` |
| SqlPaths.FileNameOf | SqlStorage.go:670-678 | the name of `x/y` is `y` for any non-empty last segment `y` |
| SqlPaths.ParentOfRooted | SqlStorage.go:78-84 | a rooted path `/x/y` looks up its parent as `//x`, because the root is added to an already rooted path |
| Records.FindByPath | SqlStorage.go:216-221 | the lookup finds the first live record with exactly the given path, and None only when no live record has it |
| Records.LiveChildrenMembers | SqlStorage.go:235-242 | a record is among a directory's children exactly when it is live, has that parent and matches the kind filter |
| Records.ChildPathsMembers | SqlStorage.go:113-118 | a path is among the children's paths exactly when a live record of that parent and kind is stored at it |
| Records.ChildrenSplit | SqlStorage.go:564-568 | the paths of a directory's children of both kinds are, as a multiset, those of its directories plus those of its files |
| Records.SoftDeleteFlagsOnly | SqlStorage.go:259 | a soft delete changes only delete flags |
| Records.FlagsOnlyKeeps | SqlStorage.go:259 | changing only delete flags keeps a table valid, tidy and within its path bound |
| Records.DeleteTree | SqlStorage.go:215-269 | the recursive directory delete only ever sets delete flags |
| Records.DeleteChildren | SqlStorage.go:248-264 | the loop over a directory's children only ever sets delete flags |
| Records.DeleteTreeDirectory | SqlStorage.go:231-269 | deleting a live directory deletes its children in order and then soft-deletes the directory, unless a child fails |
| Records.DirectoryDeleteSpec | SqlStorage.go:215-269 | the directory delete, run on a consistent table, only sets delete flags |
| DeleteProps.DeleteTreeScope | SqlStorage.go:215-269 | every record the recursive delete changes has the deleted path or lies below it |
| DeleteProps.DeleteChildrenScope | SqlStorage.go:248-264 | the loop over the children of a directory changes only records at or below that directory |
| DeleteProps.DeleteChildrenTidy | SqlStorage.go:248-264 | on a tidy tree the loop over the children never fails, orphans nothing, and leaves every child it was given deleted |
| DeleteProps.DeleteTreeTidy | SqlStorage.go:215-269 | on a tidy tree the delete leaves no live record under a deleted directory; it fails exactly when the path names a file, and on success the path is gone |
| DeleteProps.ClosedDeletesDescendants | SqlStorage.go:248-266 | once a directory is deleted, each record reachable from it through parent links is deleted too |
| DeleteProps.DirectoryDeleteRemovesSubtree | SqlStorage.go:215-269 | deleting a directory in a tidy tree succeeds, and afterwards the directory and all its descendants are deleted |
| DeleteProps.DirectoryDeleteScope | SqlStorage.go:215-269 | the directory delete changes nothing outside the subtree of the given path |
| DeleteProps.DirectoryDeleteNotADirectory | SqlStorage.go:227-233 | a missing path is a success that changes nothing, and a file is refused with "not a directory" and no change |
| DeleteProps.DirectoryDeleteIdempotent | SqlStorage.go:215-269 | on a tidy tree, deleting the same path a second time changes nothing and reports what the first delete reported |
| SqlOps.Exists | SqlStorage.go:426-443 | a path exists exactly when some live record has the rooted form of that path |
| SqlOps.ExistsRooted | SqlStorage.go:426-427 | asking for the rooted path gives the same answer as asking for the raw path |
| SqlOps.FindParentDirectory | SqlStorage.go:77-97 | the parent found is a live record at the lookup path, and None means no live record has that path |
| SqlOps.DirectoryCreate | SqlStorage.go:177-212 | an existing path is refused and a missing parent is refused, each with its own error and no change; otherwise a directory record is appended under the parent, with the parent's path, a separator and the last name |
| SqlOps.DirectoryCreateKeepsValid | SqlStorage.go:198-205 | creating a directory keeps the table consistent |
| SqlOps.DirectoryCreateThenExists | SqlStorage.go:177-212 | after a successful create whose stored path is its rooted path, the directory exists |
| SqlPaths.StoredPathRelative | SqlStorage.go:198-203 | a relative path `x/y` is stored under its parent's path, a separator and its name, which is exactly its rooted form `/x/y` |
| SqlPaths.StoredPathRooted | SqlStorage.go:198-203 | a rooted path `/x/y` is stored as `//x/y`, one separator more than its rooted form `/x/y` |
| SqlOps.FilePut | SqlStorage.go:459-490 | a missing parent is refused without change; otherwise a file record is appended under the parent, holding the name, the base 64 contents, the extension and the decimal size |
| SqlOps.FilePutKeepsValid | SqlStorage.go:473-483 | putting a file keeps the table consistent |
| SqlOps.FileRead | SqlStorage.go:492-510 | a missing path gives "file not found"; otherwise the result is the base 64 decoding of the stored contents |
| SqlOps.FilePutThenRead | SqlStorage.go:459-510 | when no live record already has the stored path, reading back the file just put gives exactly the bytes that were written, and its size reads back as their count |
| Base64.DecodeEncode | SqlStorage.go:470 | decoding the stored base 64 text gives back exactly the bytes that were encoded |
| Base64.Encode | SqlStorage.go:470 | the encoding has four characters for every three bytes or part of three, and no line breaks |
| Base64.Decode | SqlStorage.go:503 | a successful decoding comes from a text of four characters for every three bytes or part of three once line breaks are skipped, so any other length is an error |
| Decimal.ParseNatToString | SqlStorage.go:481 | a size stored as decimal text reads back as the same number through `ParseInt` |
| Decimal.NatToString | SqlStorage.go:481 | the size text is a non-empty string of decimal digits without a leading zero |
| Decimal.ParseInt | SqlStorage.go:284 | parsing succeeds exactly for an optional sign followed by digits whose signed value fits in 64 bits, giving that value; every failure is the syntax error or the range error, with the input quoted, and digits alone that do not fit give the range error |
| Decimal.ParseIntOverflowFirst | SqlStorage.go:284 | a digit that takes the value past 2^64 - 1 decides the range error, whatever characters follow it |
| Decimal.ParseIntBadCharFirst | SqlStorage.go:284 | a character that is not a digit, after digits that still fit in 64 unsigned bits, decides the syntax error |
| SqlOps.RecordSize | SqlStorage.go:271-291 | an empty size reads as 0, a decimal size reads as its value, and text that does not parse gives -1 and the parse error; this models FileSize (lines 512-532) as well |
| SqlOps.RecordUrl | SqlStorage.go:293-307 | the URL is the stored path, with the configured base URL in front when one is set; this models FileUrl (lines 534-548) as well |
| SqlOps.DirectoryCopy | SqlStorage.go:137-153 | a missing path gives "path not found", a file gives "not a directory", and a directory gives "not implemented" |
| SqlOps.FileCopy | SqlStorage.go:309-345 | a missing origin and a directory origin are refused without change; otherwise a copy of the origin's name, contents, size and extension is appended under the target's parent directory |
| SqlOps.FileCopyKeepsValid | SqlStorage.go:330-338 | a copy keeps the table consistent |
| SqlOps.FindAppended | SqlStorage.go:492-500 | a live record added at a path no other live record has is the one the path lookup finds |
| SqlOps.FileCopyThenRead | SqlStorage.go:309-345 | when no live record already has the copy's path, the copy reads back the same bytes as the origin |
| SqlOps.Move | SqlStorage.go:587-630 | equal paths, a missing origin and a missing target directory are each refused without change; otherwise only the origin record changes, getting the target directory as parent, the target's last name, and the matching path |
| SqlOps.MoveKeepsValid | SqlStorage.go:619-623 | moving a record that has no live children to another directory keeps the table consistent |
| SqlOps.MoveStalesChildren | SqlStorage.go:619-629 | moving a directory that has a live child to a new path leaves that child's stored path stale, so the table is no longer consistent until it is recalculated |
| SqlOps.DeletePaths | SqlStorage.go:347-386 | deleting a list of paths only ever sets delete flags |
| SqlOps.FileDelete | SqlStorage.go:347-386 | deleting a list of paths only ever sets delete flags |
| SqlOps.DeletePathsMissing | SqlStorage.go:361-363 | when none of the paths exists, nothing changes and no error is returned |
| SqlOps.DeletePathsSkip | SqlStorage.go:361-363 | a path that names no live record is skipped wherever it stands in the list, and the loop goes on with the paths after it |
| SqlOps.DeletePathsDirectory | SqlStorage.go:365-373 | a path that names a directory deletes its tree; a failure of that delete ends the loop with its error, and otherwise the loop goes on with the remaining paths on the table it left |
| SqlOps.FileDeleteDirectory | SqlStorage.go:365-373 | deleting a single directory path is exactly DirectoryDelete of that path |
| SqlOps.FileDeleteStopsAtFile | SqlStorage.go:375-383 | when the first path is a file, that file is soft-deleted and the call stops with "not a file or directory: " and the path |
| SqlOps.DeletePathsScope | SqlStorage.go:347-386 | every record that changes lies at or below one of the given paths |
| SqlOps.ListChildren | SqlStorage.go:551-585 | a missing directory gives "directory not found"; otherwise the result is the sorted paths of exactly the live children of the rooted directory that match the kind filter |
| SqlOps.ListChildrenMembers | SqlStorage.go:100-135 | a path is listed exactly when a live child of the directory with the right kind has it |
| SqlOps.ListChildrenEmpty | SqlStorage.go:124-126 | a directory with no matching live child lists as the empty list |
| SqlOps.ListIsDirectoriesAndFiles | SqlStorage.go:551-585 | the full list is sorted and, as a multiset, is the directory list plus the file list |
| SqlBackend.SqlStorage.DirectoryCreate | SqlStorage.go:177-212 | the new table and the error are those of `SqlOps.DirectoryCreate` |
| SqlBackend.SqlStorage.FilePut | SqlStorage.go:459-490 | the new table and the error are those of `SqlOps.FilePut` |
| SqlBackend.SqlStorage.FileCopy | SqlStorage.go:309-345 | the new table and the error are those of `SqlOps.FileCopy` |
| SqlBackend.SqlStorage.Move | SqlStorage.go:587-630 | the new table and the error are those of `SqlOps.Move` |
| SqlBackend.SqlStorage.DeleteTreeAt | SqlStorage.go:215-269 | the recursive method leaves exactly the table and the error of the `DeleteTree` specification |
| SqlBackend.SqlStorage.DirectoryDelete | SqlStorage.go:215-269 | the new table and the error are those of `DirectoryDeleteSpec` |
| SqlBackend.SqlStorage.FileDelete | SqlStorage.go:347-386 | the loop over the paths leaves the table and the error of `SqlOps.FileDelete` |
| SqlBackend.SqlStorage.DirectoriesList | SqlStorage.go:100-135 | the result is `SqlOps.ListChildren` restricted to directories |
| SqlBackend.SqlStorage.FilesList | SqlStorage.go:389-424 | the result is `SqlOps.ListChildren` restricted to files |
| SqlBackend.SqlStorage.List | SqlStorage.go:551-585 | the result is `SqlOps.ListChildren` with no kind filter |
| S3Paths.StripLeading | S3Storage.go:456-458 | exactly one leading `./`, then one `/`, then one `.` are dropped, each only when present and in that order, and the rest of the path is kept |
| S3Paths.ToValidS3DirPath | S3Storage.go:455-465 | the result is the stripped path, with one `/` appended exactly when that is non-empty and does not already end in `/`; so it is empty or ends in `/` |
| S3Paths.ToValidS3DirPathEmpty | S3Storage.go:455-465 | the result is empty exactly for the eight inputs "", ".", "/", "/.", "./", "./.", ".//" and ".//." |
| S3Paths.EmptyInput | S3Storage.go:455-465 | each of the eight inputs "", ".", "/", "/.", "./", "./.", ".//" and ".//." gives the empty prefix |
| S3Paths.StripLeadingPlain | S3Storage.go:456-458 | a path that starts with neither `.` nor `/` is unchanged, and loses one leading `./`, `/` or `.` |
| S3Paths.StripLeadingOnce | S3Storage.go:456-458 | each of the three prefixes is trimmed once only, so `././x` keeps `/x` |
| S3Paths.ToValidS3DirPathNotIdempotent | S3Storage.go:455-465 | `/..x` gives `.x/`, and normalising `.x/` again gives a different value, `x/` |
| S3Paths.Endpoint | S3Storage.go:32-34 | once every `https://` is removed, the text is the endpoint with the bucket label `<bucket>.` in front exactly when the text starts with it, and the bucket segment `/<bucket>` behind exactly when the rest ends with it; the endpoint is never longer than the URL |
| S3Paths.EndpointOfHost | S3Storage.go:32-34 | a plain `https://host` URL gives `host` |
| S3Paths.EndpointOfBucketHost | S3Storage.go:32-34 | a virtual-host URL `https://bucket.host` gives `host` |
| S3Paths.EndpointOfBucketPath | S3Storage.go:32-34 | a path-style URL `https://host/bucket` gives `host` |
| Strings.RemoveAllMayLeave | S3Storage.go:32 | one left-to-right pass that deletes a pattern leaves a fresh copy of it when the two characters before an occurrence and the text after it spell the pattern |
| S3Paths.RemoveAllMayLeaveScheme | S3Storage.go:32 | removing every `https://` in one pass can leave a new `https://` behind |
| S3Paths.JoinUrl | S3Storage.go:376-378 | a file URL is the disk URL without one trailing `/`, then `/`, then the path without one leading `/`; this models DirectoryUrl (lines 166-168) as well |
| S3Paths.JoinUrlKeepsDoubleSeparators | S3Storage.go:376-378 | only one separator is trimmed on each side, so doubled separators survive |
| S3Paths.Ext | S3Storage.go:468 | a non-empty extension is a suffix of the path that starts with its only dot and holds no `/`; an empty one means no dot appears in the last element |
| S3Paths.Base | S3Storage.go:477-479 | the base is "." for the empty path and "/" for a path of separators only; otherwise it is the whole last element, once trailing separators are dropped: a non-empty suffix without `/` that is all of the path or follows a `/` |
| S3Paths.FullPathOfFile | S3Storage.go:467-481 | a name with an extension always succeeds; a name without one fails exactly with the error of the source-file extension lookup |
| S3Paths.FullPathKeepsExtension | S3Storage.go:478-480 | when the name has an extension, the full path is the directory, `/`, and the whole last element of the name, which keeps the name's extension |
| S3Paths.LeafOfName | S3Storage.go:477-479 | a name that ends with a non-empty text free of `/` (its extension) does not end in `/`, so its last element is a suffix of the name, free of `/`, that is all of the name or follows a `/`, and ends with that text |
| S3Ops.RollUp | S3Storage.go:62-66 | a key nested below the prefix rolls up to the prefix plus its next path element and a `/` |
| S3Ops.Listing | S3Storage.go:69 | a listing is sorted and holds each key of the set exactly once |
| S3Ops.ListingMembers | S3Storage.go:69 | a key is listed exactly when it is in the set |
| S3Ops.CommonPrefixShape | S3Storage.go:75-78 | a listed directory extends the prefix by one element and a `/`, and some stored key lies under it |
| S3Ops.ContentsPrefixesDisjoint | S3Storage.go:62-69 | no key is both a listed object and a listed common prefix |
| S3Ops.MarkerIsCommonPrefix | S3Storage.go:87-93 | a directory marker one level below the prefix is listed as a common prefix |
| S3Ops.WithoutCounts | S3Storage.go:260-266 | filtering out the marker removes every copy of it and keeps every other key as often as before |
| S3Ops.FilesOfMembers | S3Storage.go:240-269 | the file list holds exactly the direct objects under the prefix other than the prefix itself |
| S3Ops.MarkerNeverListed | S3Storage.go:261-264 | the directory's own marker is never among its files |
| S3Ops.ListIsSortedMerge | S3Storage.go:420-438 | sorting the directories followed by the files gives the sorted listing of all entries one level below the prefix |
| S3Ops.EntriesOfMembers | S3Storage.go:420-438 | an entry is listed exactly when it is a common prefix or a direct object other than the prefix itself |
| S3Ops.DirectoriesList | S3Storage.go:55-81 | an unreachable service gives the empty list with the error; otherwise each common prefix below the normalised directory appears once, in ascending order |
| S3Ops.FilesList | S3Storage.go:240-269 | an unreachable service gives the empty list with the error; otherwise each direct object below the normalised directory other than its marker appears once, in ascending order |
| S3Ops.List | S3Storage.go:420-438 | an unreachable service gives the empty list with the error; otherwise each common prefix and each direct object other than the marker appears once, in ascending order |
| S3Ops.Put | S3Storage.go:279-308 | on success the key is stored with exactly the content and every other key is kept; on failure nothing changes |
| S3Ops.MarkerKey | S3Storage.go:88-90 | the marker key ends in `/` and a `/` is appended only when it is missing |
| S3Ops.MarkerKeyIdempotent | S3Storage.go:88-90 | normalising a marker key again changes nothing |
| S3Ops.DirectoryCreate | S3Storage.go:87-93 | creating a directory stores empty content at the marker key, which ends in `/`, and changes no other key; a failed request changes nothing |
| S3Ops.DirectoryCreateListed | S3Storage.go:87-93 | a sub-directory created directly below a listed directory appears in that directory's directory list |
| S3Ops.FilePutListed | S3Storage.go:279-308 | a file put directly in a directory is listed by that directory's file list |
| S3Ops.Read | S3Storage.go:310-333 | a read succeeds exactly for a stored key on a reachable service, and returns the stored bytes |
| S3Ops.PutThenRead | S3Storage.go:279-333 | reading a key just put gives back exactly the content |
| S3Ops.Exists | S3Storage.go:380-397 | existence is true exactly when the head request succeeds, which is when the key is stored and the service reachable |
| S3Ops.MissingOnFailure | S3Storage.go:440-443 | missing is the negation of exists with the same error, so an unreachable service reports every key as missing |
| S3Ops.Missing | S3Storage.go:440-443 | missing is true exactly when the service is unreachable or the key is not stored, and then an error comes with it |
| S3Ops.Copy | S3Storage.go:170-183 | a copy succeeds exactly when the service is reachable, the origin is stored and the target differs; on success only the target changes, and it gets the origin's bytes |
| S3Ops.DeleteBatch | S3Storage.go:185-210 | the batch delete fails only when the service is unreachable; otherwise it removes exactly the listed keys that are not locked and keeps every value |
| S3Ops.DeleteBatchHidesRefusal | S3Storage.go:207 | a locked key is neither deleted nor reported, because the response that lists per-key errors is discarded |
| S3Ops.FileMoveMoves | S3Storage.go:271-277 | a move of a stored, unlocked file to another key leaves the bytes at the new key only |
| S3Ops.FileMoveFailedCopy | S3Storage.go:271-274 | when the copy fails, the move fails and nothing changes |
| S3Ops.FileMove | S3Storage.go:271-277 | a move succeeds exactly when the service is reachable, the origin is stored and the target differs; then the target holds the origin's bytes and the origin is gone unless locked; a failed move changes nothing, and no other key changes |
| S3Ops.DeleteEach | S3Storage.go:139-148 | deleting keys one by one only removes keys, keeps unlisted and locked keys, and fails with "AccessDenied" exactly when a listed key is locked; on success every listed key is gone |
| S3Ops.DeleteEachStops | S3Storage.go:139-148 | at the first locked key the loop stops with "AccessDenied": exactly the keys listed before it are removed, and that key and every key after it stay |
| S3Ops.DirectoryDelete | S3Storage.go:115-164 | the directory delete removes only keys under the directory's marker prefix and changes no value; an unreachable service changes nothing, and the only errors are that one and "AccessDenied" |
| S3Ops.DirectoryDeleteComplete | S3Storage.go:115-164 | when no key under the directory is locked, the delete succeeds and no key under the directory remains |
| S3Ops.DirectoryDeleteStops | S3Storage.go:115-164 | with a locked key under the directory the delete fails with "AccessDenied"; the keys go in ascending order, so exactly the keys under the directory that sort before the least locked one are removed |
| S3Ops.DirectoryDeleteNothingUnder | S3Storage.go:135-137 | a directory with nothing under it is a success that changes nothing |
| S3Backend.SortedKeys | S3Storage.go:69 | the key enumeration returned is the sorted listing of the set |
| S3Backend.S3Storage.ListObjects | S3Storage.go:62-73 | a listing fails exactly when the service is unreachable; a delimited listing returns the prefix's direct objects and common prefixes, and a plain one returns every key under the prefix |
| S3Backend.S3Storage.FilePut | S3Storage.go:279-308 | the new objects and the error are those of `S3Ops.Put` |
| S3Backend.S3Storage.DirectoryCreate | S3Storage.go:87-93 | the new objects and the error are those of putting empty content at the marker key |
| S3Backend.S3Storage.FileCopy | S3Storage.go:170-183 | the new objects and the error are those of `S3Ops.Copy` |
| S3Backend.S3Storage.FileDelete | S3Storage.go:185-210 | the new objects and the error are those of `S3Ops.DeleteBatch` |
| S3Backend.S3Storage.FileMove | S3Storage.go:271-277 | the new objects and the error are those of `S3Ops.FileMove`, a copy followed by a batch delete of the old key |
| S3Backend.S3Storage.DeleteObject | S3Storage.go:141-147 | a single delete fails on an unreachable service, is denied for a locked key, and otherwise removes just that key |
| S3Backend.S3Storage.DirectoryDelete | S3Storage.go:115-164 | the loop over the listed keys leaves the objects and the error of `S3Ops.DirectoryDelete` |
| S3Backend.S3Storage.DirectoriesList | S3Storage.go:55-81 | the result is the sorted common prefixes one level below the normalised directory, and empty with the error on failure |
| S3Backend.S3Storage.FilesList | S3Storage.go:240-269 | the result is the sorted direct objects below the normalised directory without its marker, and empty with the error on failure |
| S3Backend.S3Storage.List | S3Storage.go:420-438 | the result is the sorted merge of the directory and file lists, and empty with the error on failure |
| Static.TrimRightOne | StaticStorage.go:63 | trimming every trailing copy of a character ignores one more copy |
| Static.TrimLeftOne | StaticStorage.go:63 | trimming every leading copy of a character ignores one more copy |
| Static.StaticStorage.Url | StaticStorage.go:62-64 | the URL is the disk URL with every trailing `/` dropped, one `/`, and the path with every leading `/` dropped; the error is always "not implemented" |
| Static.UrlIgnoresExtraSeparator | StaticStorage.go:62-64 | an extra trailing `/` on the disk URL, or an extra leading `/` on the path, gives the same URL |
| Static.EveryOtherOperationFails | StaticStorage.go:18-60 | Copy fails with "not supported"; every other operation returns "not implemented", together with an empty list, false, no bytes or -1 |
| Factory.NewSqlStorage | SqlStorage.go:36-60 | a missing database and an empty table name are refused in that order, a store that fails to initialise passes on its error, and otherwise the storage holds exactly the given options |
| Factory.NewStorage | Storage.go:11-87 | a disk is accepted exactly when it passes every check, and an accepted disk builds the backend its driver names |
| Factory.EmptyDiskRefused | Storage.go:38-40 | the all-zero disk is refused with "disk cannot be empty" |
| Factory.DriverBeforeUrl | Storage.go:42-44 | a disk without a driver is refused with "driver is required field" before anything else is checked |
| Factory.UrlRequiredForEveryDriver | Storage.go:46-48 | a disk without a URL is refused for every driver |
| Factory.S3CredentialsInOrder | Storage.go:50-60 | an S3 disk is checked for region, then key, then secret |
| Factory.CredentialsOnlyForS3 | Storage.go:50-60 | for a driver other than S3, the credentials play no part in acceptance |
| Factory.BucketNotChecked | Storage.go:62-67 | an S3 disk with an empty bucket is still accepted |
| Factory.SqlDelegates | Storage.go:69-76 | an SQL disk is handed to `NewSqlStorage` with its database, table name and URL, with automigration on, and gets that constructor's errors |
| Factory.UnknownDriverRefused | Storage.go:86 | a driver other than s3, sql and static is refused with "driver not supported" |

## Left out

- The AWS SDK, the network and the database are not modelled.
  - The `Service` value says whether every S3 call fails and which keys
    refuse deletion.
  - The SQL store becomes the in-memory record table.
- The S3 error values are stand-in strings, such as "NoSuchKey",
  "AccessDenied" and "service unavailable". The SDK's typed errors cannot
  be expressed without the SDK.
- Building the client cannot fail: `client()` always returns a nil error
  (S3Storage.go:51). Requests that fail are modelled by
  `Service.unavailable`.
- Pagination is not modelled. Every S3 listing is one complete page, so
  the continuation request at S3Storage.go:150-157 never happens. That
  request omits the prefix. The effect of that on long directories is
  outside the model.
- S3Ops.Copy: the model refuses a copy of an object onto itself with
  "InvalidRequest". This is the service's documented behaviour for a copy
  with no changes, which the model cannot confirm without the SDK.
- S3Ops.DeleteBatch: an empty batch is accepted, because the SDK's
  client-side validation of an empty `Delete` is not modelled.
- The S3 object metadata used by FileSize, DirectorySize and
  FileLastModified (`HeadObject` content length and modification time) is
  not modelled. Content type, disposition and ACL are not modelled either.
- FileUpload and FileUploadAs are not modelled. They read a local file and
  draw a random name. What `file.Extension` returns is a parameter of
  `S3Paths.FullPathOfFile`.
- FileLastModified of the SQL backend and LastModified of the static
  backend are not modelled, because clocks and time parsing are out of
  scope.
- `sqlfilestore` internals are not modelled.
  - `RecordCount` is taken to count live records only.
  - `RecordList` ordered by path is `Sorting.Sort` of the paths.
  - `RecordUpdate` writes only the fields the caller set.
  - `RecordCreate` appends a row whose id is its index.
- `NewStore` is not modelled. Its failure is the `storeInit` parameter of
  `Factory.NewSqlStorage`.
- `RecordRecalculatePath` is not modelled, because its body is in
  `sqlfilestore`. The effect of skipping it is shown instead:
  `SqlOps.MoveStalesChildren` says a moved directory's children keep stale
  paths.
- SqlOps.MoveKeepsValid: the model only proves this for a record with no
  live children that moves into a different directory, for the reason just
  given. Move does not refuse to put a directory under one of its own
  descendants either; the parent links would then form a cycle, and the
  recursive delete over such a table is outside the model.
- SqlOps.RecordSize and SqlOps.RecordUrl: these require the path to exist.
  The source dereferences a nil record when it does not, which would
  crash.
- SqlOps.FileCopy: this requires the target's parent directory to exist
  when the origin is a file, for the same reason (SqlStorage.go:330-331).
- SqlOps.FileDelete: this requires a consistent table (`Records.Valid`).
  The recursion follows stored paths, and it terminates only when every
  child's path is longer than its parent's.
- SqlBackend.SqlStorage.FileDelete: requires `Records.Valid`, for the same
  reason.
- SqlBackend.SqlStorage.DirectoryDelete: requires `Records.Valid`, for the
  same reason.
- SqlOps.DeletePaths: requires `Records.Valid` and a bound on the stored
  path lengths, for the same reason.
- Records.DeleteTree: requires `Records.Valid` and a path length bound, for
  the same reason.
- Records.DeleteChildren: requires `Records.Valid` and a path length bound,
  for the same reason.
- Records.DirectoryDeleteSpec: requires `Records.Valid`, for the same
  reason.
- Records.FindByPath: when several live records share a path, the model
  picks the one with the lowest id. FilePut and FileCopy never check for an
  existing record (SqlStorage.go:459-490), so duplicates can arise. Which
  row `RecordFindByPath` returns then is decided inside `sqlfilestore`,
  which is not part of this model.
- Records.DeleteChildren: the model visits a directory's children in table
  (id) order. The child query at SqlStorage.go:235-242 has no ordering, so
  the order is chosen by `sqlfilestore`, which is not part of this model.
  The order matters only when live paths are duplicated: a child visited
  before a "not a directory" failure is soft-deleted, and one visited after
  it is not.
- DeleteProps.DirectoryDeleteRemovesSubtree: the "every descendant is
  deleted" property is proved only for tidy trees (unique live paths,
  directory parents). On other tables a lookup by path can pick a
  different record.
- Integer widths are partly modelled. The decimal size is checked against
  the signed 64-bit range, but `int64` overflow of `len(content)` is not
  modelled.
- The base64 error text is given without the byte offset that Go
  includes.
- Decimal.ParseInt: the input is quoted in the error text as
  `strconv.Quote` quotes ASCII. Characters beyond ASCII are kept as they
  are, although Go escapes those that Unicode does not class as printable.
  Invalid UTF-8 cannot occur in a Dafny string.
- Transactions, concurrent callers, the debug logging and automigration
  are not modelled, because they have no effect on the stored state.
- The interface files (StorageInterface.go, StorageIntergace.go,
  FilesystemAdapter.go) are not modelled. They declare no behaviour.
- Disk.go appears only as the `Disks.Disk` datatype.
