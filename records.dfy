/** The record table behind the SQL-backed filesystem, held in memory: one
    row per file or directory, linked to its directory by `parentId`, with a
    redundant full `path` and a soft-delete flag. Queries skip soft-deleted
    rows. This module holds the queries the filesystem makes and the
    specification of its recursive directory delete. */
module Records {
  import opened Wrappers
  import opened Strings
  import opened Consts

  datatype Kind = Directory | File

  datatype Record = Record(
    id: nat,
    parentId: int,
    name: string,
    path: string,
    kind: Kind,
    contents: string,
    size: string,
    extension: string,
    deleted: bool)

  /** The parent id of a record that has no parent (the root). */
  const NoParent: int := -1

  type Table = seq<Record>

  predicate Live(t: Table, i: int) {
    0 <= i < |t| && !t[i].deleted
  }

  /** Ids are row numbers, parents are rows or NoParent, and the stored path of
      every live record with a parent is its parent's path, the separator and
      its name. */
  ghost predicate Valid(t: Table) {
    && (forall i :: 0 <= i < |t| ==> t[i].id == i)
    && (forall i :: 0 <= i < |t| ==> t[i].parentId == NoParent || 0 <= t[i].parentId < |t|)
    && (forall i :: Live(t, i) && t[i].parentId != NoParent ==>
          0 <= t[i].parentId < |t| && t[i].path == t[t[i].parentId].path + PathSeparator + t[i].name)
  }

  /** A well-kept tree: no two live records share a path, and a live record's
      parent is a directory. */
  ghost predicate Tidy(t: Table) {
    && (forall i, j :: Live(t, i) && Live(t, j) && t[i].path == t[j].path ==> i == j)
    && (forall i :: Live(t, i) && 0 <= t[i].parentId < |t| ==> t[t[i].parentId].kind == Directory)
  }

  /** Every stored path is at most `bound` long. */
  ghost predicate Bounded(t: Table, bound: nat) {
    forall i :: 0 <= i < |t| ==> |t[i].path| <= bound
  }

  function MaxPathLength(t: Table): (m: nat)
    ensures Bounded(t, m)
  {
    if t == [] then 0
    else
      var m := MaxPathLength(t[..|t| - 1]);
      if |t[|t| - 1].path| > m then |t[|t| - 1].path| else m
  }

  /** RecordFindByPath: the first live record whose stored path is `path`. */
  function FindByPath(t: Table, path: string): (r: Option<nat>)
    ensures r.Some? ==> Live(t, r.value) && t[r.value].path == path
    ensures r.Some? ==> forall k :: 0 <= k < r.value ==> !(Live(t, k) && t[k].path == path)
    ensures r.None? ==> forall k :: 0 <= k < |t| ==> !(Live(t, k) && t[k].path == path)
  {
    FindFrom(t, path, 0)
  }

  function FindFrom(t: Table, path: string, from: nat): (r: Option<nat>)
    requires from <= |t|
    requires forall k :: 0 <= k < from ==> !(Live(t, k) && t[k].path == path)
    ensures r.Some? ==> from <= r.value && Live(t, r.value) && t[r.value].path == path
    ensures r.Some? ==> forall k :: 0 <= k < r.value ==> !(Live(t, k) && t[k].path == path)
    ensures r.None? ==> forall k :: 0 <= k < |t| ==> !(Live(t, k) && t[k].path == path)
    decreases |t| - from
  {
    if from == |t| then None
    else if Live(t, from) && t[from].path == path then Some(from)
    else FindFrom(t, path, from + 1)
  }

  /** The type filter of a listing query: one kind, or None for both. */
  predicate Matches(kind: Kind, filter: Option<Kind>) {
    filter.None? || filter.value == kind
  }

  /** RecordList by parent id and type: the live children of record `parent`
      of the filtered kind, in table order. */
  function LiveChildren(t: Table, parent: int, filter: Option<Kind>): seq<Record> {
    if t == [] then []
    else
      var last := t[|t| - 1];
      LiveChildren(t[..|t| - 1], parent, filter) +
        (if !last.deleted && last.parentId == parent && Matches(last.kind, filter) then [last] else [])
  }

  lemma LiveChildrenSnoc(t: Table, parent: int, filter: Option<Kind>)
    requires t != []
    ensures var last := t[|t| - 1];
      !last.deleted && last.parentId == parent && Matches(last.kind, filter) ==>
      LiveChildren(t, parent, filter) == LiveChildren(t[..|t| - 1], parent, filter) + [last]
    ensures var last := t[|t| - 1];
      !(!last.deleted && last.parentId == parent && Matches(last.kind, filter)) ==>
      LiveChildren(t, parent, filter) == LiveChildren(t[..|t| - 1], parent, filter)
  {
    var x := LiveChildren(t[..|t| - 1], parent, filter);
    assert x + [] == x;
  }

  /** The children listed are exactly the live records of that parent and kind. */
  lemma {:induction false} LiveChildrenMembers(t: Table, parent: int, filter: Option<Kind>)
    ensures forall x :: x in LiveChildren(t, parent, filter) <==>
      x in t && !x.deleted && x.parentId == parent && Matches(x.kind, filter)
  {
    if t != [] {
      var last := t[|t| - 1];
      assert t == t[..|t| - 1] + [last];
      LiveChildrenMembers(t[..|t| - 1], parent, filter);
    }
  }

  /** The stored paths of a sequence of records, in order. */
  function PathsOf(rs: seq<Record>): seq<string> {
    if rs == [] then [] else PathsOf(rs[..|rs| - 1]) + [rs[|rs| - 1].path]
  }

  lemma {:induction false} PathsOfIndex(rs: seq<Record>)
    ensures |PathsOf(rs)| == |rs| && forall k :: 0 <= k < |rs| ==> PathsOf(rs)[k] == rs[k].path
  {
    if rs != [] {
      PathsOfIndex(rs[..|rs| - 1]);
    }
  }

  /** A path is among the children's paths exactly when a live record of
      that parent and kind is stored at it. */
  lemma ChildPathsMembers(t: Table, parent: int, filter: Option<Kind>, p: string)
    ensures p in PathsOf(LiveChildren(t, parent, filter)) <==>
      exists j :: Live(t, j) && t[j].parentId == parent && Matches(t[j].kind, filter) && t[j].path == p
  {
    var kids := LiveChildren(t, parent, filter);
    var ps := PathsOf(kids);
    LiveChildrenMembers(t, parent, filter);
    PathsOfIndex(kids);
    if p in ps {
      var k :| 0 <= k < |ps| && ps[k] == p;
      assert kids[k] in kids;
      var j :| 0 <= j < |t| && t[j] == kids[k];
      assert Live(t, j) && t[j].path == p;
    }
    if j :| Live(t, j) && t[j].parentId == parent && Matches(t[j].kind, filter) && t[j].path == p {
      assert t[j] in kids;
      var k :| 0 <= k < |kids| && kids[k] == t[j];
      assert ps[k] == p;
    }
  }

  lemma PathsSnoc(rs: seq<Record>, x: Record)
    ensures PathsOf(rs + [x]) == PathsOf(rs) + [x.path]
  {
    assert (rs + [x])[..|rs|] == rs;
  }

  /** The children's paths after one more record: the last record's path is
      appended exactly when it is a live child of the right kind. */
  lemma ChildPathsSnoc(t: Table, parent: int, filter: Option<Kind>)
    requires t != []
    ensures var last := t[|t| - 1];
      PathsOf(LiveChildren(t, parent, filter)) ==
        PathsOf(LiveChildren(t[..|t| - 1], parent, filter)) +
        (if !last.deleted && last.parentId == parent && Matches(last.kind, filter) then [last.path] else [])
  {
    var last := t[|t| - 1];
    LiveChildrenSnoc(t, parent, filter);
    PathsSnoc(LiveChildren(t[..|t| - 1], parent, filter), last);
    assert PathsOf(LiveChildren(t[..|t| - 1], parent, filter)) + [] == PathsOf(LiveChildren(t[..|t| - 1], parent, filter));
  }

  /** How many records of the table are live children of `parent` of the
      filtered kind stored at path `p`. */
  ghost function ChildCount(t: Table, parent: int, filter: Option<Kind>, p: string): nat {
    if t == [] then 0
    else
      var last := t[|t| - 1];
      ChildCount(t[..|t| - 1], parent, filter, p) +
        (if !last.deleted && last.parentId == parent && Matches(last.kind, filter) && last.path == p then 1 else 0)
  }

  /** Every child is a directory or a file, and not both. */
  lemma {:induction false} ChildCountSplit(t: Table, parent: int, p: string)
    ensures ChildCount(t, parent, None, p) ==
      ChildCount(t, parent, Some(Directory), p) + ChildCount(t, parent, Some(File), p)
  {
    if t != [] {
      ChildCountSplit(t[..|t| - 1], parent, p);
    }
  }

  lemma CountSnoc<T>(a: seq<T>, x: T, c: bool, p: T)
    ensures multiset(a + (if c then [x] else []))[p] == multiset(a)[p] + (if c && x == p then 1 else 0)
  {
    assert a + [] == a;
  }

  /** The number of times `p` occurs among the paths of the children. */
  lemma {:induction false} ChildPathsCount(t: Table, parent: int, filter: Option<Kind>, p: string)
    ensures multiset(PathsOf(LiveChildren(t, parent, filter)))[p] == ChildCount(t, parent, filter, p)
  {
    if t != [] {
      var last := t[|t| - 1];
      ChildPathsCount(t[..|t| - 1], parent, filter, p);
      ChildPathsSnoc(t, parent, filter);
      CountSnoc(PathsOf(LiveChildren(t[..|t| - 1], parent, filter)), last.path,
        !last.deleted && last.parentId == parent && Matches(last.kind, filter), p);
    }
  }

  /** The paths of the children of both kinds are those of the directories
      and those of the files together. */
  lemma ChildrenSplit(t: Table, parent: int)
    ensures multiset(PathsOf(LiveChildren(t, parent, None))) ==
      multiset(PathsOf(LiveChildren(t, parent, Some(Directory)))) +
      multiset(PathsOf(LiveChildren(t, parent, Some(File))))
  {
    forall p
      ensures multiset(PathsOf(LiveChildren(t, parent, None)))[p] ==
        multiset(PathsOf(LiveChildren(t, parent, Some(Directory))))[p] +
        multiset(PathsOf(LiveChildren(t, parent, Some(File))))[p]
    {
      ChildCountSplit(t, parent, p);
      ChildPathsCount(t, parent, None, p);
      ChildPathsCount(t, parent, Some(Directory), p);
      ChildPathsCount(t, parent, Some(File), p);
    }
  }

  /** RecordSoftDelete: marks the row with that id as deleted. */
  function SoftDelete(t: Table, id: nat): Table {
    if id < |t| then t[id := t[id].(deleted := true)] else t
  }

  /** `u` differs from `t` at most in deleted flags that were switched on. */
  predicate FlagsOnly(t: Table, u: Table) {
    |u| == |t| && forall i :: 0 <= i < |t| ==> u[i] == t[i] || u[i] == t[i].(deleted := true)
  }

  /** Record `i` was live in `t` and is soft-deleted in `u`. */
  predicate Changed(t: Table, u: Table, i: int) {
    0 <= i < |t| && i < |u| && !t[i].deleted && u[i].deleted
  }

  lemma FlagsOnlyTransitive(t: Table, u: Table, v: Table)
    requires FlagsOnly(t, u) && FlagsOnly(u, v)
    ensures FlagsOnly(t, v)
  {
  }

  lemma SoftDeleteFlagsOnly(t: Table, id: nat)
    ensures FlagsOnly(t, SoftDelete(t, id))
  {
  }

  /** Switching deleted flags on keeps the table valid, tidy and bounded. */
  lemma FlagsOnlyKeeps(t: Table, u: Table, bound: nat)
    requires FlagsOnly(t, u)
    ensures Valid(t) ==> Valid(u)
    ensures Tidy(t) ==> Tidy(u)
    ensures Bounded(t, bound) ==> Bounded(u, bound)
  {
    assert forall i :: 0 <= i < |t| ==>
      (u[i].path == t[i].path && u[i].name == t[i].name && u[i].id == t[i].id &&
       u[i].parentId == t[i].parentId && u[i].kind == t[i].kind && (Live(u, i) ==> Live(t, i)));
  }

  /** The live children of a directory have longer paths than it. */
  lemma ChildrenLonger(t: Table, f: nat, filter: Option<Kind>, bound: nat, kids: seq<Record>)
    requires Valid(t) && Bounded(t, bound) && f < |t| && kids == LiveChildren(t, f, filter)
    ensures forall k :: 0 <= k < |kids| ==>
        kids[k].id < |t| && t[kids[k].id] == kids[k] && Live(t, kids[k].id) &&
        |t[f].path| < |kids[k].path| <= bound &&
        HasPrefix(kids[k].path, t[f].path + PathSeparator)
  {
    LiveChildrenMembers(t, f, filter);
    forall k | 0 <= k < |kids|
      ensures kids[k].id < |t| && t[kids[k].id] == kids[k] && Live(t, kids[k].id)
      ensures |t[f].path| < |kids[k].path| <= bound && HasPrefix(kids[k].path, t[f].path + PathSeparator)
    {
      assert kids[k] in kids;
      var j :| 0 <= j < |t| && t[j] == kids[k];
      assert Live(t, j);
      assert kids[k].path == t[f].path + PathSeparator + kids[k].name;
      assert kids[k].path[..|t[f].path + PathSeparator|] == t[f].path + PathSeparator;
    }
  }

  /** DirectoryDelete on `p`: no-op success when no live record has that path,
      "not a directory" for a file, and otherwise every live child in turn
      (directories recursively by their path, files soft-deleted directly),
      then the directory itself; the first error stops the walk. */
  function DeleteTree(t: Table, p: string, bound: nat): (res: (Table, Option<string>))
    requires Valid(t) && Bounded(t, bound)
    ensures FlagsOnly(t, res.0)
    decreases if |p| <= bound then bound - |p| else 0, 1, 0
  {
    match FindByPath(t, p)
    case None => (t, None)
    case Some(f) =>
      if t[f].kind != Directory then (t, Some("not a directory"))
      else
        var kids := LiveChildren(t, f, None);
        ChildrenLonger(t, f, None, bound, kids);
        var (t1, err) := DeleteChildren(t, kids, 0, p, bound);
        if err.Some? then (t1, err)
        else
          SoftDeleteFlagsOnly(t1, f);
          FlagsOnlyTransitive(t, t1, SoftDelete(t1, f));
          (SoftDelete(t1, f), None)
  }

  /** The loop of DirectoryDelete over the children `kids[i..]` of the
      directory at `p`. */
  function DeleteChildren(t: Table, kids: seq<Record>, i: nat, p: string, bound: nat): (res: (Table, Option<string>))
    requires Valid(t) && Bounded(t, bound) && i <= |kids|
    requires forall k :: 0 <= k < |kids| ==> |p| < |kids[k].path| <= bound
    ensures FlagsOnly(t, res.0)
    decreases if |p| <= bound then bound - |p| else 0, 0, |kids| - i
  {
    if i == |kids| then (t, None)
    else
      var c := kids[i];
      if c.kind == Directory then
        var (t1, err) := DeleteTree(t, c.path, bound);
        if err.Some? then (t1, err)
        else
          FlagsOnlyKeeps(t, t1, bound);
          var res := DeleteChildren(t1, kids, i + 1, p, bound);
          FlagsOnlyTransitive(t, t1, res.0);
          res
      else
        var t1 := SoftDelete(t, c.id);
        SoftDeleteFlagsOnly(t, c.id);
        FlagsOnlyKeeps(t, t1, bound);
        var res := DeleteChildren(t1, kids, i + 1, p, bound);
        FlagsOnlyTransitive(t, t1, res.0);
        res
  }

  /** One step of the child loop: a directory child. */
  lemma DeleteChildrenDirectory(t: Table, kids: seq<Record>, i: nat, p: string, bound: nat)
    requires Valid(t) && Bounded(t, bound) && i < |kids| && kids[i].kind == Directory
    requires forall k :: 0 <= k < |kids| ==> |p| < |kids[k].path| <= bound
    ensures |p| < |kids[i].path| <= bound
    ensures var r := DeleteTree(t, kids[i].path, bound);
      && (r.1.Some? ==> DeleteChildren(t, kids, i, p, bound) == r)
      && (r.1.None? ==>
            Valid(r.0) && Bounded(r.0, bound) &&
            DeleteChildren(t, kids, i, p, bound) == DeleteChildren(r.0, kids, i + 1, p, bound))
  {
    FlagsOnlyKeeps(t, DeleteTree(t, kids[i].path, bound).0, bound);
  }

  /** One step of the child loop: a file child. */
  lemma DeleteChildrenFile(t: Table, kids: seq<Record>, i: nat, p: string, bound: nat)
    requires Valid(t) && Bounded(t, bound) && i < |kids| && kids[i].kind == File
    requires forall k :: 0 <= k < |kids| ==> |p| < |kids[k].path| <= bound
    ensures Valid(SoftDelete(t, kids[i].id)) && Bounded(SoftDelete(t, kids[i].id), bound)
    ensures DeleteChildren(t, kids, i, p, bound) == DeleteChildren(SoftDelete(t, kids[i].id), kids, i + 1, p, bound)
  {
    SoftDeleteFlagsOnly(t, kids[i].id);
    FlagsOnlyKeeps(t, SoftDelete(t, kids[i].id), bound);
  }

  /** The delete of a directory: its children, then itself. */
  lemma DeleteTreeDirectory(t: Table, p: string, bound: nat, f: nat)
    requires Valid(t) && Bounded(t, bound)
    requires FindByPath(t, p) == Some(f) && t[f].kind == Directory
    ensures var kids := LiveChildren(t, f, None);
      (forall k :: 0 <= k < |kids| ==> |p| < |kids[k].path| <= bound) &&
      var r := DeleteChildren(t, kids, 0, p, bound);
      DeleteTree(t, p, bound) == if r.1.Some? then r else (SoftDelete(r.0, f), None)
  {
    ChildrenLonger(t, f, None, bound, LiveChildren(t, f, None));
  }

  /** DirectoryDelete on the whole table. */
  function DirectoryDeleteSpec(t: Table, p: string): (res: (Table, Option<string>))
    requires Valid(t)
    ensures FlagsOnly(t, res.0)
  {
    DeleteTree(t, p, MaxPathLength(t))
  }
}
