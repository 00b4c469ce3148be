/** What the recursive directory delete of the SQL-backed filesystem does to
    the record table: it only touches the subtree it was given, and on a well
    kept tree it soft-deletes that directory and everything below it, so that
    a second delete of the same path changes nothing. */
module DeleteProps {
  import opened Wrappers
  import opened Strings
  import opened Consts
  import opened Records

  /** `s` is the path `p` or lies below it. */
  predicate InSubtree(s: string, p: string) {
    s == p || HasPrefix(s, p + PathSeparator)
  }

  /** No live record of `u` has a parent that went from live in `t` to
      deleted in `u`: nothing is left orphaned. */
  ghost predicate Closed(t: Table, u: Table) {
    forall j :: Live(u, j) && 0 <= u[j].parentId < |t| ==> !Changed(t, u, u[j].parentId)
  }

  /** Record `j` reaches record `f` by `n` parent links through live records. */
  ghost predicate Reaches(t: Table, j: int, f: int, n: nat)
    decreases n
  {
    0 <= j < |t| &&
    if n == 0 then j == f
    else !t[j].deleted && Reaches(t, t[j].parentId, f, n - 1)
  }

  lemma PrefixTransitive(s: string, c: string, p: string)
    requires HasPrefix(s, c) && HasPrefix(c, p)
    ensures HasPrefix(s, p)
  {
    assert s[..|p|] == s[..|c|][..|p|];
  }

  lemma ClosedTransitive(t: Table, u: Table, v: Table)
    requires FlagsOnly(t, u) && FlagsOnly(u, v) && Closed(t, u) && Closed(u, v)
    ensures Closed(t, v)
  {
    forall j | Live(v, j) && 0 <= v[j].parentId < |t|
      ensures !Changed(t, v, v[j].parentId)
    {
      assert Live(u, j) && u[j].parentId == v[j].parentId;
    }
  }

  /** Only records inside the subtree of `p` are soft-deleted. */
  lemma {:induction false} DeleteTreeScope(t: Table, p: string, bound: nat)
    requires Valid(t) && Bounded(t, bound)
    ensures forall i :: Changed(t, DeleteTree(t, p, bound).0, i) ==> InSubtree(t[i].path, p)
    decreases if |p| <= bound then bound - |p| else 0, 1, 0
  {
    match FindByPath(t, p)
    case None =>
    case Some(f) =>
      if t[f].kind == Directory {
        var kids := LiveChildren(t, f, None);
        ChildrenLonger(t, f, None, bound, kids);
        DeleteChildrenScope(t, kids, 0, p, bound);
        var (t1, err) := DeleteChildren(t, kids, 0, p, bound);
        if err.None? {
          var u := SoftDelete(t1, f);
          assert u == DeleteTree(t, p, bound).0;
          forall i | Changed(t, u, i) ensures InSubtree(t[i].path, p) {
            if i != f {
              assert Changed(t, t1, i);
            }
          }
        }
      }
  }

  /** Changes made in two steps lie in the subtree when each step's do. */
  lemma ScopeCompose(t: Table, t1: Table, u: Table, p: string)
    requires FlagsOnly(t, t1) && FlagsOnly(t1, u)
    requires forall j :: Changed(t, t1, j) ==> InSubtree(t[j].path, p)
    requires forall j :: Changed(t1, u, j) ==> InSubtree(t1[j].path, p)
    ensures forall j :: Changed(t, u, j) ==> InSubtree(t[j].path, p)
  {
    forall j | Changed(t, u, j) ensures InSubtree(t[j].path, p) {
      if !Changed(t, t1, j) {
        assert Changed(t1, u, j) && t1[j].path == t[j].path;
      }
    }
  }

  /** The delete of a child directory of `p` changes only records below `p`. */
  lemma ChildScope(t: Table, c: string, p: string, bound: nat)
    requires Valid(t) && Bounded(t, bound) && HasPrefix(c, p + PathSeparator)
    ensures forall j :: Changed(t, DeleteTree(t, c, bound).0, j) ==> InSubtree(t[j].path, p)
    decreases if |c| <= bound then bound - |c| else 0, 1, 1
  {
    var t1 := DeleteTree(t, c, bound).0;
    DeleteTreeScope(t, c, bound);
    forall j | Changed(t, t1, j) ensures InSubtree(t[j].path, p) {
      if t[j].path != c {
        PrefixTransitive(t[j].path, c + PathSeparator, p + PathSeparator);
      }
    }
  }

  lemma {:induction false} DeleteChildrenScope(t: Table, kids: seq<Record>, i: nat, p: string, bound: nat)
    requires Valid(t) && Bounded(t, bound) && i <= |kids|
    requires forall k :: 0 <= k < |kids| ==> |p| < |kids[k].path| <= bound
    requires forall k :: i <= k < |kids| ==>
      kids[k].id < |t| && t[kids[k].id].path == kids[k].path && HasPrefix(kids[k].path, p + PathSeparator)
    ensures forall j :: Changed(t, DeleteChildren(t, kids, i, p, bound).0, j) ==> InSubtree(t[j].path, p)
    decreases if |p| <= bound then bound - |p| else 0, 0, |kids| - i
  {
    if i < |kids| {
      var c := kids[i];
      var t1: Table;
      if c.kind == Directory {
        var res := DeleteTree(t, c.path, bound);
        t1 := res.0;
        ChildScope(t, c.path, p, bound);
        if res.1.Some? {
          return;
        }
      } else {
        t1 := SoftDelete(t, c.id);
      }
      FlagsOnlyKeeps(t, t1, bound);
      assert forall k :: i + 1 <= k < |kids| ==> t1[kids[k].id].path == t[kids[k].id].path;
      DeleteChildrenScope(t1, kids, i + 1, p, bound);
      var u := DeleteChildren(t1, kids, i + 1, p, bound).0;
      ScopeCompose(t, t1, u, p);
    }
  }

  /** The children `kids[i..]` still describe their rows of `t`, and each is
      the only live record with its path. */
  ghost predicate KidsMatch(t: Table, kids: seq<Record>, i: nat) {
    forall k :: i <= k < |kids| ==>
      kids[k].id < |t| && t[kids[k].id].path == kids[k].path && t[kids[k].id].kind == kids[k].kind
  }

  ghost predicate KidsUnique(t: Table, kids: seq<Record>, i: nat) {
    forall k, j :: i <= k < |kids| && Live(t, j) && t[j].path == kids[k].path ==> j == kids[k].id
  }

  lemma KidsKeep(t: Table, u: Table, kids: seq<Record>, i: nat)
    requires FlagsOnly(t, u) && KidsMatch(t, kids, i) && KidsUnique(t, kids, i)
    ensures KidsMatch(u, kids, i + 1) && KidsUnique(u, kids, i + 1)
  {
    forall k, j | i + 1 <= k < |kids| && Live(u, j) && u[j].path == kids[k].path
      ensures j == kids[k].id
    {
      assert Live(t, j) && t[j].path == u[j].path;
    }
  }

  /** Soft-deleting a file orphans nothing in a tidy table. */
  lemma FileDeleteClosed(t: Table, id: nat)
    requires Valid(t) && Tidy(t) && id < |t| && t[id].kind == File
    ensures Closed(t, SoftDelete(t, id))
  {
    var u := SoftDelete(t, id);
    forall j | Live(u, j) && 0 <= u[j].parentId < |t|
      ensures !Changed(t, u, u[j].parentId)
    {
      assert Live(t, j);
    }
  }

  /** When only row `id` may be live with `path`, a lookup finds that row or nothing. */
  lemma FindUnique(t: Table, path: string, id: nat)
    requires id < |t| && forall j :: Live(t, j) && t[j].path == path ==> j == id
    ensures FindByPath(t, path) == None || FindByPath(t, path) == Some(id)
  {
  }

  /** Soft-deleting `f` after all its children orphans nothing, and nothing
      live is left at its path. */
  lemma FinishDelete(t: Table, t1: Table, f: nat)
    requires Valid(t) && Tidy(t) && Live(t, f)
    requires FlagsOnly(t, t1) && Closed(t, t1)
    requires forall j :: Live(t, j) && t[j].parentId == f ==> t1[j].deleted
    ensures Closed(t, SoftDelete(t1, f)) && FindByPath(SoftDelete(t1, f), t[f].path).None?
  {
    var u := SoftDelete(t1, f);
    forall j | Live(u, j) && 0 <= u[j].parentId < |t|
      ensures !Changed(t, u, u[j].parentId)
    {
      assert Live(t1, j) && Live(t, j);
    }
    forall j | 0 <= j < |u| ensures !(Live(u, j) && u[j].path == t[f].path) {
      assert u[j].path == t[j].path && (Live(u, j) ==> Live(t, j));
    }
  }

  /** When every child in the snapshot of `f`'s children is deleted, so is
      every live child of `f`. */
  lemma KidsDeleted(t: Table, t1: Table, f: nat, kids: seq<Record>)
    requires Valid(t) && |t1| == |t| && kids == LiveChildren(t, f, None)
    requires forall k :: 0 <= k < |kids| ==> kids[k].id < |t1| && t1[kids[k].id].deleted
    ensures forall j :: Live(t, j) && t[j].parentId == f ==> t1[j].deleted
  {
    LiveChildrenMembers(t, f, None);
    forall j | Live(t, j) && t[j].parentId == f ensures t1[j].deleted {
      assert t[j] in kids;
      var k :| 0 <= k < |kids| && kids[k] == t[j];
      assert kids[k].id == j;
      assert t1[kids[k].id].deleted;
    }
  }

  /** On a tidy table the delete of `p` fails exactly when `p` names a file,
      leaves nothing orphaned, and leaves no live record at `p`. */
  lemma {:induction false} DeleteTreeTidy(t: Table, p: string, bound: nat)
    requires Valid(t) && Bounded(t, bound) && Tidy(t)
    ensures Closed(t, DeleteTree(t, p, bound).0)
    ensures DeleteTree(t, p, bound).1.Some? <==>
      FindByPath(t, p).Some? && t[FindByPath(t, p).value].kind == File
    ensures DeleteTree(t, p, bound).1.None? ==> FindByPath(DeleteTree(t, p, bound).0, p).None?
    decreases if |p| <= bound then bound - |p| else 0, 1, 0
  {
    match FindByPath(t, p)
    case None =>
    case Some(f) =>
      if t[f].kind == Directory {
        var kids := LiveChildren(t, f, None);
        ChildrenLonger(t, f, None, bound, kids);
        DeleteChildrenTidy(t, kids, 0, p, bound);
        var t1 := DeleteChildren(t, kids, 0, p, bound).0;
        KidsDeleted(t, t1, f, kids);
        FinishDelete(t, t1, f);
        assert DeleteTree(t, p, bound) == (SoftDelete(t1, f), None);
      }
  }

  /** The table after deleting child `i` of the loop. */
  function ChildDeleted(t: Table, kids: seq<Record>, i: nat, bound: nat): Table
    requires Valid(t) && Bounded(t, bound) && i < |kids|
  {
    if kids[i].kind == Directory then DeleteTree(t, kids[i].path, bound).0 else SoftDelete(t, kids[i].id)
  }

  /** One step of the child loop on a tidy table: the child is deleted
      without error, nothing is orphaned, and the loop goes on from the new
      table. */
  lemma {:induction false} ChildDeletedTidy(t: Table, kids: seq<Record>, i: nat, p: string, bound: nat)
    requires Valid(t) && Bounded(t, bound) && Tidy(t) && i < |kids|
    requires forall k :: 0 <= k < |kids| ==> |p| < |kids[k].path| <= bound
    requires KidsMatch(t, kids, i) && KidsUnique(t, kids, i)
    ensures var t1 := ChildDeleted(t, kids, i, bound);
      && Valid(t1) && Bounded(t1, bound) && Tidy(t1) && FlagsOnly(t, t1) && Closed(t, t1)
      && t1[kids[i].id].deleted
      && KidsMatch(t1, kids, i + 1) && KidsUnique(t1, kids, i + 1)
      && DeleteChildren(t, kids, i, p, bound) == DeleteChildren(t1, kids, i + 1, p, bound)
    decreases if |p| <= bound then bound - |p| else 0, 0, |kids| - i
  {
    var c := kids[i];
    var t1 := ChildDeleted(t, kids, i, bound);
    if c.kind == Directory {
      DeleteChildrenDirectory(t, kids, i, p, bound);
      DeleteTreeTidy(t, c.path, bound);
      FindUnique(t, c.path, c.id);
      assert t1[c.id].path == c.path;
    } else {
      DeleteChildrenFile(t, kids, i, p, bound);
      SoftDeleteFlagsOnly(t, c.id);
      FileDeleteClosed(t, c.id);
    }
    FlagsOnlyKeeps(t, t1, bound);
    KidsKeep(t, t1, kids, i);
  }

  /** What the child loop from child `i` achieves on a tidy table: no error,
      nothing orphaned, and every remaining child deleted. */
  ghost predicate LoopDeleted(t: Table, r: (Table, Option<string>), kids: seq<Record>, i: nat) {
    && r.1.None?
    && Closed(t, r.0)
    && forall k :: i <= k < |kids| ==> kids[k].id < |r.0| && r.0[kids[k].id].deleted
  }

  lemma LoopDeletedStep(t: Table, t1: Table, r: (Table, Option<string>), kids: seq<Record>, i: nat)
    requires i < |kids| && FlagsOnly(t, t1) && FlagsOnly(t1, r.0) && Closed(t, t1)
    requires kids[i].id < |t1| && t1[kids[i].id].deleted && LoopDeleted(t1, r, kids, i + 1)
    ensures LoopDeleted(t, r, kids, i)
  {
    ClosedTransitive(t, t1, r.0);
    assert r.0[kids[i].id].deleted;
  }

  lemma {:induction false} DeleteChildrenTidy(t: Table, kids: seq<Record>, i: nat, p: string, bound: nat)
    requires Valid(t) && Bounded(t, bound) && Tidy(t) && i <= |kids|
    requires forall k :: 0 <= k < |kids| ==> |p| < |kids[k].path| <= bound
    requires KidsMatch(t, kids, i) && KidsUnique(t, kids, i)
    ensures LoopDeleted(t, DeleteChildren(t, kids, i, p, bound), kids, i)
    decreases if |p| <= bound then bound - |p| else 0, 0, |kids| - i + 1
  {
    if i < |kids| {
      ChildDeletedTidy(t, kids, i, p, bound);
      var t1 := ChildDeleted(t, kids, i, bound);
      DeleteChildrenTidy(t1, kids, i + 1, p, bound);
      LoopDeletedStep(t, t1, DeleteChildren(t1, kids, i + 1, p, bound), kids, i);
    }
  }

  /** Once a live record is deleted and nothing is orphaned, everything that
      reached it through live parents is deleted too. */
  lemma {:induction false} ClosedDeletesDescendants(t: Table, u: Table, f: nat, j: int, n: nat)
    requires FlagsOnly(t, u) && Closed(t, u) && Live(t, f) && u[f].deleted
    requires Reaches(t, j, f, n)
    ensures u[j].deleted
    decreases n
  {
    if n > 0 {
      var q := t[j].parentId;
      ClosedDeletesDescendants(t, u, f, q, n - 1);
      assert Changed(t, u, q) by {
        if n - 1 > 0 {
          assert !t[q].deleted;
        }
      }
    }
  }

  /** DirectoryDelete of a directory in a tidy table succeeds, soft-deletes
      the directory and every record below it, and leaves no live record at
      that path. */
  lemma DirectoryDeleteRemovesSubtree(t: Table, p: string, f: nat)
    requires Valid(t) && Tidy(t)
    requires FindByPath(t, p) == Some(f) && t[f].kind == Directory
    ensures var (u, err) := DirectoryDeleteSpec(t, p);
      && err.None?
      && u[f].deleted
      && (forall j, n :: Reaches(t, j, f, n) ==> u[j].deleted)
      && FindByPath(u, p).None?
  {
    var (u, err) := DirectoryDeleteSpec(t, p);
    DeleteTreeTidy(t, p, MaxPathLength(t));
    assert u[f].path == t[f].path;
    forall j, n | Reaches(t, j, f, n) ensures u[j].deleted {
      ClosedDeletesDescendants(t, u, f, j, n);
    }
  }

  /** DirectoryDelete changes no record outside the subtree of `p`. */
  lemma DirectoryDeleteScope(t: Table, p: string)
    requires Valid(t)
    ensures var u := DirectoryDeleteSpec(t, p).0;
      |u| == |t| && forall i :: 0 <= i < |t| && !InSubtree(t[i].path, p) ==> u[i] == t[i]
  {
    var u := DirectoryDeleteSpec(t, p).0;
    DeleteTreeScope(t, p, MaxPathLength(t));
    forall i | 0 <= i < |t| && !InSubtree(t[i].path, p) ensures u[i] == t[i] {
      assert !Changed(t, u, i);
    }
  }

  /** A missing path is a successful no-op; a file is refused unchanged. */
  lemma DirectoryDeleteNotADirectory(t: Table, p: string)
    requires Valid(t)
    ensures FindByPath(t, p).None? ==> DirectoryDeleteSpec(t, p) == (t, None)
    ensures FindByPath(t, p).Some? && t[FindByPath(t, p).value].kind == File ==>
      DirectoryDeleteSpec(t, p) == (t, Some("not a directory"))
  {
  }

  /** Deleting the same directory twice from a tidy table: the second delete
      changes nothing and reports what the first reported. */
  lemma DirectoryDeleteIdempotent(t: Table, p: string)
    requires Valid(t) && Tidy(t)
    ensures var (u, err) := DirectoryDeleteSpec(t, p);
      Valid(u) && DirectoryDeleteSpec(u, p) == (u, err)
  {
    var (u, err) := DirectoryDeleteSpec(t, p);
    DeleteTreeTidy(t, p, MaxPathLength(t));
    FlagsOnlyKeeps(t, u, 0);
  }
}
