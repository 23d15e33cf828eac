/** Directory listing, the emptiness test `isDirEmpty` and the recursive
    delete `deleteRecursively` of the storage, over the tree of `FileTree`. */
module TreeDelete {
  import opened Paths
  import opened FileTree
  import opened TreeInvariants

  /** `readdir` on `p` until it returns false: `.`, `..` and one name per
      entry of the directory, each once, in an order the model leaves open. */
  method ListDir(t: Tree, p: Path) returns (entries: seq<string>)
    ensures forall e :: e in entries <==> e == "." || e == ".." || e in ChildNames(t, p)
    ensures forall i, j :: 0 <= i < j < |entries| ==> entries[i] != entries[j]
  {
    entries := [".", ".."];
    var rest := ChildNames(t, p) - {".", ".."};
    while rest != {}
      invariant rest <= ChildNames(t, p) - {".", ".."}
      invariant forall e :: e in entries <==> e == "." || e == ".." || (e in ChildNames(t, p) && e !in rest)
      invariant forall i, j :: 0 <= i < j < |entries| ==> entries[i] != entries[j]
      decreases rest
    {
      var e :| e in rest;
      entries := entries + [e];
      rest := rest - {e};
    }
  }

  /** `isDirEmpty` after a successful `opendir`: reads entries until one is
      neither `.` nor `..`. */
  method IsDirEmpty(entries: seq<string>) returns (empty: bool)
    ensures empty <==> forall i :: 0 <= i < |entries| ==> entries[i] == "." || entries[i] == ".."
  {
    var i := 0;
    while i < |entries|
      invariant 0 <= i <= |entries|
      invariant forall j :: 0 <= j < i ==> entries[j] == "." || entries[j] == ".."
    {
      if entries[i] != "." && entries[i] != ".." {
        return false;
      }
      i := i + 1;
    }
    return true;
  }

  /** On a well-formed tree the listing holds only `.` and `..` exactly when
      the directory has no entries. */
  lemma EmptyListingIffNoChildren(t: Tree, p: Path, entries: seq<string>)
    requires Wellformed(t)
    requires forall e :: e in entries <==> e == "." || e == ".." || e in ChildNames(t, p)
    ensures (forall i :: 0 <= i < |entries| ==> entries[i] == "." || entries[i] == "..")
            <==> Children(t, p) == {}
  {
    if Children(t, p) != {} {
      var c :| c in Children(t, p);
      assert EntryOk(t, c);
      var n := c[|c| - 1];
      assert ValidName(n);
      assert n in ChildNames(t, p);
      assert n in entries;
      var i :| 0 <= i < |entries| && entries[i] == n;
      assert !(entries[i] == "." || entries[i] == "..");
    } else {
      assert ChildNames(t, p) == {};
      forall i | 0 <= i < |entries|
        ensures entries[i] == "." || entries[i] == ".."
      {
        assert entries[i] in entries;
      }
    }
  }

  /** A directory below (or at) `top` that `opendir` cannot open. */
  ghost predicate Blocks(t: Tree, locked: set<Path>, top: Path, x: Path) {
    IsDirIn(t, x) && x in locked && IsPrefix(top, x)
  }

  /** What a recursive delete of `top` removes: an entry at or below `top`
      goes exactly when no unopenable directory below `top` lies on its
      line, neither an ancestor (which stops the walk before it) nor the
      entry itself or a descendant (which leaves it non-empty). */
  ghost predicate Doomed(t: Tree, locked: set<Path>, top: Path, q: Path) {
    && q in t && IsPrefix(top, q)
    && forall x :: Blocks(t, locked, top, x) ==> !IsPrefix(x, q) && !IsPrefix(q, x)
  }

  /** The tree a recursive delete of `top` should leave: every doomed entry
      removed except `/`, which `rmdir` never removes, everything else as it
      was. */
  ghost function AfterDelete(t: Tree, locked: set<Path>, top: Path): Tree {
    map q | q in t && !(q != [] && Doomed(t, locked, top, q)) :: t[q]
  }

  /** An entry removed so far by the loop of `DeleteRecursively` on `p`: it
      lies in an already visited child of `p` and is doomed. */
  ghost predicate Swept(t: Tree, locked: set<Path>, p: Path, visited: set<Path>, q: Path) {
    |p| < |q| && q[..|p|] == p && q[..|p| + 1] in visited && Doomed(t, locked, p, q)
  }

  ghost function Pruned(t: Tree, locked: set<Path>, p: Path, visited: set<Path>): Tree {
    map q | q in t && !Swept(t, locked, p, visited, q) :: t[q]
  }

  /** `deleteRecursively`: on a directory `opendir` cannot open it does
      nothing and fails; otherwise it recurses into each sub-directory and
      unlinks each file, ignoring their results, and finally reports only
      whether `rmdir` of the now hopefully empty directory succeeds.
      Everything outside `p` is untouched; inside, exactly the doomed
      entries are removed (all of them when nothing is unopenable). */
  method DeleteRecursively(t: Tree, locked: set<Path>, p: Path) returns (ok: bool, r: Tree)
    requires Wellformed(t) && IsDirIn(t, p)
    ensures r == AfterDelete(t, locked, p)
    ensures ok <==> p != [] && Doomed(t, locked, p, p)
    decreases |Under(t, p)|
  {
    if p in locked {
      LockedDeletesNothing(t, locked, p);
      return false, t;
    }
    var entries := ListDir(t, p);
    r := t;
    ghost var visited: set<Path> := {};
    assert r == Pruned(t, locked, p, visited);
    var i := 0;
    while i < |entries|
      invariant 0 <= i <= |entries|
      invariant r == Pruned(t, locked, p, visited)
      invariant visited <= Children(t, p)
      invariant forall c :: c in visited ==> exists j :: 0 <= j < i && c == p + [entries[j]]
      invariant forall j :: 0 <= j < i && entries[j] != "." && entries[j] != ".." ==> p + [entries[j]] in visited
    {
      var e := entries[i];
      if e != "." && e != ".." {
        var c := p + [e];
        NextChild(t, locked, p, visited, entries, i);
        if IsDirIn(r, c) {
          PrunedKeepsWellformed(t, locked, p, visited);
          UnderShrinks(t, r, p, c);
          var _, r' := DeleteRecursively(r, locked, c);
          VisitDirectory(t, locked, p, visited, c);
          r := r';
        } else {
          VisitFile(t, locked, p, visited, c);
          r := Unlink(r, c).tree;
        }
        visited := visited + {c};
      }
      i := i + 1;
    }
    AllChildrenVisited(t, p, entries, visited);
    FinalRmdir(t, locked, p, visited);
    var c := Rmdir(r, p);
    ok, r := c.ok, c.tree;
  }

  lemma LockedDeletesNothing(t: Tree, locked: set<Path>, p: Path)
    requires IsDirIn(t, p) && p in locked
    ensures t == AfterDelete(t, locked, p)
    ensures !Doomed(t, locked, p, p)
  {
    assert Blocks(t, locked, p, p);
    forall q | q in t
      ensures !Doomed(t, locked, p, q)
    {
      if IsPrefix(p, q) {
        assert Blocks(t, locked, p, p);
      }
    }
  }

  /** The entry the loop visits next is an unvisited child still present. */
  lemma NextChild(t: Tree, locked: set<Path>, p: Path, visited: set<Path>, entries: seq<string>, i: int)
    requires forall e :: e in entries <==> e == "." || e == ".." || e in ChildNames(t, p)
    requires forall i, j :: 0 <= i < j < |entries| ==> entries[i] != entries[j]
    requires 0 <= i < |entries| && entries[i] != "." && entries[i] != ".."
    requires forall c :: c in visited ==> exists j :: 0 <= j < i && c == p + [entries[j]]
    ensures p + [entries[i]] in Children(t, p)
    ensures p + [entries[i]] !in visited
    ensures p + [entries[i]] in Pruned(t, locked, p, visited)
  {
    var e := entries[i];
    var c := p + [e];
    assert e in entries;
    var q :| q in Children(t, p) && q[|q| - 1] == e;
    assert q == c;
    assert c[..|p| + 1] == c;
  }

  lemma AllChildrenVisited(t: Tree, p: Path, entries: seq<string>, visited: set<Path>)
    requires Wellformed(t)
    requires forall e :: e in entries <==> e == "." || e == ".." || e in ChildNames(t, p)
    requires forall j :: 0 <= j < |entries| && entries[j] != "." && entries[j] != ".." ==> p + [entries[j]] in visited
    ensures Children(t, p) <= visited
  {
    forall c | c in Children(t, p)
      ensures c in visited
    {
      assert EntryOk(t, c);
      var n := c[|c| - 1];
      assert n in ChildNames(t, p);
      assert n in entries;
      var j :| 0 <= j < |entries| && entries[j] == n;
      assert c == p + [n];
    }
  }

  /** Every entry below a doomed entry is doomed too. */
  lemma DoomedDownward(t: Tree, locked: set<Path>, top: Path, a: Path, q: Path)
    requires Doomed(t, locked, top, a) && q in t && IsPrefix(a, q)
    ensures Doomed(t, locked, top, q)
  {
  }

  /** Removing the swept entries leaves a well-formed tree. */
  lemma PrunedKeepsWellformed(t: Tree, locked: set<Path>, p: Path, visited: set<Path>)
    requires Wellformed(t) && IsDirIn(t, p)
    ensures Wellformed(Pruned(t, locked, p, visited))
  {
    var r := Pruned(t, locked, p, visited);
    assert [] in r;
    forall q | q in r
      ensures EntryOk(r, q)
    {
      assert EntryOk(t, q);
      if q != [] {
        var a := Parent(q);
        assert !Swept(t, locked, p, visited, a) by {
          if Swept(t, locked, p, visited, a) {
            assert q[..|p| + 1] == a[..|p| + 1];
            DoomedDownward(t, locked, p, a, q);
          }
        }
      }
    }
  }

  /** The recursive call's tree is strictly smaller below its target. */
  lemma UnderShrinks(t: Tree, r: Tree, p: Path, c: Path)
    requires forall q :: q in r ==> q in t
    requires p in t && c in Children(t, p)
    ensures |Under(r, c)| < |Under(t, p)|
  {
    var a := Under(r, c);
    var b := Under(t, p);
    forall q | q in a
      ensures q in b
    {
      assert q[..|p|] == c[..|p|];
    }
    assert p in b && p !in a;
    assert b == a + (b - a);
    assert |b - a| >= 1;
  }

  /** Below a child `c` of an unblocked `p`, doomed for `c` in the pruned
      tree is doomed for `p` in the original tree. */
  lemma DoomedTransfer(t: Tree, locked: set<Path>, p: Path, visited: set<Path>, c: Path, q: Path)
    requires p !in locked && c in Children(t, p)
    requires q in Pruned(t, locked, p, visited) && IsPrefix(c, q)
    ensures Doomed(Pruned(t, locked, p, visited), locked, c, q) <==> Doomed(t, locked, p, q)
  {
    var r := Pruned(t, locked, p, visited);
    assert IsPrefix(p, q) by {
      assert q[..|p|] == c[..|p|];
    }
    if Doomed(r, locked, c, q) {
      forall x | Blocks(t, locked, p, x)
        ensures !IsPrefix(x, q) && !IsPrefix(q, x)
      {
        assert x in r by {
          assert !Doomed(t, locked, p, x);
        }
      }
    } else if Doomed(t, locked, p, q) {
      forall x | Blocks(r, locked, c, x)
        ensures !IsPrefix(x, q) && !IsPrefix(q, x)
      {
        assert x[..|p|] == c[..|p|];
        assert Blocks(t, locked, p, x);
      }
    }
  }

  lemma VisitDirectory(t: Tree, locked: set<Path>, p: Path, visited: set<Path>, c: Path)
    requires p !in locked && c in Children(t, p) && c !in visited
    ensures AfterDelete(Pruned(t, locked, p, visited), locked, c) == Pruned(t, locked, p, visited + {c})
  {
    var r := Pruned(t, locked, p, visited);
    var a := AfterDelete(r, locked, c);
    var b := Pruned(t, locked, p, visited + {c});
    forall q | q in t
      ensures q in a <==> q in b
    {
      if IsPrefix(c, q) {
        assert q[..|p|] == c[..|p|];
        assert q[..|p| + 1] == c;
        if q in r {
          DoomedTransfer(t, locked, p, visited, c, q);
        }
      } else if |p| < |q| && q[..|p|] == p {
        assert q[..|p| + 1] != c;
      }
    }
    assert a.Keys == b.Keys;
  }

  lemma VisitFile(t: Tree, locked: set<Path>, p: Path, visited: set<Path>, c: Path)
    requires Wellformed(t)
    requires p !in locked && c in Children(t, p) && c !in visited
    requires !IsDirIn(Pruned(t, locked, p, visited), c)
    ensures Unlink(Pruned(t, locked, p, visited), c).tree == Pruned(t, locked, p, visited + {c})
  {
    var r := Pruned(t, locked, p, visited);
    assert c[..|p| + 1] == c && c[..|p|] == p;
    assert c in r;
    NothingBelowFile(t, c);
    assert Doomed(t, locked, p, c);
    var a := Unlink(r, c).tree;
    var b := Pruned(t, locked, p, visited + {c});
    forall q | q in t
      ensures q in a <==> q in b
    {
      if q == c {
      } else if |p| < |q| && q[..|p|] == p {
        assert q[..|p| + 1] != c;
      }
    }
    assert a.Keys == b.Keys;
  }

  /** After every child is visited, `rmdir(p)` succeeds exactly when no
      blocking directory lies below `p`, and the result is the doomed set. */
  lemma FinalRmdir(t: Tree, locked: set<Path>, p: Path, visited: set<Path>)
    requires Wellformed(t) && IsDirIn(t, p) && p !in locked
    requires visited == Children(t, p)
    ensures Rmdir(Pruned(t, locked, p, visited), p).ok <==> p != [] && Doomed(t, locked, p, p)
    ensures Rmdir(Pruned(t, locked, p, visited), p).tree == AfterDelete(t, locked, p)
  {
    var r := Pruned(t, locked, p, visited);
    assert p in r;
    ChildrenGoneIffDoomed(t, locked, p, visited);
    var c := Rmdir(r, p);
    var b := AfterDelete(t, locked, p);
    forall q | q in t
      ensures q in c.tree <==> q in b
    {
      if q == p {
      } else {
        SweptIffDoomed(t, locked, p, visited, q);
      }
    }
    assert c.tree.Keys == b.Keys;
  }

  /** Once every child is visited, an entry strictly below `p` is swept
      exactly when it is doomed. */
  lemma SweptIffDoomed(t: Tree, locked: set<Path>, p: Path, visited: set<Path>, q: Path)
    requires Wellformed(t) && visited == Children(t, p)
    requires q in t && q != p
    ensures Swept(t, locked, p, visited, q) <==> (q != [] && Doomed(t, locked, p, q))
  {
    if Doomed(t, locked, p, q) {
      assert |p| < |q|;
      AncestorExists(t, q, |p| + 1);
      var c := q[..|p| + 1];
      assert EntryOk(t, c);
      assert c[..|p|] == p;
      assert c in Children(t, p);
    }
  }

  lemma ChildrenGoneIffDoomed(t: Tree, locked: set<Path>, p: Path, visited: set<Path>)
    requires Wellformed(t) && IsDirIn(t, p) && p !in locked
    requires visited == Children(t, p)
    ensures Children(Pruned(t, locked, p, visited), p) == {} <==> Doomed(t, locked, p, p)
  {
    var r := Pruned(t, locked, p, visited);
    if Doomed(t, locked, p, p) {
      forall c | c in Children(r, p)
        ensures false
      {
        assert c[..|p|] == p;
        assert c[..|p| + 1] == c;
        DoomedDownward(t, locked, p, p, c);
      }
    } else {
      var x :| Blocks(t, locked, p, x) && (IsPrefix(x, p) || IsPrefix(p, x));
      assert x != p;
      AncestorExists(t, x, |p| + 1);
      var c := x[..|p| + 1];
      assert EntryOk(t, c);
      assert c[..|p|] == p;
      assert c in Children(t, p);
      assert !Doomed(t, locked, p, c);
      assert c in Children(r, p);
    }
  }
}
