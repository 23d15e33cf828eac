/** Every native call the storage makes keeps the tree well formed: no
    entry is left without its directory, the root stays a directory, and
    every name stays valid. */
module TreeInvariants {
  import opened Paths
  import opened FileTree

  lemma MkdirAllKeepsWellformed(t: Tree, p: Path)
    requires Wellformed(t) && ValidPath(p)
    ensures Wellformed(MkdirAll(t, p).tree)
  {
    var r := MkdirAll(t, p).tree;
    forall q | q in r
      ensures EntryOk(r, q)
    {
      if q in t {
        assert EntryOk(t, q);
      } else {
        assert IsPrefix(q, p);
        assert ValidPath(q) by {
          forall j | 0 <= j < |q| ensures ValidName(q[j]) {
            assert q[j] == p[j];
          }
        }
        var i := |q|;
        assert Parent(q) == p[..i - 1];
        if Parent(q) in t {
          assert t[p[..i - 1]] == Dir;
        }
      }
    }
  }

  lemma UnlinkKeepsWellformed(t: Tree, p: Path)
    requires Wellformed(t)
    ensures Wellformed(Unlink(t, p).tree)
  {
    var r := Unlink(t, p).tree;
    forall q | q in r
      ensures EntryOk(r, q)
    {
      assert EntryOk(t, q);
    }
  }

  lemma RmdirKeepsWellformed(t: Tree, p: Path)
    requires Wellformed(t)
    ensures Wellformed(Rmdir(t, p).tree)
  {
    var c := Rmdir(t, p);
    forall q | q in c.tree
      ensures EntryOk(c.tree, q)
    {
      assert EntryOk(t, q);
    }
  }

  /** Writing a file where `CanWriteFile` holds keeps the tree well formed. */
  lemma WriteFileKeepsWellformed(t: Tree, d: Path, n: Node)
    requires Wellformed(t) && ValidPath(d) && CanWriteFile(t, d) && n.File?
    ensures Wellformed(t[d := n])
  {
    var r := t[d := n];
    forall q | q in r
      ensures EntryOk(r, q)
    {
      if q != d {
        assert EntryOk(t, q);
      }
    }
  }

  lemma PutContentsKeepsWellformed(t: Tree, d: Path, content: seq<byte>, append: bool)
    requires Wellformed(t) && ValidPath(d)
    ensures Wellformed(PutContents(t, d, content, append).tree)
  {
    if CanWriteFile(t, d) {
      WriteFileKeepsWellformed(t, d, PutContents(t, d, content, append).tree[d]);
    }
  }

  lemma CopyNativeKeepsWellformed(t: Tree, s: Path, d: Path)
    requires Wellformed(t) && ValidPath(d)
    ensures Wellformed(CopyNative(t, s, d).tree)
  {
    if CopyNative(t, s, d).ok {
      WriteFileKeepsWellformed(t, d, t[s]);
    }
  }

  lemma RenameNativeKeepsWellformed(t: Tree, s: Path, d: Path)
    requires Wellformed(t) && ValidPath(d)
    ensures Wellformed(RenameNative(t, s, d).tree)
  {
    var c := RenameNative(t, s, d);
    if c.ok && s != d {
      if t[s].File? {
        RenameFileKeepsWellformed(t, s, d);
      } else {
        MoveSubtreeKeepsWellformed(t, s, d);
      }
    }
  }

  lemma RenameFileKeepsWellformed(t: Tree, s: Path, d: Path)
    requires Wellformed(t) && ValidPath(d)
    requires IsFileIn(t, s) && s != d && CanWriteFile(t, d)
    ensures Wellformed((t - {s})[d := t[s]])
  {
    var r := (t - {s})[d := t[s]];
    forall q | q in r
      ensures EntryOk(r, q)
    {
      if q != d {
        assert EntryOk(t, q);
      }
    }
  }

  /** Moving `o` from beneath `s` to beneath `d` commutes with taking the
      parent. */
  lemma RebaseParent(s: Path, d: Path, o: Path)
    requires IsPrefix(s, o) && o != s
    ensures IsPrefix(s, Parent(o))
    ensures Parent(d + o[|s|..]) == d + Parent(o)[|s|..]
  {
  }

  /** Where the entries of `MoveSubtree` come from. */
  lemma MoveSubtreeEntries(t: Tree, s: Path, d: Path, q: Path)
    requires q in MoveSubtree(t, s, d)
    ensures q in Rebased(t, s, d) ==>
              && |d| <= |q| && s + q[|d|..] in Under(t, s)
              && q == d + (s + q[|d|..])[|s|..]
              && MoveSubtree(t, s, d)[q] == t[s + q[|d|..]]
    ensures q !in Rebased(t, s, d) ==> q in t && q !in Under(t, s) && MoveSubtree(t, s, d)[q] == t[q]
  {
    RebasedInverse(t, s, d);
    if q in Rebased(t, s, d) {
      assert (s + q[|d|..])[|s|..] == q[|d|..];
    }
  }

  lemma MoveSubtreeKeepsWellformed(t: Tree, s: Path, d: Path)
    requires Wellformed(t) && ValidPath(d)
    requires s in t && s != [] && t[s] == Dir && s != d
    requires d != [] && IsDirIn(t, Parent(d)) && !IsPrefix(s, d)
    requires !(d in t && (t[d].File? || Children(t, d) != {}))
    ensures Wellformed(MoveSubtree(t, s, d))
  {
    var r := MoveSubtree(t, s, d);
    assert [] in r && r[[]] == Dir by {
      assert [] !in Under(t, s);
      if [] in Rebased(t, s, d) {
        RebasedInverse(t, s, d);
      }
    }
    forall q | q in r
      ensures EntryOk(r, q)
    {
      MoveSubtreeEntries(t, s, d, q);
      if q in Rebased(t, s, d) {
        MovedEntryOk(t, s, d, q);
      } else {
        KeptEntryOk(t, s, d, q);
      }
    }
  }

  lemma MovedEntryOk(t: Tree, s: Path, d: Path, q: Path)
    requires Wellformed(t) && ValidPath(d)
    requires s in t && s != [] && t[s] == Dir && s != d
    requires d != [] && IsDirIn(t, Parent(d)) && !IsPrefix(s, d)
    requires q in Rebased(t, s, d)
    ensures q in MoveSubtree(t, s, d) && EntryOk(MoveSubtree(t, s, d), q)
  {
    var r := MoveSubtree(t, s, d);
    RebasedInverse(t, s, d);
    var o := s + q[|d|..];
    assert o in Under(t, s);
    assert q == d + o[|s|..] by {
      assert o[|s|..] == q[|d|..];
    }
    if o == s {
      assert q == d;
      assert Parent(d) !in Under(t, s);
      MoveSubtreeEntries(t, s, d, Parent(d));
    } else {
      assert EntryOk(t, o);
      RebaseParent(s, d, o);
      var po := Parent(o);
      assert po in Under(t, s);
      assert Parent(q) in Rebased(t, s, d);
      MoveSubtreeEntries(t, s, d, Parent(q));
      assert s + Parent(q)[|d|..] == po;
      forall j | 0 <= j < |q|
        ensures ValidName(q[j])
      {
        if j >= |d| {
          assert q[j] == o[j - |d| + |s|];
        }
      }
    }
  }

  lemma KeptEntryOk(t: Tree, s: Path, d: Path, q: Path)
    requires Wellformed(t) && ValidPath(d)
    requires s in t && s != [] && t[s] == Dir && s != d
    requires d != [] && IsDirIn(t, Parent(d)) && !IsPrefix(s, d)
    requires !(d in t && (t[d].File? || Children(t, d) != {}))
    requires q in t && q !in Under(t, s)
    ensures q in MoveSubtree(t, s, d) && EntryOk(MoveSubtree(t, s, d), q)
  {
    assert EntryOk(t, q);
    if q != [] {
      var pq := Parent(q);
      ParentOutside(s, q);
      assert pq !in Under(t, s);
      if pq in Rebased(t, s, d) {
        RebasedInverse(t, s, d);
        assert IsPrefix(d, pq);
        assert IsPrefix(d, q) by {
          assert q[..|pq|] == pq;
        }
        BelowMeansNonEmpty(t, d, q);
        assert false;
      }
      MoveSubtreeEntries(t, s, d, pq);
    }
  }

  /** If `q` is not beneath `s`, neither is its parent. */
  lemma ParentOutside(s: Path, q: Path)
    requires q != [] && !IsPrefix(s, q)
    ensures !IsPrefix(s, Parent(q))
  {
  }

  /** An entry strictly beneath `d` makes `d` an existing, non-empty
      directory. */
  lemma BelowMeansNonEmpty(t: Tree, d: Path, q: Path)
    requires Wellformed(t)
    requires q in t && |q| > |d| && IsPrefix(d, q)
    ensures IsDirIn(t, d) && Children(t, d) != {}
  {
    var c := q[..|d| + 1];
    AncestorExists(t, q, |d| + 1);
    assert c[..|d|] == q[..|d|];
    assert Parent(c) == d;
    assert EntryOk(t, c);
    assert c in Children(t, d);
  }

  /** Every ancestor of an entry exists. */
  lemma {:induction false} AncestorExists(t: Tree, q: Path, i: nat)
    requires Wellformed(t) && q in t && i <= |q|
    ensures q[..i] in t
    decreases |q| - i
  {
    if i == |q| {
      assert q[..i] == q;
    } else {
      assert EntryOk(t, q);
      AncestorExists(t, Parent(q), i);
      assert Parent(q)[..i] == q[..i];
    }
  }

  /** A strict ancestor of an entry is a directory. */
  lemma StrictAncestorIsDir(t: Tree, q: Path, i: nat)
    requires Wellformed(t) && q in t && i < |q|
    ensures IsDirIn(t, q[..i])
  {
    AncestorExists(t, q, i + 1);
    var c := q[..i + 1];
    assert EntryOk(t, c);
    assert Parent(c) == q[..i];
  }

  /** Nothing lies strictly beneath a file. */
  lemma NothingBelowFile(t: Tree, f: Path)
    requires Wellformed(t) && IsFileIn(t, f)
    ensures forall q :: q in t && IsPrefix(f, q) ==> q == f
  {
    forall q | q in t && IsPrefix(f, q)
      ensures q == f
    {
      if q != f {
        StrictAncestorIsDir(t, q, |f|);
      }
    }
  }

  /** `rmdir` undoes a recursive `mkdir` of a directory whose parent
      exists: only that one directory was created, and it is empty. */
  lemma RmdirUndoesMkdir(t: Tree, p: Path)
    requires Wellformed(t) && p != [] && IsDirIn(t, Parent(p)) && p !in t
    ensures MkdirAll(t, p).ok
    ensures Rmdir(MkdirAll(t, p).tree, p) == Change(true, t)
  {
    var pp := Parent(p);
    forall i | 0 <= i < |p| && p[..i] in t
      ensures t[p[..i]] == Dir
    {
      assert p[..i] == pp[..i];
      if i < |pp| {
        StrictAncestorIsDir(t, pp, i);
      } else {
        assert p[..i] == pp;
      }
    }
    var r := MkdirAll(t, p).tree;
    assert r.Keys == t.Keys + {p} by {
      forall q | q != p && IsPrefix(q, p)
        ensures q in t
      {
        AncestorExists(t, pp, |q|);
        assert pp[..|q|] == q;
      }
    }
    assert Children(r, p) == {} by {
      forall q | q in r && q != []
        ensures Parent(q) != p
      {
        if q != p {
          assert q in t;
          assert EntryOk(t, q);
        }
      }
    }
    assert r - {p} == t;
  }
}
