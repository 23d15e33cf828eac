/** The disk as the storage sees it: a finite tree of entries keyed by
    resolved path, and the native filesystem calls the storage makes
    (`mkdir` with `recursive`, `unlink`, `rmdir`, `copy`, `rename`,
    `file_put_contents`), each as a pure function from a tree to its boolean
    result and the tree afterwards. */
module FileTree {
  import opened Paths

  newtype byte = x: int | 0 <= x < 256

  /** An entry: a regular file and its bytes, or a directory. */
  datatype Node = File(content: seq<byte>) | Dir

  /** Every existing entry, keyed by its resolved path; `[]` is `/`. */
  type Tree = map<Path, Node>

  /** The whole state the storage touches: the tree, the files outside the
      storage that `copyFile`/`moveFile` read by absolute path, and the
      directories that `opendir` cannot open. */
  datatype Disk = Disk(tree: Tree, external: map<Path, seq<byte>>, unreadable: set<Path>)

  /** A native call's boolean result and the tree after it. */
  datatype Change = Change(ok: bool, tree: Tree)

  /** A tree a real filesystem can be in: the root is a directory, every
      other entry sits in an existing directory, and every name is valid. */
  ghost predicate Wellformed(t: Tree) {
    && [] in t && t[[]] == Dir
    && forall q {:trigger EntryOk(t, q)} :: q in t ==> EntryOk(t, q)
  }

  /** An entry other than the root sits in an existing directory, and all
      its names are valid. */
  ghost predicate EntryOk(t: Tree, q: Path) {
    q != [] ==> IsDirIn(t, Parent(q)) && ValidPath(q)
  }

  /** `p` and every entry beneath it. */
  function Under(t: Tree, p: Path): set<Path> {
    set q | q in t && IsPrefix(p, q)
  }

  /** The entries directly inside `p`. */
  function Children(t: Tree, p: Path): set<Path> {
    set q | q in t && q != [] && Parent(q) == p
  }

  /** The names `readdir` reports for `p`, besides `.` and `..`. */
  function ChildNames(t: Tree, p: Path): set<string> {
    set q | q in Children(t, p) :: q[|q| - 1]
  }

  predicate IsDirIn(t: Tree, p: Path) {
    p in t && t[p] == Dir
  }

  predicate IsFileIn(t: Tree, p: Path) {
    p in t && t[p].File?
  }

  /** `p` and its ancestors, the root included. */
  function Prefixes(p: Path): set<Path> {
    set i | 0 <= i <= |p| :: p[..i]
  }

  /** Recursive `mkdir` of `p` can succeed: `p` is missing and every
      ancestor of it that exists is a directory. */
  predicate CanMkdirAll(t: Tree, p: Path) {
    p !in t && forall i :: 0 <= i < |p| && p[..i] in t ==> t[p[..i]] == Dir
  }

  /** Native `mkdir(p, mode, true)`: fails if `p` exists or one of its
      ancestors is a file; otherwise creates every missing directory on the
      way to `p`. Permission bits are not modelled. */
  function MkdirAll(t: Tree, p: Path): (c: Change)
    ensures c.ok <==> CanMkdirAll(t, p)
    ensures c.ok ==> IsDirIn(c.tree, p)
    ensures c.ok ==> forall i :: 0 <= i <= |p| ==> p[..i] in c.tree
    ensures forall q :: q in t ==> q in c.tree && c.tree[q] == t[q]
    ensures forall q :: q in c.tree && q !in t ==> IsPrefix(q, p) && c.tree[q] == Dir
    ensures !c.ok ==> c.tree == t
  {
    if p in t || exists i :: 0 <= i < |p| && p[..i] in t && t[p[..i]].File? then
      Change(false, t)
    else
      var r := t + map q | q in Prefixes(p) && q !in t :: Dir;
      assert forall i :: 0 <= i <= |p| ==> p[..i] in Prefixes(p);
      assert p[..|p|] == p;
      Change(true, r)
  }

  /** Native `unlink(p)`: removes a file; fails on a directory or nothing. */
  function Unlink(t: Tree, p: Path): (c: Change)
    ensures c.ok <==> IsFileIn(t, p)
    ensures c.tree.Keys == if c.ok then t.Keys - {p} else t.Keys
    ensures forall q :: q in c.tree ==> c.tree[q] == t[q]
  {
    if IsFileIn(t, p) then Change(true, t - {p}) else Change(false, t)
  }

  /** Native `rmdir(p)`: removes an empty directory other than `/`. */
  function Rmdir(t: Tree, p: Path): (c: Change)
    ensures c.ok <==> p != [] && IsDirIn(t, p) && Children(t, p) == {}
    ensures c.tree.Keys == if c.ok then t.Keys - {p} else t.Keys
    ensures forall q :: q in c.tree ==> c.tree[q] == t[q]
  {
    if p != [] && IsDirIn(t, p) && Children(t, p) == {} then Change(true, t - {p})
    else Change(false, t)
  }

  /** A regular file can be written at `d`: it is not `/`, its directory
      exists, and it is not itself a directory. */
  predicate CanWriteFile(t: Tree, d: Path) {
    d != [] && IsDirIn(t, Parent(d)) && !IsDirIn(t, d)
  }

  /** Native `file_put_contents(d, content, flags)`: creates or truncates
      the file, or appends to it when `append` is set, and reports the number
      of bytes written. */
  function PutContents(t: Tree, d: Path, content: seq<byte>, append: bool): (c: Change)
    ensures c.ok <==> CanWriteFile(t, d)
    ensures c.ok ==> c.tree == t[d := File(if append && d in t then t[d].content + content else content)]
    ensures !c.ok ==> c.tree == t
  {
    if !CanWriteFile(t, d) then Change(false, t)
    else if append && d in t then Change(true, t[d := File(t[d].content + content)])
    else Change(true, t[d := File(content)])
  }

  /** Native `copy(s, d)` inside the tree: the source must be a regular file
      other than the destination, and the destination must be writable. */
  function CopyNative(t: Tree, s: Path, d: Path): (c: Change)
    ensures c.ok <==> IsFileIn(t, s) && s != d && CanWriteFile(t, d)
    ensures c.ok ==> c.tree == t[d := t[s]]
    ensures !c.ok ==> c.tree == t
  {
    if IsFileIn(t, s) && s != d && CanWriteFile(t, d) then Change(true, t[d := t[s]])
    else Change(false, t)
  }

  /** The paths the entries beneath `s` take when `s` is renamed to `d`. */
  function Rebased(t: Tree, s: Path, d: Path): set<Path> {
    set q | q in Under(t, s) :: d + q[|s|..]
  }

  lemma RebasedInverse(t: Tree, s: Path, d: Path)
    ensures forall k :: k in Rebased(t, s, d) ==> |d| <= |k| && s + k[|d|..] in Under(t, s)
  {
    forall k | k in Rebased(t, s, d)
      ensures |d| <= |k| && s + k[|d|..] in Under(t, s)
    {
      var q :| q in Under(t, s) && k == d + q[|s|..];
      assert k[|d|..] == q[|s|..];
      assert s + q[|s|..] == q;
    }
  }

  /** The tree after the directory `s` and all it contains become `d`. */
  function MoveSubtree(t: Tree, s: Path, d: Path): Tree {
    RebasedInverse(t, s, d);
    (t - Under(t, s)) + map k | k in Rebased(t, s, d) :: t[s + k[|d|..]]
  }

  /** When native `rename(s, d)` succeeds: the source exists and is not `/`;
      renaming onto itself always succeeds; otherwise the destination's
      directory must exist, a file may only replace a non-directory, and a
      directory may only replace a missing or empty directory and cannot
      move beneath itself. */
  predicate RenameAllowed(t: Tree, s: Path, d: Path) {
    && s in t && s != []
    && (s == d || RenameTargetAllowed(t, s, d))
  }

  predicate RenameTargetAllowed(t: Tree, s: Path, d: Path)
    requires s in t
  {
    && d != [] && IsDirIn(t, Parent(d))
    && (if t[s].File? then !IsDirIn(t, d)
        else !IsPrefix(s, d) && !(d in t && (t[d].File? || Children(t, d) != {})))
  }

  /** Native `rename(s, d)`: moves the entry and everything beneath it. */
  function RenameNative(t: Tree, s: Path, d: Path): (c: Change)
    ensures c.ok <==> RenameAllowed(t, s, d)
    ensures c.ok && s == d ==> c.tree == t
    ensures c.ok && s != d && IsFileIn(t, s) ==> c.tree == (t - {s})[d := t[s]]
    ensures c.ok && s != d && IsDirIn(t, s) ==> c.tree == MoveSubtree(t, s, d)
    ensures !c.ok ==> c.tree == t
  {
    if !RenameAllowed(t, s, d) then Change(false, t)
    else if s == d then Change(true, t)
    else if t[s].File? then Change(true, (t - {s})[d := t[s]])
    else Change(true, MoveSubtree(t, s, d))
  }

  // ---- What undoes what ---------------------------------------------------

  /** Unlinking a file that a write has just created gives back the tree
      from before the write. */
  lemma UnlinkUndoesWrite(t: Tree, d: Path, content: seq<byte>, append: bool)
    requires d !in t && CanWriteFile(t, d)
    ensures Unlink(PutContents(t, d, content, append).tree, d) == Change(true, t)
  {
    assert t[d := File(content)] - {d} == t;
  }

  /** Appending to a file that a write has just filled gives what one write
      of both parts gives, and both calls fail together. */
  lemma AppendAfterWrite(t: Tree, d: Path, a: seq<byte>, b: seq<byte>)
    ensures var first := PutContents(t, d, a, false);
            var second := PutContents(first.tree, d, b, true);
            && second.ok == first.ok
            && second.tree == PutContents(t, d, a + b, false).tree
  {
    var first := PutContents(t, d, a, false);
    if first.ok {
      assert Parent(d) != d;
      assert CanWriteFile(first.tree, d);
      assert first.tree[d := File(a + b)] == t[d := File(a + b)];
    }
  }

  /** Unlinking a copy made at a free place gives back the tree from before
      the copy. */
  lemma UnlinkUndoesCopy(t: Tree, s: Path, d: Path)
    requires d !in t && CopyNative(t, s, d).ok
    ensures Unlink(CopyNative(t, s, d).tree, d) == Change(true, t)
  {
    assert t[d := t[s]] - {d} == t;
  }

  /** Renaming a file to a free place and back gives back the tree. */
  lemma RenameBack(t: Tree, s: Path, d: Path)
    requires IsFileIn(t, s) && s != [] && IsDirIn(t, Parent(s))
    requires d !in t && CanWriteFile(t, d)
    ensures RenameNative(t, s, d).ok
    ensures RenameNative(RenameNative(t, s, d).tree, d, s) == Change(true, t)
  {
    var r := (t - {s})[d := t[s]];
    assert Parent(s) != d;
    assert RenameAllowed(r, d, s);
    assert (r - {d})[s := r[d]] == t;
  }
}
