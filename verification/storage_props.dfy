/** Properties that relate several calls of the storage, or a call to an
    independent description of its effect. */
module StorageProperties {
  import opened Base
  import opened Text
  import opened PathPattern
  import opened Paths
  import opened FileTree
  import opened TreeInvariants
  import opened TreeDelete
  import opened Storage

  /** The entry the storage root itself names. */
  function RootEntry(s: LocalFileStorage): Path {
    Resolve(RootString(s))
  }

  /** Every entry a call added lies on the way to `root` or beneath it. */
  ghost predicate AddsNearRoot(t: Tree, t': Tree, root: Path) {
    forall q :: q in t' && q !in t ==> IsPrefix(q, root) || IsPrefix(root, q)
  }

  lemma PrefixTransitive(a: Path, b: Path, c: Path)
    requires IsPrefix(a, b) && IsPrefix(b, c)
    ensures IsPrefix(a, c)
  {
    assert c[..|a|] == c[..|b|][..|a|];
  }

  // ---- Path checking ----------------------------------------------------

  /** A path with a `.` or `..` segment is refused, so no call can climb out
      of the root: every operation raises before touching the disk. */
  lemma DotSegmentRejected(s: LocalFileStorage, disk: Disk, path: string, i: int, cwdHasOne: bool)
    requires 0 <= i < |path| && path[i] == '.' && (i == 0 || path[i - 1] == '/')
    ensures NormalizePath(s, path) == Err(IncorrectPath(path))
    ensures Mkdir(s, disk, path, cwdHasOne) == Raised(IncorrectPath(path))
    ensures FileExists(s, disk.tree, path).Err?
  {
    RejectsDotSegment(path, i);
  }

  /** A path holding a character other than a letter, digit, `_`, `/` or
      `.` (a trailing newline aside) is refused. */
  lemma ForeignCharRejected(s: LocalFileStorage, disk: Disk, path: string, i: int, cwdHasOne: bool)
    requires 0 <= i < |path| && !IsPathChar(path[i]) && path[i] != '.'
    requires !(i == |path| - 1 && path[i] == '\n')
    ensures NormalizePath(s, path) == Err(IncorrectPath(path))
    ensures Mkdir(s, disk, path, cwdHasOne) == Raised(IncorrectPath(path))
    ensures FileExists(s, disk.tree, path).Err?
  {
    RejectsForeignChar(path, i);
  }

  /** A directory path followed by a `name.ext` file name is accepted and
      names that file beneath the root. */
  lemma FilePathAccepted(s: LocalFileStorage, head: string, name: string, ext: string)
    requires |head| > 0 && AllPathChars(head)
    requires |name| > 0 && AllWordChars(name)
    requires |ext| > 0 && AllWordChars(ext)
    ensures NormalizePath(s, head + "/" + name + "." + ext).Ok?
    ensures IsPrefix(RootEntry(s), TargetOf(s, head + "/" + name + "." + ext))
  {
    AcceptsFileName(head, name, ext);
  }

  /** `getFileUrl` does not care how many separators or spaces the path
      starts with. */
  lemma FileUrlIgnoresLeadingSeparators(s: LocalFileStorage, path: string)
    ensures GetFileUrl(s, "/" + path) == GetFileUrl(s, path)
    ensures GetFileUrl(s, " " + path) == GetFileUrl(s, path)
  {
    LTrimSkipsTrimmedPrefix("/", path, {' ', '/'});
    LTrimSkipsTrimmedPrefix(" ", path, {' ', '/'});
  }

  // ---- Confinement ------------------------------------------------------

  /** An entry below the target of a logical path, or on the way to the
      directory `dirname` gives for it, lies on the way to the root or
      beneath it; when the path has a segment or the root is plain, one on
      the way to that directory lies on the way to the target. */
  lemma NearTarget(s: LocalFileStorage, path: string, q: Path)
    requires PregMatches(path)
    requires IsPrefix(TargetOf(s, path), q) || IsPrefix(q, EnsuredDir(s, path))
    ensures IsPrefix(q, RootEntry(s)) || IsPrefix(RootEntry(s), q)
    ensures (Segments(path) != [] || PlainRoot(s)) && IsPrefix(q, EnsuredDir(s, path)) ==>
              IsPrefix(q, TargetOf(s, path))
  {
    var root := RootEntry(s);
    var p := TargetOf(s, path);
    var d := EnsuredDir(s, path);
    assert IsPrefix(root, p);
    if IsPrefix(p, q) {
      PrefixTransitive(root, p, q);
    } else if IsPrefix(d, p) {
      PrefixTransitive(q, d, p);
      PrefixesComparable(q, root, p);
    } else {
      PrefixesComparable(q, root, d);
    }
    if (Segments(path) != [] || PlainRoot(s)) && IsPrefix(q, d) {
      PrefixTransitive(q, d, p);
    }
  }

  /** Keeping what lies outside `p` keeps what lies outside any prefix of
      `p`. */
  lemma PrefixOutside(t: Tree, t': Tree, r: Path, p: Path)
    requires IsPrefix(r, p) && KeepsOutside(t, t', p, p)
    ensures KeepsOutside(t, t', r, r)
  {
    forall q | q in t && !IsPrefix(r, q)
      ensures q in t' && t'[q] == t[q]
    {
      if IsPrefix(p, q) {
        PrefixTransitive(r, p, q);
      }
    }
  }

  /** A write-like change (all but the target kept, added entries the
      target or on the way to its `dirname`) is confined to the root. */
  lemma WriteConfined(s: LocalFileStorage, path: string, t: Tree, t': Tree)
    requires PregMatches(path)
    requires KeepsAllBut(t, t', TargetOf(s, path))
    requires forall q :: q in t' && q !in t ==> q == TargetOf(s, path) || IsPrefix(q, EnsuredDir(s, path))
    ensures KeepsOutside(t, t', RootEntry(s), RootEntry(s))
    ensures AddsNearRoot(t, t', RootEntry(s))
    ensures Segments(path) != [] || PlainRoot(s) ==>
              forall q :: q in t' && q !in t ==> IsPrefix(q, TargetOf(s, path))
  {
    var p := TargetOf(s, path);
    assert IsPrefix(RootEntry(s), p);
    KeepsAllButKeepsOutside(t, t', p);
    PrefixOutside(t, t', RootEntry(s), p);
    forall q | q in t' && q !in t
      ensures IsPrefix(q, RootEntry(s)) || IsPrefix(RootEntry(s), q)
      ensures Segments(path) != [] || PlainRoot(s) ==> IsPrefix(q, p)
    {
      NearTarget(s, path, q);
    }
  }

  /** `putFileContents` changes no entry outside the root, adds entries
      only on the way to the root or beneath it, and, for a path with a
      segment or a plain root, only on the way to the file. */
  lemma PutFileContentsConfined(s: LocalFileStorage, disk: Disk, path: string, content: seq<byte>, flags: int)
    ensures var out := PutFileContents(s, disk, path, content, flags);
            out.Returned? ==>
              && KeepsOutside(disk.tree, out.disk.tree, RootEntry(s), RootEntry(s))
              && AddsNearRoot(disk.tree, out.disk.tree, RootEntry(s))
              && (Segments(path) != [] || PlainRoot(s) ==>
                    forall q :: q in out.disk.tree && q !in disk.tree ==> IsPrefix(q, TargetOf(s, path)))
  {
    var out := PutFileContents(s, disk, path, content, flags);
    if out.Returned? && out.disk.tree != disk.tree {
      WriteConfined(s, path, disk.tree, out.disk.tree);
    }
  }

  /** `copy` changes no entry outside the root, adds entries only on the
      way to the root or beneath it, and, for a destination with a segment
      or a plain root, only on the way to the destination. */
  lemma CopyConfined(s: LocalFileStorage, disk: Disk, source: string, destination: string)
    ensures var out := Copy(s, disk, source, destination);
            out.Returned? ==>
              && KeepsOutside(disk.tree, out.disk.tree, RootEntry(s), RootEntry(s))
              && AddsNearRoot(disk.tree, out.disk.tree, RootEntry(s))
              && (PregMatches(destination) && (Segments(destination) != [] || PlainRoot(s)) ==>
                    forall q :: q in out.disk.tree && q !in disk.tree ==> IsPrefix(q, TargetOf(s, destination)))
  {
    var out := Copy(s, disk, source, destination);
    if out.Returned? && out.disk.tree != disk.tree {
      WriteConfined(s, destination, disk.tree, out.disk.tree);
    }
  }

  /** `move` (and `rename`) changes no entry outside the root: the moved
      subtree lies under the root, and so does the place it moves to. It
      adds entries only on the way to the root or beneath it, and, for a
      destination with a segment or a plain root, only on the way to the
      destination or beneath it. */
  lemma MoveConfined(s: LocalFileStorage, disk: Disk, source: string, destination: string)
    requires Wellformed(disk.tree)
    ensures var out := Move(s, disk, source, destination);
            out.Returned? ==>
              && KeepsOutside(disk.tree, out.disk.tree, RootEntry(s), RootEntry(s))
              && AddsNearRoot(disk.tree, out.disk.tree, RootEntry(s))
              && (PregMatches(destination) && (Segments(destination) != [] || PlainRoot(s)) ==>
                    forall q :: q in out.disk.tree && q !in disk.tree ==>
                      IsPrefix(q, TargetOf(s, destination)) || IsPrefix(TargetOf(s, destination), q))
  {
    var out := Move(s, disk, source, destination);
    if out.Returned? && out.disk != disk {
      var root := RootEntry(s);
      var src := TargetOf(s, source);
      var dst := TargetOf(s, destination);
      forall q | q in disk.tree && !IsPrefix(root, q)
        ensures q in out.disk.tree && out.disk.tree[q] == disk.tree[q]
      {
        if IsPrefix(src, q) {
          PrefixTransitive(root, src, q);
        }
        if IsPrefix(dst, q) {
          PrefixTransitive(root, dst, q);
        }
      }
      forall q | q in out.disk.tree && q !in disk.tree
        ensures IsPrefix(q, root) || IsPrefix(root, q)
        ensures Segments(destination) != [] || PlainRoot(s) ==> IsPrefix(q, dst) || IsPrefix(dst, q)
      {
        NearTarget(s, destination, q);
      }
    }
  }

  /** `copyFile` changes no entry outside the root, adds entries only on
      the way to the root or beneath it, and, for a destination with a
      segment or a plain root, only on the way to the destination. */
  lemma CopyFileConfined(s: LocalFileStorage, disk: Disk, filePath: string, destination: string)
    ensures var out := CopyFile(s, disk, filePath, destination);
            out.Returned? ==>
              && KeepsOutside(disk.tree, out.disk.tree, RootEntry(s), RootEntry(s))
              && AddsNearRoot(disk.tree, out.disk.tree, RootEntry(s))
              && (PregMatches(destination) && (Segments(destination) != [] || PlainRoot(s)) ==>
                    forall q :: q in out.disk.tree && q !in disk.tree ==> IsPrefix(q, TargetOf(s, destination)))
  {
    var out := CopyFile(s, disk, filePath, destination);
    if out.Returned? && out.disk.tree != disk.tree {
      WriteConfined(s, destination, disk.tree, out.disk.tree);
    }
  }

  /** `moveFile` changes no entry outside the root, adds entries only on
      the way to the root or beneath it, and, for a destination with a
      segment or a plain root, only on the way to the destination. */
  lemma MoveFileConfined(s: LocalFileStorage, disk: Disk, filePath: string, destination: string)
    ensures var out := MoveFile(s, disk, filePath, destination);
            out.Returned? ==>
              && KeepsOutside(disk.tree, out.disk.tree, RootEntry(s), RootEntry(s))
              && AddsNearRoot(disk.tree, out.disk.tree, RootEntry(s))
              && (PregMatches(destination) && (Segments(destination) != [] || PlainRoot(s)) ==>
                    forall q :: q in out.disk.tree && q !in disk.tree ==> IsPrefix(q, TargetOf(s, destination)))
  {
    var out := MoveFile(s, disk, filePath, destination);
    if out.Returned? && out.disk.tree != disk.tree {
      WriteConfined(s, destination, disk.tree, out.disk.tree);
    }
  }

  /** `mkdir` changes no existing entry and adds only directories on the
      way to its target, hence on the way to the root or beneath it. */
  lemma MkdirConfined(s: LocalFileStorage, disk: Disk, path: string, cwdHasOne: bool)
    ensures var out := Mkdir(s, disk, path, cwdHasOne);
            out.Returned? ==>
              && KeepsOutside(disk.tree, out.disk.tree, RootEntry(s), RootEntry(s))
              && AddsNearRoot(disk.tree, out.disk.tree, RootEntry(s))
              && (forall q :: q in out.disk.tree && q !in disk.tree ==> IsPrefix(q, TargetOf(s, path)))
              && forall q :: q in disk.tree ==> q in out.disk.tree && out.disk.tree[q] == disk.tree[q]
  {
    var out := Mkdir(s, disk, path, cwdHasOne);
    if out.Returned? {
      var p := TargetOf(s, path);
      assert IsPrefix(RootEntry(s), p);
      forall q | q in out.disk.tree && q !in disk.tree
        ensures IsPrefix(q, RootEntry(s)) || IsPrefix(RootEntry(s), q)
      {
        PrefixesComparable(q, RootEntry(s), p);
      }
    }
  }

  /** `delete` (and `rmdir`) changes nothing outside the root. */
  lemma DeleteConfined(s: LocalFileStorage, disk: Disk, path: string, recursive: bool, out: Outcome<bool>)
    requires DeleteBehaviour(s, disk, path, recursive, out)
    ensures out.Returned? ==> KeepsOutside(disk.tree, out.disk.tree, RootEntry(s), RootEntry(s))
  {
    if out.Returned? && PregMatches(path) {
      var root := RootEntry(s);
      var p := TargetOf(s, path);
      forall q | q in disk.tree && !IsPrefix(root, q)
        ensures q in out.disk.tree && out.disk.tree[q] == disk.tree[q]
      {
        if IsPrefix(p, q) {
          PrefixTransitive(root, p, q);
        }
      }
    }
  }

  // ---- Well-formedness --------------------------------------------------

  lemma PutFileContentsKeepsWellformed(s: LocalFileStorage, disk: Disk, path: string, content: seq<byte>, flags: int)
    requires Wellformed(disk.tree)
    ensures var out := PutFileContents(s, disk, path, content, flags);
            out.Returned? ==> Wellformed(out.disk.tree)
  {
    if PregMatches(path) {
      var p := TargetOf(s, path);
      var x := NormalizePath(s, path).value;
      EnsureKeepsWellformed(s, disk.tree, x);
      var e := EnsureFileDirectoryExists(s, disk.tree, x);
      if e.ok {
        PutContentsKeepsWellformed(e.tree, p, content, HasAppendFlag(flags));
      }
    }
  }

  lemma CopyKeepsWellformed(s: LocalFileStorage, disk: Disk, source: string, destination: string)
    requires Wellformed(disk.tree)
    ensures var out := Copy(s, disk, source, destination);
            out.Returned? ==> Wellformed(out.disk.tree)
  {
    if PregMatches(source) && TargetOf(s, source) in disk.tree && PregMatches(destination) {
      var src := TargetOf(s, source);
      var d := TargetOf(s, destination);
      var x := NormalizePath(s, destination).value;
      EnsureKeepsWellformed(s, disk.tree, x);
      var e := EnsureFileDirectoryExists(s, disk.tree, x);
      if e.ok {
        var c := CopyNative(e.tree, src, d);
        CopyNativeKeepsWellformed(e.tree, src, d);
        assert Copy(s, disk, source, destination) == Returned(c.ok, disk.(tree := c.tree));
      }
    }
  }

  lemma CopyFileKeepsWellformed(s: LocalFileStorage, disk: Disk, filePath: string, destination: string)
    requires Wellformed(disk.tree)
    ensures var out := CopyFile(s, disk, filePath, destination);
            out.Returned? ==> Wellformed(out.disk.tree)
  {
    if Resolve(filePath) in disk.external && PregMatches(destination) {
      var d := TargetOf(s, destination);
      var x := NormalizePath(s, destination).value;
      EnsureKeepsWellformed(s, disk.tree, x);
      var e := EnsureFileDirectoryExists(s, disk.tree, x);
      if e.ok && CanWriteFile(e.tree, d) {
        WriteFileKeepsWellformed(e.tree, d, File(disk.external[Resolve(filePath)]));
      }
    }
  }

  lemma MoveFileKeepsWellformed(s: LocalFileStorage, disk: Disk, filePath: string, destination: string)
    requires Wellformed(disk.tree)
    ensures var out := MoveFile(s, disk, filePath, destination);
            out.Returned? ==> Wellformed(out.disk.tree)
  {
    if Resolve(filePath) in disk.external && PregMatches(destination) {
      var d := TargetOf(s, destination);
      var x := NormalizePath(s, destination).value;
      EnsureKeepsWellformed(s, disk.tree, x);
      var e := EnsureFileDirectoryExists(s, disk.tree, x);
      if e.ok && CanWriteFile(e.tree, d) {
        WriteFileKeepsWellformed(e.tree, d, File(disk.external[Resolve(filePath)]));
      }
    }
  }

  lemma MkdirKeepsWellformed(s: LocalFileStorage, disk: Disk, path: string, cwdHasOne: bool)
    requires Wellformed(disk.tree)
    ensures var out := Mkdir(s, disk, path, cwdHasOne);
            out.Returned? ==> Wellformed(out.disk.tree)
  {
    if PregMatches(path) {
      MkdirAllKeepsWellformed(disk.tree, TargetOf(s, path));
    }
  }

  /** The tree a recursive delete leaves is a well-formed file system. */
  lemma AfterDeleteKeepsWellformed(t: Tree, locked: set<Path>, p: Path)
    requires Wellformed(t) && IsDirIn(t, p)
    ensures Wellformed(AfterDelete(t, locked, p))
  {
    if p in locked {
      LockedDeletesNothing(t, locked, p);
    } else {
      PrunedKeepsWellformed(t, locked, p, Children(t, p));
      RmdirKeepsWellformed(Pruned(t, locked, p, Children(t, p)), p);
      FinalRmdir(t, locked, p, Children(t, p));
    }
  }

  lemma DeleteKeepsWellformed(s: LocalFileStorage, disk: Disk, path: string, recursive: bool, out: Outcome<bool>)
    requires Wellformed(disk.tree)
    requires DeleteBehaviour(s, disk, path, recursive, out)
    ensures out.Returned? ==> Wellformed(out.disk.tree)
  {
    if PregMatches(path) {
      var t := disk.tree;
      var p := TargetOf(s, path);
      if p in t && t[p].File? {
        UnlinkKeepsWellformed(t, p);
      } else if p in t && p !in disk.unreadable && Children(t, p) == {} {
        RmdirKeepsWellformed(t, p);
      } else if p in t && p !in disk.unreadable && recursive {
        AfterDeleteKeepsWellformed(t, disk.unreadable, p);
      }
    }
  }

  // ---- Writing and reading back ----------------------------------------

  /** For every integer, HasAppendFlag is PHP's `flags & FILE_APPEND`
      test on the two's complement bit pattern. `FILE_APPEND` is bit 3,
      which lies in the low byte, and `flags % 256` (never negative) is
      that byte for negative flags too. */
  lemma AppendFlagBits(flags: int)
    ensures HasAppendFlag(flags) <==> ((flags % 256) as bv8) & (FileAppend as bv8) != 0
  {
    LowByteDecidesAppend(flags);
    AppendBitOfByte(flags % 256);
  }

  /** Bit 3 of an integer is bit 3 of its low byte. */
  lemma LowByteDecidesAppend(flags: int)
    ensures (flags / 8) % 2 == ((flags % 256) / 8) % 2
  {
    var k := flags / 256;
    assert flags == 256 * k + flags % 256;
    assert flags / 8 == 32 * k + (flags % 256) / 8;
  }

  /** Bit 3 of a byte, read arithmetically and as a bit vector. */
  lemma AppendBitOfByte(n: int)
    requires 0 <= n < 256
    ensures ((n as bv8) & 8 != 0) <==> (n / 8) % 2 == 1
  {
  }

  /** After a successful write without `FILE_APPEND` the path names a file
      holding exactly the bytes written. */
  lemma PutThenRead(s: LocalFileStorage, disk: Disk, path: string, content: seq<byte>, flags: int)
    requires !HasAppendFlag(flags)
    ensures var out := PutFileContents(s, disk, path, content, flags);
            out.Returned? && out.value.Some? ==>
              && IsFile(s, out.disk.tree, path) == Ok(true)
              && out.disk.tree[TargetOf(s, path)] == File(content)
  {
  }

  /** Writing a file and then appending the same bytes leaves them twice:
      the second call finds the directory in place and the file writable.
      Stated for a path of two segments or a plain root, where the directory
      checked first is the one above the file's directory. */
  lemma PutThenAppend(s: LocalFileStorage, disk: Disk, path: string, content: seq<byte>, flags: int, appendFlags: int)
    requires Wellformed(disk.tree)
    requires |Segments(path)| >= 2 || PlainRoot(s)
    requires !HasAppendFlag(flags) && HasAppendFlag(appendFlags)
    ensures var first := PutFileContents(s, disk, path, content, flags);
            first.Returned? && first.value.Some? ==>
              var second := PutFileContents(s, first.disk, path, content, appendFlags);
              && second.Returned? && second.value == Some(|content|)
              && second.disk.tree[TargetOf(s, path)] == File(content + content)
  {
    var first := PutFileContents(s, disk, path, content, flags);
    if first.Returned? && first.value.Some? {
      var t := first.disk.tree;
      var p := TargetOf(s, path);
      PutFileContentsKeepsWellformed(s, disk, path, content, flags);
      ParentsPresent(t, p);
      assert CheckedDir(s, path) in t;
    }
  }

  /** An entry's directory and the directory above it are present. */
  lemma ParentsPresent(t: Tree, q: Path)
    requires Wellformed(t) && q in t
    ensures IsDirIn(t, Parent(q)) && Parent(Parent(q)) in t
  {
    assert EntryOk(t, q);
    assert EntryOk(t, Parent(q));
  }

  /** The directory check looks one level too high: when the directory it
      checks exists but the file's own directory does not, nothing is
      created and the write fails. */
  lemma PutFailsWhenOnlyGrandparentExists(s: LocalFileStorage, disk: Disk, path: string, content: seq<byte>, flags: int)
    requires PregMatches(path)
    requires CheckedDir(s, path) in disk.tree && Parent(TargetOf(s, path)) !in disk.tree
    ensures PutFileContents(s, disk, path, content, flags) == Returned(None, disk)
  {
  }

  /** When even the directory above the file's directory is missing, the
      write creates the file's directory and everything missing above it,
      and succeeds, provided no file stands in the way. Stated for a path
      of two segments or a plain root, as `PutThenAppend`. */
  lemma PutIntoMissingDirectory(s: LocalFileStorage, disk: Disk, path: string, content: seq<byte>, flags: int)
    requires Wellformed(disk.tree) && PregMatches(path)
    requires |Segments(path)| >= 2 || PlainRoot(s)
    requires Parent(Parent(TargetOf(s, path))) !in disk.tree
    requires forall i :: 0 <= i < |TargetOf(s, path)| && TargetOf(s, path)[..i] in disk.tree ==>
               disk.tree[TargetOf(s, path)[..i]] == Dir
    ensures var out := PutFileContents(s, disk, path, content, flags);
            && out.Returned? && out.value == Some(|content|)
            && IsDirIn(out.disk.tree, Parent(TargetOf(s, path)))
            && out.disk.tree[TargetOf(s, path)] == File(content)
  {
    var t := disk.tree;
    var p := TargetOf(s, path);
    MissingAboveDirectory(t, p);
    assert CheckedDir(s, path) == Parent(Parent(p)) && Parent(Parent(p)) !in t;
    var out := PutFileContents(s, disk, path, content, flags);
    assert out.Returned?;
    assert out.value.Some? by {
      assert Segments(path) != [] || PlainRoot(s);
      assert p != [] && !IsDirIn(t, p) && CanMkdirAll(t, Parent(p));
    }
    assert out.disk.tree[p] == File(content) by {
      assert !IsFileIn(t, p);
    }
    PutFileContentsKeepsWellformed(s, disk, path, content, flags);
    ParentsPresent(out.disk.tree, p);
  }

  /** Nothing lies inside a missing directory. */
  lemma MissingParentMissingChild(t: Tree, q: Path)
    requires Wellformed(t) && q != [] && Parent(q) !in t
    ensures q !in t
  {
    assert q in t ==> EntryOk(t, q);
  }

  /** When the directory above an entry's directory is missing and no
      ancestor of the entry is a file, the entry is not `/`, neither it nor
      its directory exists, and recursive `mkdir` can create the directory. */
  lemma MissingAboveDirectory(t: Tree, p: Path)
    requires Wellformed(t)
    requires Parent(Parent(p)) !in t
    requires forall i :: 0 <= i < |p| && p[..i] in t ==> t[p[..i]] == Dir
    ensures p != [] && Parent(p) != []
    ensures p !in t && CanMkdirAll(t, Parent(p))
  {
    var d := Parent(p);
    assert [] in t;
    MissingParentMissingChild(t, d);
    MissingParentMissingChild(t, p);
    forall i | 0 <= i < |d| && d[..i] in t
      ensures t[d[..i]] == Dir
    {
      assert d[..i] == p[..i];
    }
  }

  // ---- Copying and moving ----------------------------------------------

  /** Moving a file is copying it and then unlinking the source: both
      succeed or fail together and leave the same tree but for the source. */
  lemma MoveOfFileIsCopyThenUnlink(s: LocalFileStorage, disk: Disk, source: string, destination: string)
    requires Wellformed(disk.tree)
    requires PregMatches(source) && PregMatches(destination)
    requires IsFileIn(disk.tree, TargetOf(s, source))
    requires TargetOf(s, source) != TargetOf(s, destination)
    ensures var m := Move(s, disk, source, destination);
            var c := Copy(s, disk, source, destination);
            && m.Returned? && c.Returned? && m.value == c.value
            && (c.value ==> m.disk.tree == c.disk.tree - {TargetOf(s, source)})
            && (!c.value ==> m.disk.tree == c.disk.tree)
  {
    var src := TargetOf(s, source);
    var dst := TargetOf(s, destination);
    assert [] in disk.tree;
    var ensured := EnsureFileDirectoryExists(s, disk.tree, NormalizePath(s, destination).value);
    if ensured.ok {
      RenameFileIsCopyThenUnlink(ensured.tree, src, dst);
    }
  }

  /** Native rename of a file against native copy followed by unlink. */
  lemma RenameFileIsCopyThenUnlink(e: Tree, src: Path, dst: Path)
    requires IsFileIn(e, src) && src != [] && src != dst
    ensures RenameNative(e, src, dst).ok == CopyNative(e, src, dst).ok
    ensures RenameNative(e, src, dst).ok ==>
              RenameNative(e, src, dst).tree == CopyNative(e, src, dst).tree - {src}
    ensures !RenameNative(e, src, dst).ok ==> RenameNative(e, src, dst).tree == CopyNative(e, src, dst).tree
  {
    assert (e - {src})[dst := e[src]] == e[dst := e[src]] - {src};
  }

  /** `moveFile` writes what `copyFile` writes and, on success, also takes
      the outside file away. */
  lemma MoveFileIsCopyFileThenForget(s: LocalFileStorage, disk: Disk, filePath: string, destination: string)
    ensures var m := MoveFile(s, disk, filePath, destination);
            var c := CopyFile(s, disk, filePath, destination);
            && m.Returned? == c.Returned?
            && (m.Returned? ==>
                  && m.value == c.value && m.disk.tree == c.disk.tree
                  && m.disk.external == if m.value then disk.external - {Resolve(filePath)} else disk.external)
  {
    if Resolve(filePath) in disk.external && PregMatches(destination) {
      var d := TargetOf(s, destination);
      var e := EnsureFileDirectoryExists(s, disk.tree, NormalizePath(s, destination).value);
      var bytes := File(disk.external[Resolve(filePath)]);
      if e.ok && CanWriteFile(e.tree, d) {
        assert CopyFile(s, disk, filePath, destination) == Returned(true, disk.(tree := e.tree[d := bytes]));
      } else {
        assert CopyFile(s, disk, filePath, destination) == Returned(false, disk.(tree := e.tree));
      }
    }
  }

  /** After a successful `copyFile` the destination is a file holding the
      outside file's bytes, and the outside file is still there. */
  lemma CopyFileThenRead(s: LocalFileStorage, disk: Disk, filePath: string, destination: string)
    ensures var out := CopyFile(s, disk, filePath, destination);
            out.Returned? && out.value ==>
              && IsFile(s, out.disk.tree, destination) == Ok(true)
              && out.disk.tree[TargetOf(s, destination)] == File(disk.external[Resolve(filePath)])
              && Resolve(filePath) in out.disk.external
  {
  }

  /** After a successful `moveFile` the destination holds the bytes and the
      outside file is gone. */
  lemma MoveFileThenRead(s: LocalFileStorage, disk: Disk, filePath: string, destination: string)
    ensures var out := MoveFile(s, disk, filePath, destination);
            out.Returned? && out.value ==>
              && IsFile(s, out.disk.tree, destination) == Ok(true)
              && out.disk.tree[TargetOf(s, destination)] == File(disk.external[Resolve(filePath)])
              && Resolve(filePath) !in out.disk.external
  {
  }

  /** `copyFile` into a storage where the destination's directory and the
      one above it are missing, with no file on the way, creates the chain
      and succeeds: the destination then holds the outside file's bytes,
      which are still there. */
  lemma CopyFileIntoMissingDirectory(s: LocalFileStorage, disk: Disk, filePath: string, destination: string)
    requires Wellformed(disk.tree) && PregMatches(destination)
    requires Resolve(filePath) in disk.external
    requires |Segments(destination)| >= 2 || PlainRoot(s)
    requires Parent(Parent(TargetOf(s, destination))) !in disk.tree
    requires forall i :: 0 <= i < |TargetOf(s, destination)| && TargetOf(s, destination)[..i] in disk.tree ==>
               disk.tree[TargetOf(s, destination)[..i]] == Dir
    ensures var out := CopyFile(s, disk, filePath, destination);
            && out.Returned? && out.value
            && IsFile(s, out.disk.tree, destination) == Ok(true)
            && out.disk.tree[TargetOf(s, destination)] == File(disk.external[Resolve(filePath)])
            && Resolve(filePath) in out.disk.external
  {
    var out := CopyFile(s, disk, filePath, destination);
    MissingAboveDirectory(disk.tree, TargetOf(s, destination));
    assert WriteReady(s, disk.tree, destination);
    assert out.Returned? && out.value;
    CopyFileThenRead(s, disk, filePath, destination);
  }

  /** `moveFile` into a missing directory chain succeeds likewise, and the
      outside file is gone afterwards. */
  lemma MoveFileIntoMissingDirectory(s: LocalFileStorage, disk: Disk, filePath: string, destination: string)
    requires Wellformed(disk.tree) && PregMatches(destination)
    requires Resolve(filePath) in disk.external
    requires |Segments(destination)| >= 2 || PlainRoot(s)
    requires Parent(Parent(TargetOf(s, destination))) !in disk.tree
    requires forall i :: 0 <= i < |TargetOf(s, destination)| && TargetOf(s, destination)[..i] in disk.tree ==>
               disk.tree[TargetOf(s, destination)[..i]] == Dir
    ensures var out := MoveFile(s, disk, filePath, destination);
            && out.Returned? && out.value
            && IsFile(s, out.disk.tree, destination) == Ok(true)
            && out.disk.tree[TargetOf(s, destination)] == File(disk.external[Resolve(filePath)])
            && Resolve(filePath) !in out.disk.external
  {
    var out := MoveFile(s, disk, filePath, destination);
    MissingAboveDirectory(disk.tree, TargetOf(s, destination));
    assert WriteReady(s, disk.tree, destination);
    assert out.Returned? && out.value;
    MoveFileThenRead(s, disk, filePath, destination);
  }

  // ---- Directories -----------------------------------------------------

  /** The odd guard of `mkdir` never changes its result: when it fires the
      target already exists and native `mkdir` would fail too. */
  lemma MkdirGuardIrrelevant(s: LocalFileStorage, disk: Disk, path: string)
    ensures Mkdir(s, disk, path, true) == Mkdir(s, disk, path, false)
  {
  }

  /** A second `mkdir` of the same path fails and changes nothing. */
  lemma MkdirTwice(s: LocalFileStorage, disk: Disk, path: string, a: bool, b: bool)
    ensures var first := Mkdir(s, disk, path, a);
            first.Returned? && first.value ==>
              Mkdir(s, first.disk, path, b) == Returned(false, first.disk)
  {
  }

  /** Deleting again after a successful delete finds nothing and succeeds
      without change. */
  lemma DeleteIdempotent(s: LocalFileStorage, disk: Disk, path: string, r1: bool, r2: bool,
                         out1: Outcome<bool>, out2: Outcome<bool>)
    requires DeleteBehaviour(s, disk, path, r1, out1)
    requires out1.Returned? && out1.value
    requires DeleteBehaviour(s, out1.disk, path, r2, out2)
    ensures out2 == out1
  {
    var p := TargetOf(s, path);
    assert p !in out1.disk.tree by {
      if p in disk.tree && disk.tree[p].Dir? && p !in disk.unreadable && Children(disk.tree, p) != {} {
        assert p != [] && Doomed(disk.tree, disk.unreadable, p, p);
      }
    }
  }

  /** With no unopenable directory at or below it, a recursive delete of a
      directory other than `/` removes exactly that directory and everything
      beneath it. */
  lemma RecursiveDeleteRemovesSubtree(s: LocalFileStorage, disk: Disk, path: string, out: Outcome<bool>)
    requires Wellformed(disk.tree) && PregMatches(path)
    requires IsDirIn(disk.tree, TargetOf(s, path)) && TargetOf(s, path) != []
    requires forall x :: x in disk.unreadable ==> !IsPrefix(TargetOf(s, path), x)
    requires DeleteBehaviour(s, disk, path, true, out)
    ensures out == Returned(true, disk.(tree := disk.tree - Under(disk.tree, TargetOf(s, path))))
  {
    var t := disk.tree;
    var p := TargetOf(s, path);
    if Children(t, p) == {} {
      EmptyDirectoryIsAlone(t, p);
    } else {
      UnlockedDeleteRemovesSubtree(t, disk.unreadable, p);
    }
  }

  /** A directory without children is the only entry at or below it. */
  lemma EmptyDirectoryIsAlone(t: Tree, p: Path)
    requires Wellformed(t) && IsDirIn(t, p) && Children(t, p) == {}
    ensures t - {p} == t - Under(t, p)
  {
    forall q | q in Under(t, p) ensures q == p {
      if q != p {
        BelowMeansNonEmpty(t, p, q);
      }
    }
  }

  /** With nothing locked at or below `p`, everything there is doomed. */
  lemma UnlockedDeleteRemovesSubtree(t: Tree, locked: set<Path>, p: Path)
    requires p != [] && p in t
    requires forall x :: x in locked ==> !IsPrefix(p, x)
    ensures Doomed(t, locked, p, p)
    ensures AfterDelete(t, locked, p) == t - Under(t, p)
  {
    assert p in Under(t, p);
    forall q | q in Under(t, p) ensures Doomed(t, locked, p, q) {
    }
  }
}
