/** The class `LocalFileStorage`: a root directory, an
    optional base URL and a directory mode, and the operations that map
    logical paths under the root onto the disk. Every operation is a pure
    function (or, where the source loops, a method) from the storage, the
    disk and the arguments to the PHP return value and the disk afterwards,
    or to the exception `normalizePath` throws. */
module Storage {
  import opened Base
  import opened Text
  import opened PathPattern
  import opened Paths
  import opened FileTree
  import opened TreeInvariants
  import opened TreeDelete

  /** `0777`, the initial `defaultDirMode`. */
  const InitialDirMode: int := 0x1FF

  /** PHP's `FILE_APPEND` flag bit. */
  const FileAppend: int := 8

  /** The storage handle. `None` is PHP's `null`. */
  datatype LocalFileStorage = LocalFileStorage(rootPath: Option<string>, baseUrl: Option<string>, defaultDirMode: int)

  /** What a call does: throws the path exception (before touching the
      disk), or returns a value with the disk afterwards. */
  datatype Outcome<+T> = Raised(error: PathError) | Returned(value: T, disk: Disk)

  /** Every existing entry other than `p` is still there, unchanged. */
  ghost predicate KeepsAllBut(t: Tree, t': Tree, p: Path) {
    forall q :: q in t && q != p ==> q in t' && t'[q] == t[q]
  }

  /** Every entry beneath neither `a` nor `b` is still there, unchanged. */
  ghost predicate KeepsOutside(t: Tree, t': Tree, a: Path, b: Path) {
    forall q :: q in t && !IsPrefix(a, q) && !IsPrefix(b, q) ==> q in t' && t'[q] == t[q]
  }

  /** Keeping all but `p` is the stronger frame: it keeps the entries
      beneath `p` as well. */
  lemma KeepsAllButKeepsOutside(t: Tree, t': Tree, p: Path)
    requires KeepsAllBut(t, t', p)
    ensures KeepsOutside(t, t', p, p)
  {
    forall q | q in t && !IsPrefix(p, q)
      ensures q in t' && t'[q] == t[q]
    {
      assert q != p;
    }
  }

  /** The constructor: string arguments are kept, `null` leaves the field
      `null`, and the directory mode starts at `0777`. */
  function New(rootPath: Option<string>, baseUrl: Option<string>): (s: LocalFileStorage)
    ensures GetRootPath(s) == rootPath && GetBaseUrl(s) == baseUrl
    ensures GetDefaultDirMode(s) == 511
  {
    LocalFileStorage(rootPath, baseUrl, InitialDirMode)
  }

  function GetBaseUrl(s: LocalFileStorage): Option<string> {
    s.baseUrl
  }

  function GetRootPath(s: LocalFileStorage): Option<string> {
    s.rootPath
  }

  function GetDefaultDirMode(s: LocalFileStorage): int {
    s.defaultDirMode
  }

  /** Each setter is read back by its getter and leaves the other fields. */
  function SetBaseUrl(s: LocalFileStorage, baseUrl: string): (r: LocalFileStorage)
    ensures GetBaseUrl(r) == Some(baseUrl)
    ensures GetRootPath(r) == GetRootPath(s) && GetDefaultDirMode(r) == GetDefaultDirMode(s)
  {
    s.(baseUrl := Some(baseUrl))
  }

  function SetRootPath(s: LocalFileStorage, rootPath: string): (r: LocalFileStorage)
    ensures GetRootPath(r) == Some(rootPath)
    ensures GetBaseUrl(r) == GetBaseUrl(s) && GetDefaultDirMode(r) == GetDefaultDirMode(s)
  {
    s.(rootPath := Some(rootPath))
  }

  function SetDefaultDirMode(s: LocalFileStorage, mode: int): (r: LocalFileStorage)
    ensures GetDefaultDirMode(r) == mode
    ensures GetRootPath(r) == GetRootPath(s) && GetBaseUrl(r) == GetBaseUrl(s)
  {
    s.(defaultDirMode := mode)
  }

  /** PHP truthiness of a string: only `""` and `"0"` are false. */
  predicate IsTruthy(s: string) {
    s != "" && s != "0"
  }

  /** `getFileUrl`: no URL when the base URL is `null` or falsy; otherwise
      the base URL, a `/`, and the path with its leading spaces and
      separators removed (only those removed, and nothing else changed). */
  function GetFileUrl(s: LocalFileStorage, path: string): (url: Option<string>)
    ensures url.None? <==> s.baseUrl.None? || !IsTruthy(s.baseUrl.value)
    ensures url.Some? ==>
              var b := s.baseUrl.value;
              && |b| + 1 <= |url.value| && url.value[..|b| + 1] == b + "/"
              && var tail := url.value[|b| + 1..];
                 && |tail| <= |path| && tail == path[|path| - |tail|..]
                 && (forall i :: 0 <= i < |path| - |tail| ==> path[i] == ' ' || path[i] == '/')
                 && (tail == [] || (tail[0] != ' ' && tail[0] != '/'))
  {
    match s.baseUrl
    case Some(b) =>
      if IsTruthy(b) then
        var tail := LTrim(path, {' ', '/'});
        assert (b + "/" + tail)[|b| + 1..] == tail;
        Some(b + "/" + tail)
      else None
    case None => None
  }

  /** The root as PHP concatenates it: `null` becomes the empty string. */
  function RootString(s: LocalFileStorage): string {
    match s.rootPath
    case Some(r) => r
    case None => ""
  }

  /** `normalizePath`: rejects every path outside the pattern, and maps an
      accepted one to the root, a separator, and the path with its leading
      separators (and only those) removed. */
  function NormalizePath(s: LocalFileStorage, path: string): (r: Result<string>)
    ensures r.Err? <==> !PregMatches(path)
    ensures r.Err? ==> r.error == IncorrectPath(path)
    ensures r.Ok? ==>
              var root := RootString(s);
              && |root| + 1 <= |r.value| && r.value[..|root| + 1] == root + "/"
              && var rest := r.value[|root| + 1..];
                 && |rest| <= |path| && rest == path[|path| - |rest|..]
                 && (forall i :: 0 <= i < |path| - |rest| ==> path[i] == '/')
                 && (rest == [] || rest[0] != '/')
  {
    if !PregMatches(path) then Err(IncorrectPath(path))
    else
      var rest := LTrim(path, {'/'});
      assert (RootString(s) + "/" + rest)[|RootString(s)| + 1..] == rest;
      Ok(RootString(s) + "/" + rest)
  }

  /** The entry an accepted logical path names: the root's entry followed by
      one level per segment of the path. */
  function TargetOf(s: LocalFileStorage, path: string): (p: Path)
    requires PregMatches(path)
    ensures NormalizePath(s, path).Ok? && p == Resolve(NormalizePath(s, path).value)
    ensures p == Resolve(RootString(s)) + Segments(path)
  {
    ResolveUnderRoot(RootString(s), path);
    Resolve(NormalizePath(s, path).value)
  }

  /** The root has no `.` or `..` segment. For such a root, `dirname` of a
      normalized path names the directory above the entry the path names. */
  predicate PlainRoot(s: LocalFileStorage) {
    PlainSegments(Segments(RootString(s)))
  }

  /** Where `dirname` of a normalized path lies: above the entry the path
      names when the path has a segment or the root is plain, and in every
      case either on the way to that entry or beneath the root. Likewise
      one level up for `dirname` applied twice. */
  lemma DirnameNormalized(s: LocalFileStorage, path: string)
    requires PregMatches(path)
    ensures var x := NormalizePath(s, path).value;
            var d := Resolve(Dirname(x));
            var p := TargetOf(s, path);
            && (Segments(path) != [] || PlainRoot(s) ==> d == Parent(p))
            && (IsPrefix(d, p) || IsPrefix(Resolve(RootString(s)), d))
            && (|Segments(path)| >= 2 || PlainRoot(s) ==> Resolve(Dirname(Dirname(x))) == Parent(Parent(p)))
  {
    DirnameOfJoined(RootString(s), path);
  }

  /** The directory `ensureFileDirectoryExists` creates for the entry a
      logical path names: `dirname` of the normalized path. */
  function EnsuredDir(s: LocalFileStorage, path: string): (d: Path)
    requires PregMatches(path)
    ensures Segments(path) != [] || PlainRoot(s) ==> d == Parent(TargetOf(s, path))
    ensures IsPrefix(d, TargetOf(s, path)) || IsPrefix(Resolve(RootString(s)), d)
  {
    DirnameNormalized(s, path);
    Resolve(Dirname(NormalizePath(s, path).value))
  }

  /** The directory it looks for first: `dirname` taken twice. */
  function CheckedDir(s: LocalFileStorage, path: string): (d: Path)
    requires PregMatches(path)
    ensures |Segments(path)| >= 2 || PlainRoot(s) ==> d == Parent(Parent(TargetOf(s, path)))
  {
    DirnameNormalized(s, path);
    Resolve(Dirname(Dirname(NormalizePath(s, path).value)))
  }

  /** A file can be put at the target of `path` once its directory is
      ensured: the target is neither `/` nor a directory, and its directory
      is in place, already there when the checked directory exists, and
      otherwise creatable. */
  predicate WriteReady(s: LocalFileStorage, t: Tree, path: string)
    requires PregMatches(path)
  {
    var p := TargetOf(s, path);
    p != [] && !IsDirIn(t, p) && ParentReady(s, t, path)
  }

  /** The directory of the target of `path` is in place once ensured:
      already there when the checked directory exists, and otherwise
      creatable. */
  predicate ParentReady(s: LocalFileStorage, t: Tree, path: string)
    requires PregMatches(path)
  {
    var p := TargetOf(s, path);
    if CheckedDir(s, path) in t then IsDirIn(t, Parent(p)) else CanMkdirAll(t, Parent(p))
  }

  /** A directory can be moved from the target of `source` to that of
      `destination`: neither is `/`, the destination's directory is in
      place once ensured, and, unless the two are the same, the
      destination is not beneath the source and is missing or an empty
      directory. */
  predicate DirMoveReady(s: LocalFileStorage, t: Tree, source: string, destination: string)
    requires PregMatches(source) && PregMatches(destination)
  {
    var src := TargetOf(s, source);
    var dst := TargetOf(s, destination);
    && src != [] && dst != [] && ParentReady(s, t, destination)
    && (src == dst || (!IsPrefix(src, dst) && !(dst in t && (t[dst].File? || Children(t, dst) != {}))))
  }

  /** `ensureFileDirectoryExists(file)`: reports success without creating
      anything as soon as `dirname(dirname(file))` exists, even when
      `dirname(file)`, the file's own directory, does not; otherwise creates
      `dirname(file)` and its missing ancestors, and succeeds exactly when
      recursive `mkdir` can. Both names are taken of the string. */
  function EnsureFileDirectoryExists(s: LocalFileStorage, t: Tree, file: string): (c: Change)
    ensures Resolve(Dirname(Dirname(file))) in t ==> c == Change(true, t)
    ensures Resolve(Dirname(Dirname(file))) !in t ==>
              && (c.ok <==> CanMkdirAll(t, Resolve(Dirname(file))))
              && (c.ok ==> IsDirIn(c.tree, Resolve(Dirname(file))))
    ensures forall q :: q in t ==> q in c.tree && c.tree[q] == t[q]
    ensures forall q :: q in c.tree && q !in t ==> IsPrefix(q, Resolve(Dirname(file))) && c.tree[q] == Dir
    ensures !c.ok ==> c.tree == t
  {
    var dirPath := Dirname(file);
    if Resolve(Dirname(dirPath)) in t then Change(true, t)
    else MkdirAll(t, Resolve(dirPath))
  }

  /** `copy`: a missing source gives `false` before the destination is even
      checked; otherwise both paths are checked, the destination's directory
      is ensured, and native `copy` runs. On success the destination holds
      the source's bytes and the source is unchanged. Only the destination
      changes among the existing entries, and the only entries added are
      the destination and directories on the way to its `dirname`. */
  function Copy(s: LocalFileStorage, disk: Disk, source: string, destination: string): (out: Outcome<bool>)
    ensures out.Returned? && out.disk != disk ==>
              && PregMatches(destination)
              && KeepsAllBut(disk.tree, out.disk.tree, TargetOf(s, destination))
              && forall q :: q in out.disk.tree && q !in disk.tree ==>
                   q == TargetOf(s, destination) || (IsPrefix(q, EnsuredDir(s, destination)) && out.disk.tree[q] == Dir)
    ensures !PregMatches(source) ==> out == Raised(IncorrectPath(source))
    ensures PregMatches(source) && TargetOf(s, source) !in disk.tree ==> out == Returned(false, disk)
    ensures PregMatches(source) && TargetOf(s, source) in disk.tree && !PregMatches(destination) ==>
              out == Raised(IncorrectPath(destination))
    ensures out.Returned? ==> out.disk.external == disk.external && out.disk.unreadable == disk.unreadable
    ensures out.Returned? && out.value ==>
              var src := TargetOf(s, source);
              var dst := TargetOf(s, destination);
              && IsFileIn(disk.tree, src) && src != dst
              && dst in out.disk.tree && out.disk.tree[dst] == disk.tree[src]
              && src in out.disk.tree && out.disk.tree[src] == disk.tree[src]
    ensures PregMatches(source) && TargetOf(s, source) in disk.tree && PregMatches(destination)
            && (Segments(destination) != [] || PlainRoot(s)) ==>
              && out.Returned?
              && (out.value <==>
                    && IsFileIn(disk.tree, TargetOf(s, source)) && TargetOf(s, source) != TargetOf(s, destination)
                    && WriteReady(s, disk.tree, destination))
  {
    match NormalizePath(s, source)
    case Err(e) => Raised(e)
    case Ok(sourcePath) =>
      var src := Resolve(sourcePath);
      if src !in disk.tree then Returned(false, disk)
      else
        match NormalizePath(s, destination)
        case Err(e) => Raised(e)
        case Ok(destPath) =>
          var dst := Resolve(destPath);
          var ensured := EnsureFileDirectoryExists(s, disk.tree, destPath);
          EnsureThenWrite(s, disk.tree, destination);
          if ensured.ok then
            var c := CopyNative(ensured.tree, src, dst);
            CopyAfterEnsure(disk.tree, ensured.tree, src, dst, EnsuredDir(s, destination));
            Returned(c.ok, disk.(tree := c.tree))
          else Returned(false, disk)
  }

  /** Copying after the destination's directory was ensured changes only
      the destination, which then holds the source's bytes, and adds
      nothing but the destination and the ensured directories. */
  lemma CopyAfterEnsure(t: Tree, e: Tree, src: Path, dst: Path, dir: Path)
    requires forall q :: q in t ==> q in e && e[q] == t[q]
    requires forall q :: q in e && q !in t ==> IsPrefix(q, dir) && e[q] == Dir
    requires src in t
    ensures KeepsAllBut(t, CopyNative(e, src, dst).tree, dst)
    ensures forall q :: q in CopyNative(e, src, dst).tree && q !in t ==>
              q == dst || (IsPrefix(q, dir) && CopyNative(e, src, dst).tree[q] == Dir)
    ensures CopyNative(e, src, dst).ok ==>
              && IsFileIn(t, src) && src != dst
              && dst in CopyNative(e, src, dst).tree && CopyNative(e, src, dst).tree[dst] == t[src]
              && src in CopyNative(e, src, dst).tree && CopyNative(e, src, dst).tree[src] == t[src]
  {
  }

  /** `move` (and its alias `rename`): as `copy`, but with native `rename`.
      On success every entry at or below the source reappears at the same
      place below the destination and, unless the two are the same path,
      is gone from below the source. Only entries below the two paths
      change, and the only entries added are below the destination or
      directories on the way to its `dirname`. */
  function Move(s: LocalFileStorage, disk: Disk, source: string, destination: string): (out: Outcome<bool>)
    requires Wellformed(disk.tree)
    ensures out.Returned? ==> Wellformed(out.disk.tree)
    ensures out.Returned? && out.disk != disk ==>
              && PregMatches(source) && PregMatches(destination)
              && KeepsOutside(disk.tree, out.disk.tree, TargetOf(s, source), TargetOf(s, destination))
              && forall q :: q in out.disk.tree && q !in disk.tree ==>
                   || IsPrefix(TargetOf(s, destination), q)
                   || (IsPrefix(q, EnsuredDir(s, destination)) && out.disk.tree[q] == Dir)
    ensures !PregMatches(source) ==> out == Raised(IncorrectPath(source))
    ensures PregMatches(source) && TargetOf(s, source) !in disk.tree ==> out == Returned(false, disk)
    ensures PregMatches(source) && TargetOf(s, source) in disk.tree && !PregMatches(destination) ==>
              out == Raised(IncorrectPath(destination))
    ensures out.Returned? ==> out.disk.external == disk.external && out.disk.unreadable == disk.unreadable
    ensures out.Returned? && out.value ==>
              var src := TargetOf(s, source);
              var dst := TargetOf(s, destination);
              && src in disk.tree
              && (forall k :: k in disk.tree && IsPrefix(src, k) ==>
                    dst + k[|src|..] in out.disk.tree && out.disk.tree[dst + k[|src|..]] == disk.tree[k])
              && (src != dst ==> forall k :: k in disk.tree && IsPrefix(src, k) ==> k !in out.disk.tree)
    ensures PregMatches(source) && IsFileIn(disk.tree, TargetOf(s, source)) && PregMatches(destination)
            && (Segments(destination) != [] || PlainRoot(s)) ==>
              out.Returned? && (out.value <==> WriteReady(s, disk.tree, destination))
    ensures PregMatches(source) && IsDirIn(disk.tree, TargetOf(s, source)) && PregMatches(destination)
            && (Segments(destination) != [] || PlainRoot(s)) ==>
              out.Returned? && (out.value <==> DirMoveReady(s, disk.tree, source, destination))
  {
    match NormalizePath(s, source)
    case Err(e) => Raised(e)
    case Ok(sourcePath) =>
      var src := Resolve(sourcePath);
      if src !in disk.tree then Returned(false, disk)
      else
        match NormalizePath(s, destination)
        case Err(e) => Raised(e)
        case Ok(destPath) =>
          var dst := Resolve(destPath);
          var ensured := EnsureFileDirectoryExists(s, disk.tree, destPath);
          EnsureThenWrite(s, disk.tree, destination);
          FileWritableInPlace(disk.tree, ensured.tree, src);
          EnsureThenRenameDir(s, disk.tree, source, destination);
          if ensured.ok then
            EnsureKeepsWellformed(s, disk.tree, destPath);
            var c := RenameNative(ensured.tree, src, dst);
            RenameAfterEnsure(disk.tree, ensured.tree, src, dst, EnsuredDir(s, destination));
            RenameNativeKeepsWellformed(ensured.tree, src, dst);
            Returned(c.ok, disk.(tree := c.tree))
          else Returned(false, disk)
  }

  /** Renaming after the destination's directory was ensured: what happens
      to the entries of the tree from before the ensuring. */
  lemma RenameAfterEnsure(t: Tree, e: Tree, src: Path, dst: Path, dir: Path)
    requires Wellformed(e)
    requires forall q :: q in t ==> q in e && e[q] == t[q]
    requires forall q :: q in e && q !in t ==> IsPrefix(q, dir) && e[q] == Dir
    requires src in t
    ensures KeepsOutside(t, RenameNative(e, src, dst).tree, src, dst)
    ensures forall q :: q in RenameNative(e, src, dst).tree && q !in t ==>
              IsPrefix(dst, q) || (IsPrefix(q, dir) && RenameNative(e, src, dst).tree[q] == Dir)
    ensures RenameNative(e, src, dst).ok ==>
              && (forall k :: k in t && IsPrefix(src, k) ==>
                    dst + k[|src|..] in RenameNative(e, src, dst).tree
                    && RenameNative(e, src, dst).tree[dst + k[|src|..]] == t[k])
              && (src != dst ==> forall k :: k in t && IsPrefix(src, k) ==> k !in RenameNative(e, src, dst).tree)
  {
    RenameKeepsOutside(t, e, src, dst);
    RenameKeepsRest(e, src, dst);
    RenameMovesSubtree(e, src, dst);
  }

  /** Two prefixes of one path are prefixes of each other. */
  /** For a destination with a segment, or under a plain root, renaming a
      directory after the ensuring succeeds exactly when DirMoveReady
      holds. */
  lemma EnsureThenRenameDir(s: LocalFileStorage, t: Tree, source: string, destination: string)
    requires Wellformed(t) && PregMatches(source) && PregMatches(destination)
    ensures IsDirIn(t, TargetOf(s, source)) && (Segments(destination) != [] || PlainRoot(s)) ==>
              var e := EnsureFileDirectoryExists(s, t, NormalizePath(s, destination).value);
              ((e.ok && RenameAllowed(e.tree, TargetOf(s, source), TargetOf(s, destination))) <==>
                 DirMoveReady(s, t, source, destination))
  {
    if IsDirIn(t, TargetOf(s, source)) && (Segments(destination) != [] || PlainRoot(s)) {
      var x := NormalizePath(s, destination).value;
      var dst := TargetOf(s, destination);
      var e := EnsureFileDirectoryExists(s, t, x);
      assert Resolve(Dirname(x)) == EnsuredDir(s, destination) == Parent(dst);
      assert Resolve(Dirname(Dirname(x))) == CheckedDir(s, destination);
      assert e == if CheckedDir(s, destination) in t then Change(true, t) else MkdirAll(t, Parent(dst));
      assert e.ok ==> IsDirIn(e.tree, Parent(dst)) == ParentReady(s, t, destination);
      RenameDirIff(t, e, TargetOf(s, source), dst, ParentReady(s, t, destination));
    }
  }

  /** Native `rename` of a directory after the ensuring, in terms of the
      tree from before it. */
  lemma RenameDirIff(t: Tree, e: Change, src: Path, dst: Path, ready: bool)
    requires Wellformed(t) && IsDirIn(t, src)
    requires forall q :: q in t ==> q in e.tree && e.tree[q] == t[q]
    requires forall q :: q in e.tree && q !in t ==> IsPrefix(q, Parent(dst))
    requires e.ok ==> (ready <==> IsDirIn(e.tree, Parent(dst)))
    requires !e.ok ==> !ready
    requires ready && src == dst ==> e.ok
    ensures (e.ok && RenameAllowed(e.tree, src, dst)) <==>
              && src != [] && dst != [] && ready
              && (src == dst || (!IsPrefix(src, dst) && !(dst in t && (t[dst].File? || Children(t, dst) != {}))))
  {
    if dst != [] {
      assert dst in e.tree <==> dst in t;
      assert Children(e.tree, dst) == Children(t, dst);
    }
    if e.ok && src == dst && src != [] {
      assert EntryOk(t, src);
    }
  }

  /** An existing file can be written in place in any tree that keeps
      the entries of a well-formed one: it is not `/`, not a directory,
      and its directory exists. This is why moving a file onto itself
      succeeds exactly when the ensuring does. */
  lemma FileWritableInPlace(t: Tree, e: Tree, p: Path)
    requires Wellformed(t)
    requires forall q :: q in t ==> q in e && e[q] == t[q]
    ensures IsFileIn(t, p) ==> CanWriteFile(e, p)
  {
    if IsFileIn(t, p) {
      assert EntryOk(t, p);
    }
  }

  lemma PrefixesComparable(a: Path, b: Path, c: Path)
    requires IsPrefix(a, c) && IsPrefix(b, c)
    ensures IsPrefix(a, b) || IsPrefix(b, a)
  {
    if |a| <= |b| {
      assert b[..|a|] == c[..|a|];
    } else {
      assert a[..|b|] == c[..|b|];
    }
  }

  /** A successful native rename puts every entry at or below the source at
      the same place below the destination and, unless the two are the
      same path, leaves nothing at or below the source. */
  lemma RenameMovesSubtree(t: Tree, src: Path, dst: Path)
    requires Wellformed(t)
    ensures RenameNative(t, src, dst).ok ==>
              && (forall k :: k in t && IsPrefix(src, k) ==>
                    dst + k[|src|..] in RenameNative(t, src, dst).tree
                    && RenameNative(t, src, dst).tree[dst + k[|src|..]] == t[k])
              && (src != dst ==> forall k :: k in t && IsPrefix(src, k) ==> k !in RenameNative(t, src, dst).tree)
  {
    var c := RenameNative(t, src, dst);
    if c.ok {
      forall k | k in t && IsPrefix(src, k)
        ensures src + k[|src|..] == k
      {
      }
      if src == dst {
      } else if t[src].File? {
        NothingBelowFile(t, src);
        assert dst + src[|src|..] == dst;
      } else {
        assert !IsPrefix(dst, src) by {
          if IsPrefix(dst, src) {
            BelowMeansNonEmpty(t, dst, src);
          }
        }
        RebasedInverse(t, src, dst);
        forall k | k in t && IsPrefix(src, k)
          ensures dst + k[|src|..] in c.tree && c.tree[dst + k[|src|..]] == t[k]
          ensures k !in c.tree
        {
          var q := dst + k[|src|..];
          assert k in Under(t, src);
          assert q in Rebased(t, src, dst);
          MoveSubtreeEntries(t, src, dst, q);
          assert q[|dst|..] == k[|src|..];
          assert !IsPrefix(dst, k) by {
            if IsPrefix(dst, k) {
              PrefixesComparable(src, dst, k);
            }
          }
        }
      }
    }
  }

  /** Native rename leaves every entry outside the destination as it was
      or removes it. */
  lemma RenameKeepsRest(t: Tree, src: Path, dst: Path)
    ensures forall q :: q in RenameNative(t, src, dst).tree && !IsPrefix(dst, q) ==>
              q in t && RenameNative(t, src, dst).tree[q] == t[q]
  {
    var c := RenameNative(t, src, dst);
    if c.ok && src != dst && t[src].Dir? {
      forall q | q in c.tree && !IsPrefix(dst, q)
        ensures q in t && c.tree[q] == t[q]
      {
        MoveSubtreeEntries(t, src, dst, q);
      }
    }
  }

  /** Native rename, after directories were added to `t`, leaves every
      entry of `t` beneath neither path as it was. */
  lemma RenameKeepsOutside(t: Tree, e: Tree, src: Path, dst: Path)
    requires forall q :: q in t ==> q in e && e[q] == t[q]
    ensures KeepsOutside(t, RenameNative(e, src, dst).tree, src, dst)
  {
    var c := RenameNative(e, src, dst);
    forall q | q in t && !IsPrefix(src, q) && !IsPrefix(dst, q)
      ensures q in c.tree && c.tree[q] == t[q]
    {
      if c.ok && src != dst && IsDirIn(e, src) {
        assert q !in Under(e, src);
      }
    }
  }

  /** Ensuring a directory keeps the tree a well-formed file system. */
  lemma EnsureKeepsWellformed(s: LocalFileStorage, t: Tree, file: string)
    requires Wellformed(t)
    ensures Wellformed(EnsureFileDirectoryExists(s, t, file).tree)
  {
    if Resolve(Dirname(Dirname(file))) !in t {
      MkdirAllKeepsWellformed(t, Resolve(Dirname(file)));
    }
  }

  /** `copyFile`: the source is a file outside the storage, named by an
      absolute path; a missing one gives `false` before the destination is
      checked. On success the destination holds its bytes and the outside
      file is unchanged. Only the destination changes among the existing
      entries, and the only entries added are the destination and
      directories on the way to its `dirname`. */
  function CopyFile(s: LocalFileStorage, disk: Disk, filePath: string, destination: string): (out: Outcome<bool>)
    ensures Resolve(filePath) !in disk.external ==> out == Returned(false, disk)
    ensures Resolve(filePath) in disk.external && !PregMatches(destination) ==> out == Raised(IncorrectPath(destination))
    ensures out.Returned? ==> out.disk.external == disk.external && out.disk.unreadable == disk.unreadable
    ensures out.Returned? && out.disk.tree != disk.tree ==>
              && PregMatches(destination)
              && KeepsAllBut(disk.tree, out.disk.tree, TargetOf(s, destination))
              && forall q :: q in out.disk.tree && q !in disk.tree ==>
                   q == TargetOf(s, destination) || (IsPrefix(q, EnsuredDir(s, destination)) && out.disk.tree[q] == Dir)
    ensures out.Returned? && out.value ==>
              && PregMatches(destination) && TargetOf(s, destination) in out.disk.tree
              && out.disk.tree[TargetOf(s, destination)] == File(disk.external[Resolve(filePath)])
    ensures Resolve(filePath) in disk.external && PregMatches(destination)
            && (Segments(destination) != [] || PlainRoot(s)) ==>
              out.Returned? && (out.value <==> WriteReady(s, disk.tree, destination))
  {
    if Resolve(filePath) !in disk.external then Returned(false, disk)
    else
      match NormalizePath(s, destination)
      case Err(e) => Raised(e)
      case Ok(destPath) =>
        var dst := Resolve(destPath);
        assert dst == TargetOf(s, destination);
        assert Resolve(Dirname(destPath)) == EnsuredDir(s, destination);
        var ensured := EnsureFileDirectoryExists(s, disk.tree, destPath);
        EnsureThenWrite(s, disk.tree, destination);
        if ensured.ok && CanWriteFile(ensured.tree, dst) then
          Returned(true, disk.(tree := ensured.tree[dst := File(disk.external[Resolve(filePath)])]))
        else Returned(false, disk.(tree := ensured.tree))
  }

  /** `moveFile`: as `copyFile`, but native `rename` takes the outside file
      away. */
  function MoveFile(s: LocalFileStorage, disk: Disk, filePath: string, destination: string): (out: Outcome<bool>)
    ensures Resolve(filePath) !in disk.external ==> out == Returned(false, disk)
    ensures Resolve(filePath) in disk.external && !PregMatches(destination) ==> out == Raised(IncorrectPath(destination))
    ensures out.Returned? ==> out.disk.unreadable == disk.unreadable
    ensures out.Returned? && !out.value ==> out.disk.external == disk.external
    ensures out.Returned? && out.disk.tree != disk.tree ==>
              && PregMatches(destination)
              && KeepsAllBut(disk.tree, out.disk.tree, TargetOf(s, destination))
              && forall q :: q in out.disk.tree && q !in disk.tree ==>
                   q == TargetOf(s, destination) || (IsPrefix(q, EnsuredDir(s, destination)) && out.disk.tree[q] == Dir)
    ensures out.Returned? && out.value ==>
              && PregMatches(destination) && TargetOf(s, destination) in out.disk.tree
              && out.disk.tree[TargetOf(s, destination)] == File(disk.external[Resolve(filePath)])
              && out.disk.external == disk.external - {Resolve(filePath)}
    ensures Resolve(filePath) in disk.external && PregMatches(destination)
            && (Segments(destination) != [] || PlainRoot(s)) ==>
              out.Returned? && (out.value <==> WriteReady(s, disk.tree, destination))
  {
    if Resolve(filePath) !in disk.external then Returned(false, disk)
    else
      match NormalizePath(s, destination)
      case Err(e) => Raised(e)
      case Ok(destPath) =>
        var dst := Resolve(destPath);
        assert dst == TargetOf(s, destination);
        assert Resolve(Dirname(destPath)) == EnsuredDir(s, destination);
        var ensured := EnsureFileDirectoryExists(s, disk.tree, destPath);
        EnsureThenWrite(s, disk.tree, destination);
        if ensured.ok && CanWriteFile(ensured.tree, dst) then
          Returned(true, Disk(ensured.tree[dst := File(disk.external[Resolve(filePath)])],
                              disk.external - {Resolve(filePath)}, disk.unreadable))
        else Returned(false, disk.(tree := ensured.tree))
  }

  /** Whether PHP's `flags & FILE_APPEND` is non-zero. Dafny's `/` and `%`
      floor for a positive divisor, so this is bit 3 of the two's
      complement value for negative flags too. */
  predicate HasAppendFlag(flags: int) {
    (flags / FileAppend) % 2 == 1
  }

  /** `putFileContents`: after the directory is ensured, the file holds the
      content (or its old bytes followed by the content with `FILE_APPEND`)
      and the byte count is returned; `false` (here `None`) otherwise.
      Only the file changes among the existing entries, and the only
      entries added are the file and directories on the way to its
      `dirname`. The write succeeds exactly when the target is not a
      directory and its directory is in place: already there when the
      directory above it exists, and otherwise creatable. */
  function PutFileContents(s: LocalFileStorage, disk: Disk, path: string, content: seq<byte>, flags: int): (out: Outcome<Option<nat>>)
    ensures out.Raised? <==> !PregMatches(path)
    ensures out.Returned? ==>
              && KeepsAllBut(disk.tree, out.disk.tree, TargetOf(s, path))
              && forall q :: q in out.disk.tree && q !in disk.tree ==>
                   q == TargetOf(s, path) || (IsPrefix(q, EnsuredDir(s, path)) && out.disk.tree[q] == Dir)
    ensures out.Returned? ==> out.disk.external == disk.external && out.disk.unreadable == disk.unreadable
    ensures out.Returned? && out.value.Some? ==>
              var p := TargetOf(s, path);
              && out.value.value == |content|
              && p in out.disk.tree
              && out.disk.tree[p] == File(if HasAppendFlag(flags) && IsFileIn(disk.tree, p)
                                          then disk.tree[p].content + content else content)
    ensures out.Returned? && (Segments(path) != [] || PlainRoot(s)) ==>
              (out.value.Some? <==> WriteReady(s, disk.tree, path))
  {
    match NormalizePath(s, path)
    case Err(e) => Raised(e)
    case Ok(filePath) =>
      var p := Resolve(filePath);
      assert p == TargetOf(s, path);
      assert Resolve(Dirname(filePath)) == EnsuredDir(s, path);
      var ensured := EnsureFileDirectoryExists(s, disk.tree, filePath);
      var append := HasAppendFlag(flags);
      PutAfterEnsure(disk.tree, ensured.tree, p, content, append, EnsuredDir(s, path));
      EnsureThenWrite(s, disk.tree, path);
      if ensured.ok then
        var c := PutContents(ensured.tree, p, content, append);
        Returned(if c.ok then Some(|content|) else None, disk.(tree := c.tree))
      else Returned(None, disk)
  }

  /** Writing after the directory was ensured changes only the file, which
      then holds the content, after its old bytes when appending to a file
      that was already there, and adds only the file and the ensured
      directories. */
  lemma PutAfterEnsure(t: Tree, e: Tree, p: Path, content: seq<byte>, append: bool, dir: Path)
    requires forall q :: q in t ==> q in e && e[q] == t[q]
    requires forall q :: q in e && q !in t ==> IsPrefix(q, dir) && e[q] == Dir
    ensures KeepsAllBut(t, PutContents(e, p, content, append).tree, p)
    ensures forall q :: q in PutContents(e, p, content, append).tree && q !in t ==>
              q == p || (IsPrefix(q, dir) && PutContents(e, p, content, append).tree[q] == Dir)
    ensures PutContents(e, p, content, append).ok ==>
              && p in PutContents(e, p, content, append).tree
              && PutContents(e, p, content, append).tree[p]
                 == File(if append && IsFileIn(t, p) then t[p].content + content else content)
  {
  }

  /** For a path with a segment, or under a plain root, the write after
      the ensuring succeeds exactly when the target is not a directory and
      its directory is in place: already there when the checked directory
      exists, and otherwise creatable. */
  lemma EnsureThenWrite(s: LocalFileStorage, t: Tree, path: string)
    requires PregMatches(path)
    ensures Segments(path) != [] || PlainRoot(s) ==>
              var e := EnsureFileDirectoryExists(s, t, NormalizePath(s, path).value);
              var p := TargetOf(s, path);
              ((e.ok && CanWriteFile(e.tree, p)) <==> WriteReady(s, t, path))
  {
    if Segments(path) != [] || PlainRoot(s) {
      var x := NormalizePath(s, path).value;
      var p := TargetOf(s, path);
      var e := EnsureFileDirectoryExists(s, t, x);
      assert Resolve(Dirname(x)) == EnsuredDir(s, path) == Parent(p);
      assert Resolve(Dirname(Dirname(x))) == CheckedDir(s, path);
      assert e == if CheckedDir(s, path) in t then Change(true, t) else MkdirAll(t, Parent(p));
      WriteSucceedsIff(t, e, p, CheckedDir(s, path));
    }
  }

  /** When the ensured directory is the one above `p`, the write succeeds
      exactly when `p` is not a directory and that directory is in place:
      already there if `guard` exists, and otherwise creatable. */
  lemma WriteSucceedsIff(t: Tree, ensured: Change, p: Path, guard: Path)
    requires ensured == if guard in t then Change(true, t) else MkdirAll(t, Parent(p))
    ensures (ensured.ok && CanWriteFile(ensured.tree, p)) <==>
              && p != [] && !IsDirIn(t, p)
              && if guard in t then IsDirIn(t, Parent(p)) else CanMkdirAll(t, Parent(p))
  {
    if guard !in t && ensured.ok && p != [] {
      assert !IsPrefix(p, Parent(p));
    }
  }

  /** `fileExists`, `isFile`, `isDir`: the path is checked, then the entry
      is looked up. */
  function FileExists(s: LocalFileStorage, t: Tree, path: string): (r: Result<bool>)
    ensures r.Err? <==> !PregMatches(path)
    ensures r.Ok? ==> (r.value <==> TargetOf(s, path) in t)
  {
    match NormalizePath(s, path)
    case Err(e) => Err(e)
    case Ok(p) => Ok(Resolve(p) in t)
  }

  function IsFile(s: LocalFileStorage, t: Tree, path: string): (r: Result<bool>)
    ensures r.Err? <==> !PregMatches(path)
    ensures r.Ok? ==> (r.value <==> IsFileIn(t, TargetOf(s, path)))
  {
    match NormalizePath(s, path)
    case Err(e) => Err(e)
    case Ok(p) => Ok(IsFileIn(t, Resolve(p)))
  }

  function IsDir(s: LocalFileStorage, t: Tree, path: string): (r: Result<bool>)
    ensures r.Err? <==> !PregMatches(path)
    ensures r.Ok? ==> (r.value <==> IsDirIn(t, TargetOf(s, path)))
  {
    match NormalizePath(s, path)
    case Err(e) => Err(e)
    case Ok(p) => Ok(IsDirIn(t, Resolve(p)))
  }

  /** `mkdir`. Its guard calls `file_exists` on the boolean
      `$dirPath && is_dir($dirPath)` cast to a string: `"1"` when the target
      is a directory, `""` otherwise; `file_exists("")` is false and
      `file_exists("1")` asks whether the working directory holds an entry
      named `1`, given here as `cwdHasOne`. Then native recursive `mkdir`
      runs: it fails when the target exists or lies below a file, and
      otherwise creates the target and its missing ancestors. */
  function Mkdir(s: LocalFileStorage, disk: Disk, path: string, cwdHasOne: bool): (out: Outcome<bool>)
    ensures out.Raised? <==> !PregMatches(path)
    ensures out.Returned? ==>
              var p := TargetOf(s, path);
              && out.disk.external == disk.external && out.disk.unreadable == disk.unreadable
              && (out.value <==> CanMkdirAll(disk.tree, p))
              && (out.value ==> IsDirIn(out.disk.tree, p))
              && (forall q :: q in disk.tree ==> q in out.disk.tree && out.disk.tree[q] == disk.tree[q])
              && (forall q :: q in out.disk.tree && q !in disk.tree ==> IsPrefix(q, p) && out.disk.tree[q] == Dir)
              && (!out.value ==> out.disk == disk)
  {
    match NormalizePath(s, path)
    case Err(e) => Raised(e)
    case Ok(dirPath) =>
      var p := Resolve(dirPath);
      var guard := IsDirIn(disk.tree, p) && cwdHasOne;
      if guard then Returned(false, disk)
      else
        var c := MkdirAll(disk.tree, p);
        Returned(c.ok, disk.(tree := c.tree))
  }

  /** `rename` is `move`. */
  function Rename(s: LocalFileStorage, disk: Disk, oldName: string, newName: string): (out: Outcome<bool>)
    requires Wellformed(disk.tree)
    ensures out == Move(s, disk, oldName, newName)
  {
    Move(s, disk, oldName, newName)
  }

  /** What `delete(path, recursive)` does, case by case. */
  ghost predicate DeleteBehaviour(s: LocalFileStorage, disk: Disk, path: string, recursive: bool, out: Outcome<bool>) {
    if !PregMatches(path) then out == Raised(IncorrectPath(path))
    else
      var t := disk.tree;
      var p := TargetOf(s, path);
      if p !in t then out == Returned(true, disk)
      else if t[p].File? then out == Returned(true, disk.(tree := t - {p}))
      else if p in disk.unreadable then out == Returned(false, disk)
      else if Children(t, p) == {} then
        out == Returned(p != [], disk.(tree := if p != [] then t - {p} else t))
      else if !recursive then out == Returned(false, disk)
      else
        && out.Returned?
        && out.disk == disk.(tree := AfterDelete(t, disk.unreadable, p))
        && (out.value <==> p != [] && Doomed(t, disk.unreadable, p, p))
  }

  /** `delete`: a missing entry counts as deleted; a file is unlinked; a
      directory that cannot be opened fails; an empty directory is removed;
      a non-empty one fails unless `recursive`, in which case
      `deleteRecursively` runs and only its final `rmdir` decides the
      result. */
  method Delete(s: LocalFileStorage, disk: Disk, path: string, recursive: bool) returns (out: Outcome<bool>)
    requires Wellformed(disk.tree)
    ensures DeleteBehaviour(s, disk, path, recursive, out)
  {
    var n := NormalizePath(s, path);
    if n.Err? {
      return Raised(n.error);
    }
    var t := disk.tree;
    var p := Resolve(n.value);
    if p !in t {
      return Returned(true, disk);
    }
    if IsDirIn(t, p) {
      if p in disk.unreadable {
        return Returned(false, disk);
      }
      var entries := ListDir(t, p);
      var empty := IsDirEmpty(entries);
      EmptyListingIffNoChildren(t, p, entries);
      if !recursive && !empty {
        return Returned(false, disk);
      }
      if recursive && !empty {
        var ok, r := DeleteRecursively(t, disk.unreadable, p);
        return Returned(ok, disk.(tree := r));
      }
      var c := Rmdir(t, p);
      return Returned(c.ok, disk.(tree := c.tree));
    }
    var c := Unlink(t, p);
    return Returned(c.ok, disk.(tree := c.tree));
  }

  /** `rmdir` is `delete` with the same flag. */
  method RemoveDir(s: LocalFileStorage, disk: Disk, path: string, recursive: bool) returns (out: Outcome<bool>)
    requires Wellformed(disk.tree)
    ensures DeleteBehaviour(s, disk, path, recursive, out)
  {
    out := Delete(s, disk, path, recursive);
  }
}
