# LocalFileStorage in Dafny

A model of `LocalFileStorage`, the local-disk implementation of the
`FileStorage` interface. It maps logical, storage-relative paths under a
configurable root directory onto the file system. It also builds public
URLs from a base URL.

The model has three layers.

- **Paths** (`text.dfy`, `path_pattern.dfy`, `paths.dfy`):
  - PHP's `ltrim`.
  - The path pattern `^[/\w]+(/\w+(\.\w+)?)?$` as `preg_match` applies it. `\w` is ASCII, as PCRE's tables are under the C locale. A `$` without the `D` modifier also accepts one trailing newline.
  - How the operating system resolves a path string into directory entries: empty and `.` segments are dropped, and `..` climbs.
  - PHP's `dirname`, which works on the string alone.
- **The disk** (`file_tree.dfy`, `tree_invariants.dfy`, `tree_delete.dfy`):
  - A tree is an immutable map from entry paths (sequences of names) to `File(bytes)` or `Dir`.
  - The native primitives the class calls are pure functions returning a success flag and the new tree: recursive `mkdir`, `unlink`, `rmdir`, `file_put_contents`, `copy` and `rename`.
  - `readdir` listing, `isDirEmpty` and `deleteRecursively` are methods with loops.
  - A `Disk` also holds the bytes of files outside the storage (the sources of `copyFile`/`moveFile`), keyed by resolved path so that `/tmp/a`, `/tmp//a` and `/tmp/./a` name the same file, and the set of directories that `opendir` cannot open.
- **The class** (`storage.dfy`, `storage_props.dfy`):
  - The storage record and its accessors.
  - `normalizePath`, `getFileUrl` and `ensureFileDirectoryExists`.
  - Every public operation, as a function from the storage, the disk and the arguments to an `Outcome`. An `Outcome` is either the exception `normalizePath` throws, or the PHP return value together with the disk afterwards.

The properties proved fall into four groups.

- **Confinement.** An accepted path always names an entry at or below the root. No operation changes an existing entry outside the root. The only entries an operation adds outside the root are directories on the way to it, which recursive `mkdir` creates when the root itself is missing.
- **Well-formedness.** Every operation keeps the disk a well-formed tree: every entry's directory exists and is a directory.
- **Round trips and relations.** Write then read, write then append, move as copy plus unlink, `moveFile` as `copyFile` plus removal, repeated `delete` and `mkdir`. For the native primitives: `unlink` undoes a fresh write or copy, `rmdir` undoes a one-level `mkdir`, renaming back undoes a rename, and an append after a write equals one write of both parts.
- **Delete against a declarative specification.** Recursive delete is proved equal to a description of exactly which entries it removes, given the directories it cannot open.

The code has these less obvious behaviours, and the model follows the code:

- `ensureFileDirectoryExists` checks the directory ABOVE the file's directory, not the file's own directory. `PutFailsWhenOnlyGrandparentExists` shows the consequence. Both directories are taken with `dirname` of the normalized string, as the code does, so a root with `.` or `..` in it can make them differ from the parent of the resolved entry (`Storage.EnsuredDir`, `Storage.CheckedDir`).
- `getFileUrl` gives no URL for the base URLs `""` and `"0"` as well as for `null`, because it tests PHP truthiness.
- A recursive `delete` reports only the final `rmdir`. Failures further down are ignored, and a directory that cannot be opened is skipped together with everything beneath it.
- The `mkdir` guard is modelled as written (see `Storage.Mkdir`). It is proved never to change the result (`MkdirGuardIrrelevant`), so `mkdir` does fail exactly when the target exists or lies below a file.

## Model

| member | source | states |
|---|---|---|
| Text.LTrim | src/LocalFileStorage.php:117 | `ltrim` returns a suffix of its input, removes only characters from the set, and its result does not start with one |
| Text.LTrimUnique | src/LocalFileStorage.php:117 | those three facts determine the result of `ltrim` completely |
| Text.LTrimIdempotent | src/LocalFileStorage.php:53 | trimming twice gives the same as trimming once |
| Text.LTrimKeepsUntrimmedStart | src/LocalFileStorage.php:53 | a string not starting with a trimmed character is unchanged |
| Text.LTrimSkipsTrimmedPrefix | src/LocalFileStorage.php:53 | a prefix made only of trimmed characters does not affect the result |
| PathPattern.AcceptsIffInPattern | src/LocalFileStorage.php:113 | the scanning acceptor accepts exactly the strings of the pattern's three alternatives (`P`, `P/W`, `P/W.W`) |
| PathPattern.AcceptedShape | src/LocalFileStorage.php:113 | an accepted path has only word characters and `/` besides at most one `.`, which has word characters on both sides and lies in the last segment, after at least one character before that segment's `/` |
| PathPattern.PregMatchesHasNoDotSegment | src/LocalFileStorage.php:113 | no accepted path (trailing newline included) has a segment starting with `.`, so none has a `.` or `..` segment |
| PathPattern.RejectsForeignChar | src/LocalFileStorage.php:113-114 | a path holding a character other than a word character, `/` or `.` is rejected (a final newline aside) |
| PathPattern.RejectsDotSegment | src/LocalFileStorage.php:113-114 | a path with a segment starting with `.` is rejected |
| PathPattern.AcceptsPathChars | src/LocalFileStorage.php:113 | every non-empty string of word characters and `/` is accepted |
| PathPattern.AcceptsFileName | src/LocalFileStorage.php:113 | a directory path followed by `/name.ext` is accepted |
| Paths.Resolve | src/LocalFileStorage.php:117 | resolving a path string yields entry names that are non-empty, contain no `/` and are neither `.` nor `..` |
| Paths.SegmentsAvoidDots | src/LocalFileStorage.php:113-117 | no segment of a path without dot segments starts with `.`, so none is `.` or `..` and resolving them only descends |
| Paths.ResolveUnderRoot | src/LocalFileStorage.php:117 | for an accepted path, root + `/` + `ltrim(path, "/")` resolves to the root's entry followed by the path's segments, so it lies at or below the root |
| Paths.DirnameSegments | src/LocalFileStorage.php:126 | `dirname` of a string has the string's segments without the last one, or is `.` for a lone name |
| Paths.DirnameResolves | src/LocalFileStorage.php:126-128 | resolving `dirname` of a string, once or twice, resolves all its segments but the last one or two |
| Paths.DirnameOfJoined | src/LocalFileStorage.php:117-128 | for root + `/` + an accepted path, `dirname` resolves to the parent of the named entry when the path has a segment or the root has no `.`/`..`, and always either on the way to that entry or beneath the root's entry; `dirname` twice resolves to the grandparent when the path has two segments or the root is plain |
| FileTree.MkdirAll | src/LocalFileStorage.php:132 | recursive `mkdir` succeeds exactly when the target is missing and no existing ancestor is a file; it then creates only directories on the way to the target and keeps every existing entry |
| FileTree.UnlinkUndoesWrite | src/LocalFileStorage.php:250 | unlinking a file that `file_put_contents` has just created at a free place gives back the tree from before the write |
| FileTree.AppendAfterWrite | src/LocalFileStorage.php:250 | a write followed by an appending write succeeds exactly when the write does, and leaves the tree one write of both parts leaves |
| FileTree.UnlinkUndoesCopy | src/LocalFileStorage.php:151 | unlinking a copy made at a free place gives back the tree from before the copy |
| FileTree.RenameBack | src/LocalFileStorage.php:173 | renaming a file to a free writable place succeeds, and renaming it back gives back the original tree |
| TreeInvariants.MkdirAllKeepsWellformed | src/LocalFileStorage.php:132 | recursive `mkdir` keeps the tree well-formed |
| TreeInvariants.UnlinkKeepsWellformed | src/LocalFileStorage.php:322 | `unlink` keeps the tree well-formed |
| TreeInvariants.RmdirKeepsWellformed | src/LocalFileStorage.php:328 | `rmdir` keeps the tree well-formed |
| TreeInvariants.PutContentsKeepsWellformed | src/LocalFileStorage.php:250 | `file_put_contents` keeps the tree well-formed |
| TreeInvariants.CopyNativeKeepsWellformed | src/LocalFileStorage.php:151 | `copy` keeps the tree well-formed |
| TreeInvariants.RenameNativeKeepsWellformed | src/LocalFileStorage.php:173 | `rename`, including of a whole directory, keeps the tree well-formed |
| TreeInvariants.RmdirUndoesMkdir | src/LocalFileStorage.php:132 | a recursive `mkdir` of a missing directory whose parent exists succeeds, and `rmdir` of it gives back the tree from before |
| TreeDelete.ListDir | src/LocalFileStorage.php:286 | `readdir` reports `.`, `..` and exactly the names of the directory's children, each once |
| TreeDelete.IsDirEmpty | src/LocalFileStorage.php:278-297 | the scan returns true exactly when every listed name is `.` or `..` |
| TreeDelete.EmptyListingIffNoChildren | src/LocalFileStorage.php:286-296 | the listing holds only `.` and `..` exactly when the directory has no children |
| TreeDelete.DeleteRecursively | src/LocalFileStorage.php:303-329 | the tree afterwards is exactly the old one without the entries no unopenable directory protects (the root always stays); the result is true exactly when the directory itself was removed |
| TreeDelete.LockedDeletesNothing | src/LocalFileStorage.php:305-309 | a directory that cannot be opened is left with everything in it |
| Storage.New | src/LocalFileStorage.php:36-45 | the constructor keeps the given root and base URL and starts with directory mode `0777` |
| Storage.SetBaseUrl | src/LocalFileStorage.php:60-71 | `getBaseUrl` returns what `setBaseUrl` set; the other fields stay |
| Storage.SetRootPath | src/LocalFileStorage.php:77-88 | `getRootPath` returns what `setRootPath` set; the other fields stay |
| Storage.SetDefaultDirMode | src/LocalFileStorage.php:93-104 | `getDefaultDirMode` returns what `setDefaultDirMode` set; the other fields stay |
| Storage.GetFileUrl | src/LocalFileStorage.php:51-54 | no URL exactly when the base URL is `null`, `""` or `"0"`; otherwise the base URL, `/`, and the path with only its leading spaces and slashes removed |
| Storage.NormalizePath | src/LocalFileStorage.php:111-118 | throws exactly for paths outside the pattern; otherwise returns the root (empty when `null`), `/`, and the path with only its leading slashes removed |
| Storage.TargetOf | src/LocalFileStorage.php:117 | the entry a normalized path names is the root's entry followed by the path's segments |
| Storage.EnsuredDir | src/LocalFileStorage.php:126 | `dirname` of the normalized path is the parent of the named entry when the path has a segment or the root is plain, and always lies on the way to that entry or beneath the root |
| Storage.CheckedDir | src/LocalFileStorage.php:128 | `dirname` taken twice is the grandparent of the named entry when the path has two segments or the root is plain |
| Storage.EnsureFileDirectoryExists | src/LocalFileStorage.php:124-133 | succeeds without change when `dirname(dirname(file))` exists; otherwise succeeds exactly when recursive `mkdir` of `dirname(file)` can, which then exists; keeps every existing entry and adds only directories on the way to `dirname(file)`; changes nothing on failure |
| Storage.Copy | src/LocalFileStorage.php:140-155 | rejects a bad source; a missing source gives false before the destination is checked; on success the destination holds the source file's bytes and the source is unchanged; every existing entry but the destination is kept, and the only entries added are the destination and directories on the way to its `dirname`; for a destination with a segment or a plain root, an existing source is copied exactly when it is a file, the two paths differ, and the destination is writable once its directory is ensured (`Storage.WriteReady`) |
| Storage.Move | src/LocalFileStorage.php:162-177 | as `copy` for the checks; on success every entry at or below the source reappears at the same place below the destination and, for distinct paths, is gone from below the source; every entry beneath neither path is kept; the only entries added lie beneath the destination or are directories on the way to its `dirname`; the tree stays well-formed; for a destination with a segment or a plain root, a file moves exactly when the destination is writable once its directory is ensured, and a directory moves exactly when neither path is `/`, the destination's directory is in place, and the destination is the source itself or lies outside it and is missing or an empty directory (`Storage.DirMoveReady`) |
| Storage.RenameMovesSubtree | src/LocalFileStorage.php:173 | a successful rename puts every entry at or below the source at the same place below the destination and, for distinct paths, leaves nothing at or below the source |
| Storage.CopyFile | src/LocalFileStorage.php:184-197 | a missing outside file gives false before the destination is checked; on success the destination holds its bytes and the outside file stays; every existing entry but the destination is kept, and the only entries added are the destination and directories on the way to its `dirname`; for a destination with a segment or a plain root, an existing outside file is copied exactly when the destination is writable once its directory is ensured |
| Storage.MoveFile | src/LocalFileStorage.php:204-217 | as `copyFile`, including when it succeeds, and on success the outside file is gone under every spelling of its path, while on failure it stays |
| Storage.PutFileContents | src/LocalFileStorage.php:245-254 | throws exactly for a bad path; on success returns the byte count and the file holds the content, appended to the old bytes under `FILE_APPEND`; every existing entry but the file is kept and the only entries added are the file and directories on the way to its `dirname`; for a path with a segment or a plain root, succeeds exactly when the target is not `/` and not a directory and its directory is in place: already there when `dirname(dirname(file))` exists, creatable otherwise |
| Storage.EnsureThenWrite | src/LocalFileStorage.php:249-250 | for a path with a segment or a plain root, ensuring the directory and then writing succeeds exactly under the condition `putFileContents` states |
| Storage.FileExists | src/LocalFileStorage.php:403-406 | true exactly when the normalized path names an entry |
| Storage.IsFile | src/LocalFileStorage.php:412-415 | true exactly when the normalized path names a file |
| Storage.IsDir | src/LocalFileStorage.php:421-424 | true exactly when the normalized path names a directory |
| Storage.Mkdir | src/LocalFileStorage.php:368-377 | throws for a bad path; true exactly when the target was missing and no existing ancestor is a file, in which case it is now a directory; every existing entry is kept, the only entries added are directories on the way to the target, and on false nothing changes |
| Storage.Rename | src/LocalFileStorage.php:394-397 | `rename` is `move` |
| Storage.Delete | src/LocalFileStorage.php:336-362 | the decision table: missing gives true; a file is unlinked; an unopenable directory gives false; an empty directory is removed; a non-empty one gives false unless recursive, when the recursive delete's tree and result are taken |
| Storage.RemoveDir | src/LocalFileStorage.php:384-387 | `rmdir` behaves as `delete` with the same flag |
| StorageProperties.DotSegmentRejected | tests/FileStorageTest.php:108-133 | `.`, `..`, `/../`, `/dir/../../../` and every path with a dot segment make `normalizePath` and `mkdir` throw |
| StorageProperties.ForeignCharRejected | tests/FileStorageTest.php:108-133 | `~dir`, `$dir`, `!dir`, `@dir`, `#dir` and every path with a foreign character make `normalizePath` and `mkdir` throw |
| StorageProperties.FilePathAccepted | src/LocalFileStorage.php:113-117 | a directory path plus `/name.ext` is accepted and names an entry below the root |
| StorageProperties.FileUrlIgnoresLeadingSeparators | src/LocalFileStorage.php:53 | leading `/` or space on the path does not change the URL |
| StorageProperties.PutFileContentsConfined | src/LocalFileStorage.php:245-254 | `putFileContents` changes no existing entry outside the root and adds entries only on the way to the root or beneath it; for a path with a segment or a plain root, only on the way to the file |
| StorageProperties.CopyConfined | src/LocalFileStorage.php:140-155 | `copy` changes no existing entry outside the root and adds entries only on the way to the root or beneath it; for a destination with a segment or a plain root, only on the way to the destination |
| StorageProperties.MoveConfined | src/LocalFileStorage.php:162-177 | `move` changes no existing entry outside the root and adds entries only on the way to the root or beneath it; for a destination with a segment or a plain root, only on the way to the destination or beneath it |
| StorageProperties.CopyFileConfined | src/LocalFileStorage.php:184-197 | `copyFile` changes no existing entry outside the root and adds entries only on the way to the root or beneath it; for a destination with a segment or a plain root, only on the way to the destination |
| StorageProperties.MoveFileConfined | src/LocalFileStorage.php:204-217 | `moveFile` changes no existing entry outside the root and adds entries only on the way to the root or beneath it; for a destination with a segment or a plain root, only on the way to the destination |
| StorageProperties.MkdirConfined | src/LocalFileStorage.php:368-377 | `mkdir` changes no existing entry and adds only entries on the way to its target, hence on the way to the root or beneath it |
| StorageProperties.DeleteConfined | src/LocalFileStorage.php:336-362 | `delete` changes no entry outside the root |
| StorageProperties.PutFileContentsKeepsWellformed | src/LocalFileStorage.php:245-254 | `putFileContents` keeps the disk well-formed |
| StorageProperties.CopyKeepsWellformed | src/LocalFileStorage.php:140-155 | `copy` keeps the disk well-formed |
| StorageProperties.CopyFileKeepsWellformed | src/LocalFileStorage.php:184-197 | `copyFile` keeps the disk well-formed |
| StorageProperties.MoveFileKeepsWellformed | src/LocalFileStorage.php:204-217 | `moveFile` keeps the disk well-formed |
| StorageProperties.MkdirKeepsWellformed | src/LocalFileStorage.php:368-377 | `mkdir` keeps the disk well-formed |
| StorageProperties.AfterDeleteKeepsWellformed | src/LocalFileStorage.php:303-329 | the tree a recursive delete leaves is well-formed |
| StorageProperties.DeleteKeepsWellformed | src/LocalFileStorage.php:336-362 | `delete` keeps the disk well-formed |
| StorageProperties.AppendFlagBits | src/LocalFileStorage.php:245-250 | for every integer `flags`, the append test is PHP's `flags & FILE_APPEND` on the two's complement bit pattern, negative flags included |
| StorageProperties.PutThenRead | tests/FileStorageTest.php:146-148 | after a successful write without `FILE_APPEND` the path is a file holding exactly the content |
| StorageProperties.PutThenAppend | tests/FileStorageTest.php:146-152 | for a path of two segments or a plain root, a write followed by an appending write of the same content leaves it twice, and the append succeeds |
| StorageProperties.PutFailsWhenOnlyGrandparentExists | src/LocalFileStorage.php:126-132 | when `dirname(dirname(file))` exists but the file's own directory does not, nothing is created and the write returns false |
| StorageProperties.PutIntoMissingDirectory | src/LocalFileStorage.php:126-132 | for a path of two segments or a plain root: when the directory above the file's directory is missing too and no file is in the way, the write creates the directory chain and succeeds |
| StorageProperties.MoveOfFileIsCopyThenUnlink | src/LocalFileStorage.php:162-177 | moving a file succeeds exactly when copying it does, and leaves the copy's tree without the source |
| StorageProperties.MoveFileIsCopyFileThenForget | src/LocalFileStorage.php:204-217 | `moveFile` leaves the tree `copyFile` leaves and, on success only, drops the outside file |
| StorageProperties.CopyFileThenRead | src/LocalFileStorage.php:184-197 | after a successful `copyFile` the destination is a file with the outside file's bytes, and the outside file remains |
| StorageProperties.MoveFileThenRead | src/LocalFileStorage.php:204-217 | after a successful `moveFile` the destination is a file with the bytes and the outside file is gone |
| StorageProperties.CopyFileIntoMissingDirectory | tests/FileStorageTest.php:169-183 | for a destination of two segments or a plain root, whose directory and the one above are missing with no file on the way, `copyFile` of an existing outside file succeeds, and the destination is then a file holding its bytes while the outside file remains |
| StorageProperties.MoveFileIntoMissingDirectory | tests/FileStorageTest.php:185-204 | the same for `moveFile`, after which the outside file is gone |
| StorageProperties.MkdirGuardIrrelevant | src/LocalFileStorage.php:372-376 | the result of `mkdir` does not depend on the working directory the guard consults |
| StorageProperties.MkdirTwice | src/LocalFileStorage.php:368-377 | a second `mkdir` of a created directory returns false and changes nothing |
| StorageProperties.DeleteIdempotent | src/LocalFileStorage.php:340-341 | after a successful delete, deleting again returns true and changes nothing |
| StorageProperties.RecursiveDeleteRemovesSubtree | src/LocalFileStorage.php:351-352 | with nothing unopenable below it, a recursive delete of a directory other than `/` succeeds and removes exactly that directory and everything beneath it |
| StorageProperties.UnlockedDeleteRemovesSubtree | src/LocalFileStorage.php:303-329 | with nothing locked below it, every entry at or below the directory is removed |

## Left out

- `moveUploadedFile`: depends on PHP's registry of HTTP uploads, which is outside the class.
- `getFileContents`: the slice it returns depends on how native `file_get_contents` treats an explicit length of 0, which is not visible here.
- `isReadable`, `isWritable`, `fileSize` and the access, change and modification times: direct passthroughs to `stat` involving permissions and clocks.
- `__get`/`__set`: reflection-based property dispatch.
- Permission bits: `defaultDirMode` is stored and read back but never affects the tree.
- The constructor's `is_string` checks: arguments are typed `Option<string>`, so a non-string argument (which the constructor ignores) cannot be expressed.
- The working directory: a relative root, and a relative outside path of `copyFile`/`moveFile`, are resolved as if the working directory were `/`. The one place the working directory matters, the `mkdir` guard, takes it as a boolean parameter.
- Symlinks, hard links, races with other processes, full disks and other I/O failures: the native primitives fail only for the reasons their contracts name. The one exception is a directory `opendir` cannot open, given as a set in the disk.
- Directories outside the storage: the outside side of `copyFile`/`moveFile` holds files only. `file_exists` on an outside directory, and native `copy`/`rename` of one, are not modelled.
- Trailing separators: `file.txt/` resolves like `file.txt`, whereas the kernel rejects a trailing slash after a file name.
- `file_put_contents` flags other than `FILE_APPEND` (`FILE_USE_INCLUDE_PATH`, `LOCK_EX`).
- Recursive delete's traversal order: `readdir` order is whatever the listing yields. The proved result does not depend on it.
- Directory separator: `DIRECTORY_SEPARATOR` is `/` and `dirname` follows its POSIX form; Windows separators and drive letters are not modelled.
- The outside path of `copyFile`/`moveFile` is always looked up among the outside files, never in the tree. A call such as `moveFile("<root>/a", "b")`, whose outside path names an entry inside the storage, therefore behaves differently from PHP, which would find and rename that entry.
- Lexical `..`: a path resolves `..` by dropping the previous name, whereas the kernel also requires that name to exist as a directory. This matters for a root string with `..` in it and for the outside path of `copyFile`/`moveFile`, which is never checked against the pattern: `copyFile("/tmp/missing/../a", "b")` finds `/tmp/a` in the model, whereas PHP's `file_exists` fails when `/tmp/missing` does not exist and the call returns false.
- StorageProperties.PutThenAppend: stated only for a path of two segments or a root without `.`/`..` segments. Otherwise `dirname(dirname(file))` need not be the directory above the file's directory, and under lexical `..` the append may take the `mkdir` branch and fail.
- StorageProperties.PutIntoMissingDirectory: stated only for a path of two segments or a plain root, for the same reason.
- Storage.PutFileContents: the exact success condition is stated only for a path with a segment or a plain root. For a separator-only path under a root with `.`/`..`, `dirname` of the normalized string need not name the parent of the target.
- Storage.Copy: the exact success condition is stated only for a destination with a segment or a plain root, for the same reason as for `Storage.PutFileContents`.
- Storage.Move: the exact success condition is stated only for a destination with a segment or a plain root, for the same reason as for `Storage.PutFileContents`.
- Storage.CopyFile: the exact success condition is stated only for a destination with a segment or a plain root, for the same reason as for `Storage.PutFileContents`.
- Storage.MoveFile: the exact success condition is stated only for a destination with a segment or a plain root, for the same reason as for `Storage.PutFileContents`.
- Storage.Move: requires a well-formed disk, which every real file system is. Without that precondition, a directory renamed into its own parent could not be told apart from a non-empty target.
- Storage.Rename: requires a well-formed disk, as `Storage.Move` does.
- Storage.Delete: requires a well-formed disk, which the recursive delete's termination argument and its listing lemma rely on.
- src/VlPetukhov/FileStorage/LocalFileStorage.php is an unfinished stub with no behaviour, and src/FileStorageInterface.php holds declarations only. Neither is part of this model.
