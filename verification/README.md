# FAT filesystem wrapper of NitroEdit, modelled in Dafny

NitroEdit reaches the storage card through `fs_Fat.cpp`, a thin layer over
stdio, `stat`, `opendir`/`readdir`, `mkdir`, `remove` and the libfat
bring-up call `fatInitDefault`. This project models the decision logic that
sits on top of those native calls and proves what it does. The native calls
themselves are oracles or abstract values:

- **Recursive directory creation** (`CreateFatDirectory`). The path is split
  on `'/'` as `find`/`substr` do it. A running path is built token by token,
  and `mkdir` is tried on it after each token. EEXIST is tolerated and any
  other error stops the walk. `mkdir` is an oracle `Path -> MkdirStatus`.
- **Depth-first tree walks** (`ListAllFatFiles`, `DeleteFatDirectory`). The
  filesystem is an inductive tree. A node is either a directory that
  `opendir` could not open or a sequence of `readdir` entries
  `(name, d_type, child)`. `remove` (behind `DeleteFatFile`) is an oracle
  `Path -> bool`.
- **One-time storage initialisation** (`InitializeFat`). The state is the
  `g_Initialized` flag. Each call takes the answer `fatInitDefault` would give
  and records whether it was asked.
- **File handle** (`FatFileHandle`). The handle holds the `FILE` pointer or
  null. Open modes map to `fopen` strings, `Open` and `Close` change the
  pointer, and `GetSize`/`SetOffset`/`GetOffset` work over an abstract
  `(length, cursor)` stream. `fopen` is an oracle, and `fclose`/`fseek`
  verdicts are parameters.
- **stat queries** (`Exists`, `IsFatFile`, `GetFatFileSize`). They work over
  an abstract stat result.

Modules follow the parts of the source:

- `Common`: paths, `Option`, and `StopsAtFirstFailure`. That predicate
  describes a sequence of calls that is abandoned at the first failure. Both
  directory creation and deletion use it.
- `PathSplit`: `Find`, `Split` and `Join`.
- `CreateDirectory`: `CreateFatDirectory` and the candidate paths.
- `DirTree`: the tree, the entry classification and the reference `Listing`
  of a walk.
- `ListFiles`: `ListAllFatFiles`.
- `DeleteDirectory`: `DeleteFatDirectory`.
- `FatInit`: `InitializeFat`.
- `FileHandle`: `FatFileHandle`.
- `FatStat`: the stat queries.

Where a cleaner reading of the module's intent and the code differ, the model
follows the code:

- `Close` on a closed handle still calls `fclose` on the null pointer.
- `Exists` leaves `out_size` untouched on failure; it is not left
  unspecified.
- `Open` on an open handle overwrites the pointer without closing the old
  stream. When that `fopen` fails, the handle is null afterwards.
- `CreateFatDirectory` drops a leading `'/'`. The candidates of `"/a/b"` are
  `""`, `"a"` and `"a/b"`, so the first `mkdir` is on the empty path
  (`CreateDirectory.LeadingSlashDropped`). If that call fails with an error
  other than EEXIST, the walk stops there and returns false.
- `DeleteFatDirectory` never removes a directory. The `rmdir` step is
  commented out in the source.

## Model

| member | source | states |
|---|---|---|
| `PathSplit.Find` | source/fs/fs_Fat.cpp:113 | `find('/', pos)` reports a position of `'/'` at or after `pos`. |
| `PathSplit.FindIsFirst` | source/fs/fs_Fat.cpp:113 | The reported separator is the first one: nothing between `pos` and it is a separator. npos (None) means the rest of the string holds no separator. |
| `PathSplit.Split` | source/fs/fs_Fat.cpp:112-116 | The loop produces exactly one token per separator, plus one. |
| `PathSplit.SplitTokensHaveNoSeparator` | source/fs/fs_Fat.cpp:112-116 | No token contains a separator. |
| `PathSplit.JoinSplit` | source/fs/fs_Fat.cpp:112-116 | Joining the tokens with `'/'` gives the original path back. No character is lost or added, empty tokens included. |
| `PathSplit.SplitJoin` | source/fs/fs_Fat.cpp:112-116 | Splitting a join of separator-free tokens gives the tokens back. So splitting is one-to-one. |
| `PathSplit.JoinedTokensArePrefixes` | source/fs/fs_Fat.cpp:113-116 | The first i+1 tokens joined form a prefix of the path that holds i separators and is followed by a separator or by the end. |
| `CreateDirectory.CreateFatDirectory` | source/fs/fs_Fat.cpp:106-129 | The `mkdir` attempts are a prefix of the candidate paths, one per token. Every attempt except the last was created or already existed. The walk stops right after the first failure other than EEXIST. It returns true iff every candidate was created or already existed, so an oracle that reports everything as existing yields true. |
| `CreateDirectory.WalkIsScan` | source/fs/fs_Fat.cpp:112-121 | The running paths the loop builds turn by turn are exactly the candidates: one per token, as the split of the path defines them. |
| `CreateDirectory.CandidatesArePrefixes` | source/fs/fs_Fat.cpp:112-121 | This applies when the path does not start with `'/'`. The i-th candidate is then the prefix of the path before its (i+1)-th separator. It is the i-th path handed to `mkdir` when no earlier call fails. |
| `CreateDirectory.LastCandidateIsDir` | source/fs/fs_Fat.cpp:112-121 | When the path does not start with `'/'`, the last candidate is the path itself. It is the last path handed to `mkdir` when no call fails. |
| `CreateDirectory.LeadingSlashDropped` | source/fs/fs_Fat.cpp:118-121 | When the path does start with `'/'`, the first candidate is `""`. The candidates after it are those of the path without its leading separator, because the running path is still empty when the second token arrives. |
| `CreateDirectory.CandidatesNested` | source/fs/fs_Fat.cpp:112-121 | `"a/b/c"` makes `"a"`, `"a/b"`, `"a/b/c"`. |
| `CreateDirectory.CandidatesEmptyTokens` | source/fs/fs_Fat.cpp:112-121 | Each empty token still costs an attempt. `"a//b"` makes `"a"`, `"a/"`, `"a//b"`. `"a/"` makes `"a"` and `"a/"`. `""` makes `""` alone. `"/"` makes `""` twice. |
| `DirTree.ListingIsFiles` | source/fs/fs_Fat.cpp:197-228 | As a set, the walk's listing is exactly the set of paths of regular-file entries reached through subdirectory entries. |
| `DirTree.ClassifyPrecedence` | source/fs/fs_Fat.cpp:165-177 | `"."` and `".."` are skipped by name. The DT_DIR bit is tested before DT_REG, so an entry with both bits is a directory. An entry with neither bit is skipped. |
| `DirTree.SkippedEntryInvisible` | source/fs/fs_Fat.cpp:206-218 | Dropping a skipped entry (a dot entry or one with no type bit) leaves the listing unchanged. |
| `DirTree.FilesAreNotDirectories` | source/fs/fs_Fat.cpp:212-218 | In a tree whose entry names are distinct and hold no `'/'`, no path is both a reached file and a reached directory. |
| `DirTree.FilesAreNotNonFiles` | source/fs/fs_Fat.cpp:206-218 | In such a tree no reached regular-file path is also the path of a reached entry that the walk does not report as a file: a subdirectory, a dot entry or an untyped entry. |
| `ListFiles.ListAllFatFiles` | source/fs/fs_Fat.cpp:197-228 | Always returns true, even though a failing recursive call would return false: by induction no such call fails. The output vector only grows. The old contents stay as a prefix, followed by this directory's regular files in readdir order and then each subdirectory's listing in readdir order. An unopenable path appends nothing. |
| `ListFiles.ListSubdirs` | source/fs/fs_Fat.cpp:221-225 | The recursion over the collected subdirectories always returns true. It appends their listings in order. |
| `ListFiles.ListAllFatFilesFindsExactlyFiles` | source/fs/fs_Fat.cpp:197-228 | As a set, what gets appended is exactly the reachable regular files. |
| `ListFiles.ListAllFatFilesSkipsDirectories` | source/fs/fs_Fat.cpp:212-218 | In a well-formed tree, nothing appended is the start path, a subdirectory path, or the path of an entry the walk passes over. |
| `DeleteDirectory.RemoveFiles` | source/fs/fs_Fat.cpp:180-184 | Files are removed in order. The loop stops at the first remove that fails, and that remove is the last one attempted. |
| `DeleteDirectory.DeleteFatDirectory` | source/fs/fs_Fat.cpp:155-195 | The removes attempted are a prefix of the walk's listing: all of this directory's files first, then each subdirectory in order. Every attempt but the last succeeded. It returns true iff the whole listing was removed. On failure, the last attempt is the one that failed. An unopenable path returns true with no removes. |
| `DeleteDirectory.DeleteSubdirs` | source/fs/fs_Fat.cpp:185-189 | The recursion over the subdirectories walks their listings in order and stops at the first failed delete. |
| `DeleteDirectory.DeleteSucceedsIffAllRemovable` | source/fs/fs_Fat.cpp:155-195 | It returns true exactly when every reachable regular file can be removed. |
| `DeleteDirectory.DeleteNeverRemovesDirectories` | source/fs/fs_Fat.cpp:171-177 | In a well-formed tree, `remove` is never called on the start path, on any subdirectory path, or on the path of an entry the walk passes over. |
| `DeleteDirectory.FilesBeforeSubdirectories` | source/fs/fs_Fat.cpp:180-189 | The walk removes every regular file of a directory before it descends into any subdirectory. |
| `DeleteDirectory.DeleteLeavesSkeleton` | source/fs/fs_Fat.cpp:155-195 | With a `remove` that always succeeds, the walk returns true and removes exactly the listing. In a well-formed tree, taking those paths out of the tree leaves the directory skeleton: every reached regular file is gone, and every directory stays because no removed path names one. `Without` drops any entry whose path was removed, directories included. |
| `DeleteDirectory.RemovedDirectoryIsGone` | source/fs/fs_Fat.cpp:155-195 | `Without` does not keep directories by definition. Removing the path of a subdirectory takes it out, and the result then differs from the skeleton. |
| `DeleteDirectory.SkippedEntryNotDeleted` | source/fs/fs_Fat.cpp:165-177 | A dot entry or an entry without type bits changes neither the removes nor the result. |
| `FatInit.InitializeFat` | source/fs/fs_Fat.cpp:91-102 | The result equals the flag afterwards. A set flag stays set. The driver is called iff the flag was clear. The call succeeds iff the flag was already set or the bring-up succeeded. |
| `FatInit.RunAfterInit` | source/fs/fs_Fat.cpp:92-94 | Once the flag is set, every later call returns true without calling `fatInitDefault`. |
| `FatInit.RunFromBoot` | source/fs/fs_Fat.cpp:91-102 | Every run from process start satisfies `ReportsFirstUp`. Call i returns true iff one of bring-ups 0..i succeeded. The driver is called up to and including its first success and never after, because failures are retried. |
| `FatInit.FlagNeverCleared` | source/fs/fs_Fat.cpp:96-101 | The flag is never reset. It ends set iff it started set or some bring-up succeeded. |
| `FileHandle.GetOpenMode` | source/fs/fs_Fat.cpp:9-24 | Read, Write and Update get a two-character binary mode string. Any other mode gets null. |
| `FileHandle.GetOpenModeRoundTrip` | source/fs/fs_Fat.cpp:9-24 | The mapping is one-to-one: `"rb"`, `"wb"` and `"ab"` give back Read, Write and Update. |
| `FileHandle.Open` | source/fs/fs_Fat.cpp:39-46 | An unmapped mode returns false without calling `fopen` and leaves the handle untouched. Otherwise the handle takes `fopen`'s result, and Open returns whether that result is non-null. |
| `FileHandle.Close` | source/fs/fs_Fat.cpp:85-89 | The handle is null afterwards whatever `fclose` returned. The result is `fclose`'s verdict. |
| `FileHandle.GetSize` | source/fs/fs_Fat.cpp:48-54 | Returns the stream's length and gives the stream back unchanged, so the cursor is restored. |
| `FileHandle.SetOffset` | source/fs/fs_Fat.cpp:56-71 | An unlisted position returns false without seeking. A failed seek leaves the stream as it was. A successful seek moves the cursor by the offset from the start, the cursor or the end. |
| `FileHandle.GetSizeKeepsOffset` | source/fs/fs_Fat.cpp:48-75 | After `SetOffset(off, Begin)`, `GetSize` reports the length and `GetOffset` still reports `off`. |
| `FileHandle.OpenCloseCycle` | source/fs/fs_Fat.cpp:39-89 | A closed handle opened with a listed mode and a successful `fopen` holds that stream. Closing it leaves it closed. |
| `FatStat.Exists` | source/fs/fs_Fat.cpp:28-37 | True iff stat succeeded and the entry is a regular file. In that case the size is reported; otherwise `out_size` keeps the caller's value. |
| `FatStat.IsFatFile` | source/fs/fs_Fat.cpp:131-139 | False when `stat` fails. When it succeeds, true exactly when the mode marks a regular file. |
| `FatStat.GetFatFileSize` | source/fs/fs_Fat.cpp:141-149 | The size `stat` reports for a regular file. 0 when `stat` fails or the entry is not a regular file. |
| `FatStat.StatQueriesAgree` | source/fs/fs_Fat.cpp:131-149 | `Exists` agrees with `IsFatFile` and reports the size `GetFatFileSize` returns. A missing or non-regular path has size 0, the same size as an empty file. |

## Left out

- `Read` and `Write` (source/fs/fs_Fat.cpp:77-83) are single calls to `fread`/`fwrite` with a count of one item. The bytes are not modelled. Section 7.21.8 of ISO C11 makes both calls return 0 for a size of 0, so both return false then.
- `GetOffset` and `Tell` carry no contract of their own: each just reports the cursor. They are used by `FileHandle.GetSizeKeepsOffset`.
- `DeleteFatFile` is the `remove` oracle itself and carries no contract of its own.
- FileHandle.GetSize: its two `fseek` calls are taken to succeed. Both target positions the stream can reach (its end, and a position `ftell` reported). `ftell` error returns (-1 converted to `size_t`) are not modelled, in `GetSize` or in `GetOffset`.
- FileHandle.SetOffset: the offset is a `size_t` that `fseek` converts to `long`. The model's `offset: nat` accepts offsets beyond `LONG_MAX` and treats them as forward seeks. The source's `fseek` would see them as negative `long`s: a backward seek for Current and End, and a failure for Begin. The `fseek` verdict is a parameter.
- CreateDirectory.CreateFatDirectory: positions are held in `int`, which truncates `size_t` for strings longer than INT_MAX. That case is not modelled. The permission argument 777 does not affect any result and is not modelled.
- CreateDirectory.CreateFatDirectory: `mkdir` is an oracle that answers by path, so within one call the same path always gets the same answer. A candidate repeats only while the running path is still empty, so only a path that is `"/"` or starts with `"//"` repeats one. Both `"/"` and `"//a"` try `""` twice.
- DeleteDirectory.DeleteFatDirectory: `remove` is an oracle that answers by path, so within one call the same path always gets the same answer. A path is handed to `remove` twice only in a tree with duplicate entry names or with names holding `'/'`. `WellFormed` allows neither, and FAT produces neither.
- The `S_IFREG` bitmask test of `Exists`, `IsFatFile` and `GetFatFileSize` is abstracted to a "regular" flag in the stat result. Mode-bit combinations that FAT never produces are not modelled.
- The numeric values of DT_DIR (4) and DT_REG (8) are the conventional `dirent.h` ones. `dirent.h` is not part of this model.
- `closedir` is not modelled, and neither are `readdir` errors. A null from `readdir` ends the enumeration either way.
- Concurrent calls of `InitializeFat` on the shared flag are not modelled. The model is single-threaded.
- `Close` on an already closed handle passes a null pointer to `fclose`, which C leaves undefined. The model takes the `fclose` verdict as given and still nulls the handle.
