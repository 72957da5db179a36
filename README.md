# fst: ranking comparators and temporary test directories, in Dafny

This project models the core of `fst`, a Go library of helpers for tests
that work with filesystem trees. It covers two parts of that library.

- **File ranking** (`file_rank.go`). A comparator is a "strictly less than"
  function over the descriptors a tree walk produces. The library ships five
  of them: `ByName`, `ByDir`, `BySize`, `ByTime` and `ByPerm`. The factory
  `ByContent` returns a comparator that opens both files and compares their
  bytes in lock-step. `Less` runs a chain of comparators and stops at the
  first one that says "less".
- **Temporary directories** (`temp_dir.go`). `TempInitDir` creates a fresh
  directory with mode 0700 and returns a cleanup function. That cleanup walks
  the tree. On the walk, each directory gets mode 0700 and is recorded, and
  every other entry is removed. The cleanup then removes the recorded
  directories, the last one visited first, with `os.RemoveAll`. Any failure
  ends the process (`log.Fatalln`). `TempInitChdir`, `TempCloneDir`,
  `TempCloneChdir` and `TempCreateChdir` wrap it. They change into the new
  directory, copy a tree into it, or build one from a description, and they
  run the cleanup when one of their own steps fails.

The project is split into four modules.

- `lex.dfy` (`Lex`): one generic strict lexicographic order. It has a proved
  non-recursive characterisation: a proper prefix, or a smaller element at
  the first difference. It also has proofs that it lifts a strict total
  order on elements to one on sequences. Three orders are instances of it:
  Go's string `<`, the content comparator's byte loop, and the order in
  which `filepath.Walk` visits a tree.
- `file_rank.dfy` (`FileRank`): the `FileInfo` record and the five
  comparators, each with the ordering facts the library relies on. Whether
  an object is a directory or a regular file is read off its Go file mode,
  as `IsDir` and `IsRegular` do.
  - `ByContent` takes a map from paths to contents. A path missing from the
    map cannot be opened. A comparator returns a `Verdict`. That is either a
    ranking or a `Fatal` outcome naming the file that would not open, which
    is the test's `t.Fatal`.
  - The byte loop (`CompareBytes`) and the range loop of `Less` (`LessLoop`)
    are methods with loop invariants. Each is proved equal to a function,
    and the function's meaning is proved separately.
- `fs_model.dfy` (`FsModel`): the filesystem.
  - A `Tree` maps absolute paths to entries, each a kind and permission bits.
    A path is its list of name components. A tree is well formed when every
    entry lies in a directory that exists.
  - Removing an entry needs owner write and search permission on its
    directory. That is why the cleanup chmods every directory to 0700 before
    it deletes anything.
  - `WalkOrder` computes the lexical pre-order that `filepath.Walk` follows.
  - The lemmas about removal orders live here.
- `temp_dir.dfy` (`TempDir`): the process's view of the operating system, a
  class `Host` with the tree, the working directory, an `aborted` flag
  (`log.Fatalln` or a panic) and a ghost log of what was removed.
  - Each system call the core makes is a method with its effect and its
    failure condition. These are `os.Chmod`, `os.Remove`, `os.RemoveAll`,
    `os.Getwd`, `os.Chdir` and `ioutil.TempDir`, plus the tree population
    done by `TreeCopy` or `TreeCreate`.
  - The walk callback, the walk loop, the countdown loop and the cleanup are
    methods with loop invariants. Each wrapper is a method with the
    library's error protocol as its result: `Ready(path, cleanup)` or
    `Failed(err)`.
  - What the environment decides is an input. This covers the random name,
    the failures, the entries that refuse a change, and the tree a copy or a
    build produces.

The main results are these.

- The teardown ends the process exactly when it is *blocked*. It is blocked
  when the root is missing, some entry at or below the root refuses the
  change, or the directory holding the root forbids removing it.
  `TempDir.Host.Teardown`, `TempDir.TeardownVerdict`.
- Entries outside the root are never touched.
- Whatever happens, the removal log has no repeats and never removes a path
  after a path above it (deepest first).
- When the teardown is not aborted, the tree is exactly what lay outside the
  root, and the log holds exactly the entries that were at or below it.
- Each wrapper returns `Ready` exactly when all of its steps succeed. On
  each failure it names the right error. After a failed step the
  filesystem is back to its old state, unless the cleanup itself was
  blocked.

## Model

| member | source | states |
|---|---|---|
| `Lex.LexLessIff` | file_rank.go:83-103 | the lexicographic order holds exactly for a proper prefix or for a smaller element at the first difference (both directions) |
| `Lex.LexIrreflexive` | file_rank.go:17-22 | no sequence ranks below itself |
| `Lex.LexPrefix` | file_rank.go:89-92 | a proper prefix always ranks below the longer sequence |
| `Lex.LexTransitive` | file_rank.go:17-22 | the order is transitive when the element order is a strict order |
| `Lex.LexConnected` | file_rank.go:17-22 | two different sequences are ranked one way or the other when the element order is connected |
| `Lex.LexAsymmetric` | file_rank.go:17-22 | two sequences never rank below each other in both directions |
| `Lex.LexStrictTotalOrder` | file_rank.go:17-22 | lifting a strict total order on elements gives a strict total order on sequences |
| `FileRank.DirIsNotRegular` | file_rank.go:37-46 | the kind is read off the Go file mode, so no object is both a directory and a regular file |
| `FileRank.NameLessIsStrictTotalOrder` | file_rank.go:31-33 | Go's string `<` is irreflexive, transitive and connected |
| `FileRank.ByNameOrdersNames` | file_rank.go:29-33 | ByName is irreflexive, asymmetric and transitive, and ranks any two different names one way |
| `FileRank.ByDirCases` | file_rank.go:35-39 | a directory ranks before a non-directory; two of the same kind never rank; ByDir is a strict partial order |
| `FileRank.BySizeNeedsRegularFiles` | file_rank.go:41-47 | a pair that is not made of two regular files never ranks, so a directory never ranks either way; two regular files rank exactly by size |
| `FileRank.ByTimeTolerance` | file_rank.go:49-53 | times at most 10µs apart never rank either way; times further apart put the earlier first; ByTime is a strict partial order |
| `FileRank.ByPermIgnoresHighBits` | file_rank.go:55-58 | mode bits above the nine permission bits never change the verdict; ByPerm is a strict partial order |
| `FileRank.ByPermExample` | file_rank.go:55-58 | mode 0644 ranks below 0755 and not the other way; a directory with mode 0755 ranks exactly like a 0755 file |
| `FileRank.CompareBytes` | file_rank.go:83-103 | the lock-step loop (right stream read first) returns exactly the content order |
| `FileRank.CompareContent` | file_rank.go:66-104 | the comparator fails on the left path if it cannot be opened, then on the right path, and otherwise ranks by content |
| `FileRank.ContentLessIff` | file_rank.go:60-65 | content order is proper prefix or first smaller byte, both directions |
| `FileRank.ContentLessFalseCases` | file_rank.go:84-87 | when the right file runs out first, or the contents are equal, the verdict is "not less" |
| `FileRank.ContentIgnoresLength` | file_rank.go:60-65 | "aaa" ranks below "ab" although it is longer; "ab" does not rank below "a" |
| `FileRank.Less` | file_rank.go:107-115 | the verdict is "not less" exactly when every comparator says "not less", and otherwise it is the verdict of the first comparator that does not |
| `FileRank.LessLoop` | file_rank.go:108-115 | the range loop with early return computes Less |
| `FileRank.DecidesAtUnique` | file_rank.go:109-113 | the first comparator that does not say "not less" decides the result |
| `FileRank.LessEmpty` | file_rank.go:114 | an empty chain never ranks |
| `FileRank.LessShortCircuits` | file_rank.go:109-113 | comparators after the deciding one are never consulted: any suffix may follow it |
| `FileRank.LessOfPredicates` | file_rank.go:107-115 | over side-effect-free comparators, Less says "less" exactly when some comparator does |
| `FileRank.DirsThenNames` | file_rank.go:29-39 | the chain ByDir, ByName puts directories before non-directories and orders two directories by name |
| `FsModel.PathLessIsStrictTotalOrder` | temp_dir.go:41-42 | the walk's visiting order is a strict total order on paths |
| `FsModel.SortedIsAncestorsFirst` | temp_dir.go:41-42 | a list sorted in that order has no repeats and puts every directory before its contents |
| `FsModel.WalkOrder` | temp_dir.go:41-42 | the computed order visits each entry at or below the root exactly once, sorted, each directory before its contents |
| `FsModel.NothingBelowNonDir` | temp_dir.go:55 | nothing lies below a non-directory, so removing it removes only itself |
| `FsModel.OutsideWellFormed` | temp_dir.go:62-67 | removing a whole subtree leaves a well-formed tree |
| `FsModel.OfKindFacts` | temp_dir.go:45-55 | the recorded directories (or the removed entries) are exactly the visited entries of that kind, without repeats and ancestors first |
| `FsModel.ReversedDescendantsFirst` | temp_dir.go:62 | counting down over ancestors-first directories removes descendants first, and removes the same set |
| `FsModel.ParentVisitedFirst` | temp_dir.go:41-56 | the directory holding a visited entry, other than the root, was visited earlier |
| `FsModel.PrefixRemovalOrder` | temp_dir.go:43-59 | the entries removed before the walk stopped have no repeats and are deepest first |
| `FsModel.RemovalLogOrder` | temp_dir.go:41-67 | the files in walk order, then the directories counted down from any point: no repeats, deepest first |
| `TempDir.TempDirIsFresh` | temp_dir.go:32 | a successful ioutil.TempDir names a new entry in a writable directory |
| `TempDir.FreshSeparate` | temp_dir.go:138 | nothing old lies at or below a fresh root, and everything copied lies strictly below it |
| `TempDir.GraftedWellFormed` | temp_dir.go:138 | the new root plus a well-formed copied tree gives a well-formed tree |
| `TempDir.GraftedRoot` | temp_dir.go:138-142 | after a copy into a fresh root, the tree is well formed, what lies outside the root is the old tree, and the teardown is blocked exactly when the root or a copied entry refuses |
| `TempDir.WalkedFacts` | temp_dir.go:45-55 | after the walk has visited some entries, each visited directory has mode 0700, each visited non-directory is gone, and nothing else has changed |
| `TempDir.HazardFound` | temp_dir.go:43-60 | an entry that refuses the change, or an unremovable root file, makes the walk fail |
| `TempDir.NoHazard` | temp_dir.go:43-60 | a walk with no such entry does not fail |
| `TempDir.WalkStepFacts` | temp_dir.go:43-56 | the next entry is still as it was, visiting it is one more visit, and it fails exactly when the entry is hazardous |
| `TempDir.WalkedAllBelow` | temp_dir.go:41-56 | a completed walk leaves only the recorded directories at or below the root, each with mode 0700 |
| `TempDir.WalkedAllOutside` | temp_dir.go:41-56 | the walk changes nothing outside the root |
| `TempDir.TeardownVerdict` | temp_dir.go:41-67 | a failing walk means the teardown is blocked; after a completed walk, the countdown fails exactly when the teardown is blocked |
| `TempDir.WalkStopped` | temp_dir.go:58-60 | a stopped walk means blocked, leaves everything outside the root as it was, and has removed files deepest first |
| `TempDir.WalkCompleted` | temp_dir.go:41-62 | a completed walk sets up the countdown and leaves the outside alone |
| `TempDir.TeardownLog` | temp_dir.go:41-67 | the removal log has no repeats and is deepest first; after a complete countdown it holds exactly the tree at the root |
| `TempDir.RemoveStep` | temp_dir.go:62-66 | each os.RemoveAll removes just that directory, and fails only on the root, when the directory holding it forbids removal |
| `TempDir.CountdownComplete` | temp_dir.go:62-67 | a complete countdown leaves exactly what lay outside the root |
| `TempDir.CountdownOutside` | temp_dir.go:62-67 | however far the countdown got, entries outside the root are as they were |
| `TempDir.KeptOutside` | temp_dir.go:38-68 | when the old tree is what lies outside a fresh root, leaving the outside of that root alone keeps every old entry unchanged |
| `TempDir.Host.Chmod` | temp_dir.go:46 | the mode changes exactly when the entry exists and accepts the change |
| `TempDir.Host.Remove` | temp_dir.go:55 | a non-directory is removed exactly when it accepts and its directory allows it |
| `TempDir.Host.RemoveAll` | temp_dir.go:63 | removes the whole subtree exactly when every entry in it accepts removal and sits in a directory that allows it; logs a removal only when the path existed |
| `TempDir.Host.Getwd` | temp_dir.go:89 | returns the working directory unless the call fails |
| `TempDir.Host.Chdir` | temp_dir.go:95 | enters the path exactly when it is an enterable directory |
| `TempDir.Host.MakeTempDir` | temp_dir.go:32 | creates `tmp/name` with mode 0700 exactly when the call can succeed |
| `TempDir.Host.Populate` | temp_dir.go:138 | grafts the produced tree below the root, then reports its outcome |
| `TempDir.Host.VisitEntry` | temp_dir.go:43-56 | a directory is chmodded to 0700 and recorded, anything else is removed; it fails exactly when that call fails |
| `TempDir.Host.WalkPhase` | temp_dir.go:41-60 | the walk succeeds exactly when no hazard lies at or below the root; the state is the visits so far; on success the recorded directories are exactly the visited ones, in order |
| `TempDir.Host.RemovePhase` | temp_dir.go:62-67 | the countdown aborts exactly when the root's directory forbids its removal; otherwise it leaves what lay outside the root and logs the directories in reverse |
| `TempDir.Host.Teardown` | temp_dir.go:38-68 | aborts exactly when blocked; leaves the outside of the root alone; logs removals without repeats, deepest first; when not aborted, the tree is what lay outside the root and the log is exactly the old tree at the root |
| `TempDir.Host.RunCleanup` | temp_dir.go:102-105 | changes back to the saved directory when it can, then tears down: aborts exactly when blocked, leaves the outside of the root alone even when it aborts, extends the log without rewriting it, logs no repeats and deepest first, and leaves exactly the outside of the root when it completes |
| `TempDir.Host.TempInitDir` | temp_dir.go:31-69 | succeeds exactly when ioutil.TempDir can, returning the fresh root and its cleanup; on failure nothing changes; every entry that existed before the call is still there, unchanged, whatever happens |
| `TempDir.Host.TempInitChdir` | temp_dir.go:83-107 | succeeds exactly when the directory is made, Getwd works and the root can be entered, returning the old directory; each failure names its error and runs the cleanup; every entry that existed before the call is still there, unchanged, whatever happens |
| `TempDir.Host.TempCloneDir` | temp_dir.go:132-145 | succeeds exactly when the directory is made and the copy succeeds; a failed copy runs the cleanup, which aborts exactly when a copied entry or the root refuses; every entry that existed before the call is still there, unchanged, whatever happens |
| `TempDir.Host.TempCloneChdir` | temp_dir.go:159-183 | succeeds exactly when the clone, Getwd and Chdir all do; each failure names its error, keeps the working directory and runs the cleanup; every entry that existed before the call is still there, unchanged, whatever happens |
| `TempDir.Host.TempCreateChdir` | temp_dir.go:190-204 | succeeds exactly when the directory is made and entered and the build succeeds; a failed build runs the cleanup that changes back first; every entry that existed before the call is still there, unchanged, whatever happens |

## Left out

- Real system calls are replaced by an explicit tree and explicit fault inputs.
  - The name `ioutil.TempDir` draws is an input: it is the name its retry
    loop settles on, and the retries are not modelled.
  - The umask is not modelled: 0700 is taken to survive it.
- `os.TempDir()`, the default parent directory, is the `tmp` parameter.
- `TreeCopy` and `TreeCreate` are not part of this model. Their effect is an
  input (`Population`): the entries they add below the root and whether they
  then report an error. Their `src` and `config` arguments disappear with
  them.
- `os.RemoveAll` is modelled as all-or-nothing. The real call may remove
  part of a subtree before it fails. In the countdown this never matters: a
  directory reached by the countdown holds nothing but itself.
- Read errors in the byte loop (other than end of file) are not modelled:
  an opened file always yields its whole contents. Closing files (`defer`)
  and buffering (`bufio`) are left out.
- `t.Fatal` and `log.Fatalln` are not process exits here. `t.Fatal` is the
  `Fatal` verdict, and `log.Fatalln` is the `aborted` flag, after which
  nothing else happens.
- The walk's visiting order is computed from the tree. The teardown is proved
  for any order that visits every entry once, each directory before its
  contents; the order `filepath.Walk` follows is one of those.
- Names are `seq<char>`. A file name that is not valid UTF-8, which Linux
  allows and Go's `<` compares byte by byte, cannot be represented.
- The kind of an object is read off the mode bits of current Go, whose
  `ModeType` includes `ModeIrregular`; older toolchains lack that bit.
- The walk is taken to call its function on a directory before it lists
  the directory, as `filepath.Walk` did in the Go releases the library was
  written for. Later releases list the directory first. With them, a
  directory the process cannot read is chmodded but its contents are not
  visited, and the countdown may then fail inside it. So for those
  toolchains the model's `Blocked` condition is not the whole story.
- Read permission is not modelled: listing a directory always succeeds.
- Time stamps are whole nanoseconds with no overflow; `time.Time`'s
  monotonic clock reading is left out.
- Concurrency and the real process working directory outside `Host.cwd`
  are not modelled.
- `TempDir.Host.TempCreateChdir`: after a failed build, the working directory
  is stated only for the case where the saved directory can still be
  entered; otherwise the model leaves it unspecified.
- `TempDir.Host.RunCleanup`: the removal log is stated to have no repeats and
  to be deepest first, but its exact contents are stated only in `Teardown`.
