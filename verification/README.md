# Verified model of the NEON file system and its algorithms

This project models the core of NEON in Dafny and proves what the core is for.

* **The virtual file system** (`src/vfs.cpp`, `src/vfs_dump.cpp`). `Vfs.dfy` and `Nodes.dfy` hold the tree
  of nodes on the heap, with the loops over characters, the recursion and the explicit stack of the
  source. Every public method is proved against an operation on an abstract tree, a map from segment
  lists to entries (`FileSystem.dfy`). What the operations mean is proved there (`FileSystemLaws.dfy`),
  and lifted back to the nodes for whole sessions (`Sessions.dfy`).
* **The dump and the transactions built on it.** `Dump.dfy` has the printer and the parser, including
  the exceptions of `std::stoul`; `RoundTrip.dfy` says exactly when they are inverse; `Transactions.dfy`
  says exactly when a rollback restores the tree, over all runs of calls, and what keeps the quota;
  `Throws.dfy` says when a rollback throws.
* **The byte cache** (`ByteCache.dfy`): list and table with iterators as link numbers, the ledger, and
  the stack property of read-through use, lifted to runs on the object.
* **The shell's algorithms**: the wildcard matcher (`Glob.dfy`), the one-row edit distance
  (`EditDistance.dfy`), the inverted index (`WordIndex.dfy`) and the token bucket (`TokenBucket.dfy`).
* **The codecs**: streaming SHA-256 around an arbitrary block function (`Sha256.dfy`), Base64
  (`Base64.dfy`) and the Merkle hash of a tree: its lines (`MerkleLines.dfy`), what it binds for an
  arbitrary hash function (`Merkle.dfy`), and its code around the streaming hasher (`MerkleHash.dfy`).
* **The task queue** (`Scheduler.dfy`): the locked sections, interleaved by any number of threads.

Texts are byte strings: one `char` stands for one byte. A node's *key* is the name under which its
parent stores it; its *name* is the field the dump prints. The two may differ, and much of the behaviour
of the dump follows from that.

## What the code does and its surroundings do not say

* `Copy` checks no quota and clones without names (src/vfs.cpp:328-330, 337-358). So a copy can take the
  tree over the quota, and a tree with a copy in it survives neither its own dump nor a rollback:
  `QuotaStepExactly`, `CopyOvershoots`, `CopyBreaksRoundTrip`, `CopyThenRollbackLosesTheTree`.
* `Move` keeps the moved node's old name (src/vfs.cpp:451), so a renaming move has the same effect on
  dumps: `MoveKeepsDumpable` gives the exact condition.
* `Move` into the source's own subtree succeeds and drops the subtree (src/vfs.cpp:448-453):
  `MoveMeaning`, `MoveConservesBytes`.
* A sealed file system loads nothing but the empty tree, because loading goes through `Mkdir` and `Write`
  (src/vfs_dump.cpp:45, 57). When a file's path has a space in it, the loader may find no number where
  the length should be; `std::stoul` then throws out of the rollback, which leaves the transaction open and the tree
  partly loaded (src/vfs_dump.cpp:49-52): `RollbackByText`, `DumpThrowsExactly`, `RollbackThrowsExactly`.
* A literal star in the text is matched before the wildcard branch is reached (src/shell.cpp:165-166), so
  the matcher misses matches exactly for texts with a star: `ExactTexts`. Seen from the patterns, each one
  with a star misses some text: `ExactPatterns`. What it does decide, for all texts and patterns, is in
  `DecidesExactly`.
* A clock that is set back makes the refill negative (src/shell.cpp:576-577). The tokens then leave their
  bounds unless they cover it: `StepBoundedExactly`, `BoundedExactly`.
* The lines of a Merkle node are not delimited against newlines and tabs in names
  (include/neon/merkle.hpp:39-43): `OnlyReadingExactly` says exactly which lists of lines can be read in
  another way, `NewlineNamesConfuse` builds such trees, and `Binding` holds for every tree without them;
  `EqualRoots` takes it down to the block function of the hasher.
* `digest` reads the bit count after the padding has been counted (include/neon/crypto.hpp:53-54), so no
  message is hashed as section 5.1.1 of FIPS 180-4 demands: `NeverStandard`. The digest of "abc" that
  tests/test_sha256.cpp:7-12 expects is that of the standard. The model follows the code.
* `List` returns before it fills its result (src/vfs.cpp:730-731). It is modelled as the child names in key
  order, which is what tests/test_vfs_list_sorted.cpp:7-14 asks for and what the Merkle hash needs.

## Model

| member | source | states |
|---|---|---|
| `Paths.Segments` | src/vfs.cpp:559-566 | The first loop gives the non-empty pieces between slashes. |
| `Paths.Resolved` | src/vfs.cpp:567-572 | The second loop drops single dots and lets double dots take the last segment back, if there is one. |
| `Paths.NormalizePath` | src/vfs.cpp:558-579 | The three loops print exactly the segment list that the text denotes, behind a slash. |
| `Paths.NormalSegment` | src/vfs.cpp:568-571 | For every text and every further segment: an empty one or a single dot changes nothing, a double dot takes the last segment away if there is one, any other is added at the end. |
| `Paths.NormalIsTheReading` | src/vfs.cpp:558-579 | A function from texts to segment lists obeys these rules, from the empty list on, if and only if it is the normalisation: the rules fix it on every text. |
| `Paths.NormalIdempotent` | src/vfs.cpp:558-579 | Normalising a normalised path changes nothing. |
| `Paths.NormalCompositional` | src/vfs.cpp:558-579 | Normalising `a/b` is normalising `normalise(a)/b`, for all texts. |
| `Paths.NormalNeverAboveRoot` | src/vfs.cpp:570-570 | A leading `..` at the root has no effect: no text climbs above it. |
| `Paths.ResolveCanonical` | src/vfs.cpp:567-572 | The stack of segments only ever holds non-empty segments without a slash, none of them `.` or `..`. |
| `Paths.RenderInjective` | src/vfs.cpp:573-578 | Different canonical segment lists are printed differently. |
| `Paths.RenderClean` | src/vfs.cpp:381-385 | A printed canonical path has no double slash and no trailing slash except for the root alone. |
| `FileSystemLaws.FailureChangesNothing` | src/vfs.cpp:337-358 | A `Mkdir`, `Touch`, `Write`, `Remove`, `Move` or `Copy` that returns false leaves tree, quota, seal and transaction exactly as they were, although `EnsureDir` runs before the last checks (also lines 402-454, 649-715). |
| `FileSystemLaws.OperationsKeepShape` | src/vfs.cpp:613-647 | Every operation keeps the tree a tree: a root directory, canonical paths, and a directory above every entry. |
| `FileSystemLaws.WriteMeaning` | src/vfs.cpp:684-715 | Exactly when `Write` succeeds; then the contents change at that one path, only missing ancestors become directories, new nodes are named after their keys and old ones keep their names, the bytes in use change by new minus old length, and `used - old` never underflows. |
| `FileSystemLaws.ReadAfterWrite` | src/vfs.cpp:717-723 | Reading after a successful `Write` gives the new bytes at that path and the old answer at every other. |
| `FileSystemLaws.MkdirMeaning` | src/vfs.cpp:649-658 | `Mkdir` succeeds exactly when the file system is open and no file is on the way; then exactly the path and its missing ancestors are new directories, each named after its last segment. No content and no byte count changes. |
| `FileSystemLaws.TouchMeaning` | src/vfs.cpp:660-682 | `Touch` succeeds exactly when the file system is open, the path is not the root and no file is above it; an existing entry stays as it is, otherwise the path becomes an empty file and exactly the missing ancestors become directories. |
| `FileSystemLaws.MoveMeaning` | src/vfs.cpp:429-454 | Exactly when `Move` succeeds; elsewhere the subtree arrives unchanged, nothing stays at the source and the rest only gains ancestors; below itself the whole subtree leaves the tree. |
| `FileSystemLaws.MoveConservesBytes` | src/vfs.cpp:451-452 | A successful `Move` keeps the byte count exactly when the destination is not below the source or the subtree has no bytes; below itself it loses exactly the bytes of the subtree. |
| `FileSystemLaws.RemoveSubtractsSubtree` | src/vfs.cpp:414-426 | Exactly when `Remove` succeeds; it then subtracts exactly the bytes of the subtree and drops exactly its files and directories. |
| `FileSystemLaws.CopyMeaning` | src/vfs.cpp:343-357 | Exactly when `Copy` succeeds; it then adds exactly the bytes of the source, leaves everything else but missing ancestors alone, and the copy is the source without node names. |
| `FileSystemLaws.CopyContents` | src/vfs.cpp:326-358 | After a successful `Copy`, for every relative path: a file stands below the destination exactly where one stands below the source, with the same content; the directories below it are those of the source once the missing ancestors of the destination are there; elsewhere the contents are the old ones. |
| `FileSystemLaws.ReadAfterCopy` | src/vfs.cpp:326-358 | Reading after a successful `Copy` gives, below the destination, what the source holds at that place, and the old answer everywhere else. |
| `Dump.ReadFileLine` | src/vfs_dump.cpp:46-58 | A file line, a length and the block behind it are read as one write of exactly that content, whatever the content looks like. |
| `Dump.LoadDirLine` | src/vfs_dump.cpp:43-45 | A directory line is read as one `Mkdir`. |
| `Dump.StoulDecimal` | src/vfs_dump.cpp:52-52 | `std::stoul` gives back every length that was printed. |
| `Dump.StoulText` | src/vfs_dump.cpp:52-52 | Behind white space and a sign the digits are read up to the first other character; a number of 2^64 or more throws, and a minus is taken modulo 2^64. |
| `Dump.LoadAnyFile` | src/vfs_dump.cpp:46-57 | A file line with any length: the block is what stands there, filled up with zeros when the text ends early; one newline behind it is skipped, and nothing else. |
| `Dump.LoadSkips` | src/vfs_dump.cpp:42-51 | Empty lines, comments, lines of neither kind and file lines without a space change nothing. |
| `Dump.ChildrenInOrder` | src/vfs_dump.cpp:15-17 | The children are printed one after the other, in the order of their keys. |
| `RoundTrip.LoadNode` | src/vfs_dump.cpp:10-22 | Loading what `write_node` printed for a subtree adds exactly that subtree and goes on behind it. |
| `RoundTrip.LoadChildren` | src/vfs_dump.cpp:15-17 | The same for the children that are still to be printed. |
| `RoundTrip.RoundTripExactly` | src/vfs_dump.cpp:24-61 | Saving a tree and loading the text restores tree, quota, seal and transaction if and only if every node is named after its key, no path has a newline, no file path a space, no file is longer than a string can be, the quota admits the tree, and the target is unsealed or the tree is empty. |
| `RoundTrip.LoadedIsSafe` | src/vfs_dump.cpp:36-61 | Whatever text is loaded, with or without an exception, the resulting tree is a tree, can be dumped faithfully and fits the quota, and nothing but the tree changed. |
| `RoundTrip.CopyBreaksRoundTrip` | src/vfs.cpp:326-335 | After a successful `Copy` the tree never survives its own dump, because clones have no names. |
| `RoundTrip.MoveKeepsDumpable` | src/vfs.cpp:451-451 | From a tree that can be dumped, a `Move` elsewhere gives one that can be dumped if and only if the last segment stays the same and the new paths still fit the text. |
| `Transactions.StepKeepsShape` | src/vfs.cpp:457-477 | Every public call, including a rollback that throws half-way, leaves a tree. |
| `Transactions.RunKeepsShape` | src/vfs.cpp:457-477 | So does every run of calls. |
| `Transactions.StepFrame` | src/vfs.cpp:457-477 | No call but commit and rollback touches an open snapshot, none but `SetQuota` the quota, none but `Seal` the seal. |
| `Transactions.SnapshotKept` | src/vfs.cpp:457-477 | The snapshot of an open transaction survives every run of other calls. |
| `Transactions.NestedBeginFails` | src/vfs.cpp:458-458 | No second transaction opens while one is active, after any run of calls. |
| `Transactions.RepliesOfTransactions` | src/vfs.cpp:457-477 | After any run without rollbacks: a begin succeeds exactly when no transaction is open, a commit exactly when one is, and a rollback is refused exactly when none is; the last begin or commit alone decides which it is. |
| `Transactions.RollbackRestoresExactly` | src/vfs.cpp:457-477 | After any run of calls inside a transaction, rollback restores the very tree of its beginning and closes the transaction if and only if that tree could be dumped faithfully, fits the quota at that time, and the file system is unsealed or the tree was empty. |
| `Transactions.CommitIsFinal` | src/vfs.cpp:465-470 | A commit keeps the tree as it is, and a rollback after it returns false and changes nothing. |
| `Transactions.QuotaStepExactly` | src/vfs.cpp:686-691 | From a tree within quota each call stays within it, except exactly a `Copy` that passes its checks with a source whose bytes do not fit, and a `SetQuota` below the bytes in use. |
| `Transactions.CopyOvershoots` | src/vfs.cpp:337-358 | For every content that fits the quota once and not twice: from a tree with one file of that content, within quota, a `Copy` next to it succeeds and ends over the quota. |
| `Transactions.QuotaRun` | src/vfs.cpp:686-691 | Every run without `Copy` and `SetQuota` that starts within quota stays within it. |
| `Transactions.BytesNeverGrow` | src/vfs.cpp:402-454 | `Mkdir`, `Touch`, `Remove` and `Move` never add bytes. |
| `Transactions.TameRun` | src/vfs.cpp:429-454 | Calls with one-word paths, no copy and no renaming move keep a tree dumpable over every run. |
| `Transactions.TameHistoriesRollBack` | src/vfs.cpp:457-477 | After any such history of a fresh file system every transaction rolls back to the very tree it began with, whatever runs inside it, if the rollback is unsealed and the tree fits. |
| `Transactions.CopyThenRollbackLosesTheTree` | src/vfs.cpp:326-358 | A transaction begun after a successful `Copy` never rolls back to the tree it began with. |
| `Throws.ThrowsByText` | src/vfs_dump.cpp:36-61 | Whether loading throws depends on the text alone, not on tree, quota or seal. |
| `Throws.RollbackByText` | src/vfs.cpp:471-477 | A rollback throws exactly when its snapshot text does, and then the transaction stays open; otherwise it reports success and closes it. |
| `Throws.DumpableNeverThrows` | src/vfs.cpp:471-477 | A rollback to a tree that can be dumped reports success and closes the transaction whatever the seal and the quota. |
| `Throws.FirstOddIs` | src/vfs_dump.cpp:36-61 | The first entry in dump order that is not read back as printed exists exactly when some entry is not read back: a newline in its printed path, or for a file a space there or a content longer than a string. |
| `Throws.DumpThrowsExactly` | src/vfs_dump.cpp:49-52 | If the first such entry, when there is one, is a file on one line on which no length can be read, loading what was printed throws if and only if there is such an entry. Nothing is asked of the entries behind it. |
| `Throws.RollbackThrowsExactly` | src/vfs.cpp:457-477 | Under the same condition on the tree at the beginning, after any run of calls inside the transaction the rollback throws and leaves it open if and only if that tree had such an entry; otherwise it is closed. |
| `Throws.SpacedRollbackThrows` | src/vfs.cpp:471-477 | For every single file whose name is two words, the second no number: the rollback throws, the transaction stays open and the tree is lost. |
| `Nodes.Hang` | src/vfs.cpp:451-451 | `children[k] = c` joins a whole tree of nodes at its place; when the parent no longer hangs below the root, nothing changes there. |
| `Nodes.Unhang` | src/vfs.cpp:425-425 | `children.erase(k)` takes the whole subtree out, leaves both parts intact and shares no node between them. |
| `Nodes.Clone` | src/vfs.cpp:326-335 | `clone_node` makes only new nodes, in the same shape with the same contents and without names, and leaves the original as it was. |
| `VirtualFileSystem.Vfs.constructor` | src/vfs.cpp:582-585 | A new file system is the empty tree without quota, seal or transaction. |
| `VirtualFileSystem.Vfs.Traverse` | src/vfs.cpp:587-611 | Re-parsing the text character by character reaches exactly the node at the denoted segment list, or null when there is none. |
| `VirtualFileSystem.Vfs.EnsureDir` | src/vfs.cpp:613-647 | Null exactly when a file is in the way, and then nothing changed; otherwise exactly the missing ancestors were created. |
| `VirtualFileSystem.Vfs.EndSegment` | src/vfs.cpp:620-635 | One more segment, or none when it is empty, against the tree the walk started from. |
| `VirtualFileSystem.Vfs.Exists` | src/vfs.cpp:736-740 | True exactly for the paths of the tree. |
| `VirtualFileSystem.Vfs.Read` | src/vfs.cpp:717-723 | The bytes of a file, nothing for a directory or a missing path. |
| `VirtualFileSystem.Vfs.Stat` | src/vfs.cpp:314-324 | Kind and size of an entry; directories report zero. |
| `VirtualFileSystem.Vfs.List` | src/vfs.cpp:725-734 | The names of a directory's children in key order. |
| `VirtualFileSystem.Vfs.Seal` | src/vfs.cpp:554-554 | Sets the seal and nothing else. |
| `VirtualFileSystem.Vfs.SetQuota` | src/vfs.cpp:539-539 | Sets the quota and nothing else. |
| `VirtualFileSystem.Vfs.Mkdir` | src/vfs.cpp:649-658 | On the nodes: the abstract `Mkdir`, result and tree. |
| `VirtualFileSystem.Vfs.Touch` | src/vfs.cpp:660-682 | On the nodes: the abstract `Touch`, result and tree. |
| `VirtualFileSystem.Vfs.CalcUsed` | src/vfs.cpp:542-548 | The recursion over the nodes sums exactly the bytes of the subtree. |
| `VirtualFileSystem.Vfs.UsedBytes` | src/vfs.cpp:549-551 | The bytes of the whole tree. |
| `VirtualFileSystem.Vfs.WouldOverflow` | src/vfs.cpp:686-691 | The quota test, with an unsigned difference that never wraps. |
| `VirtualFileSystem.Vfs.Write` | src/vfs.cpp:684-715 | On the nodes: the abstract `Write`, result and tree. |
| `VirtualFileSystem.Vfs.Lookup` | src/vfs.cpp:416-423 | Finds the parent of an existing path and its key; null exactly when the path does not exist. |
| `VirtualFileSystem.Vfs.Remove` | src/vfs.cpp:410-427 | On the nodes: the abstract `Remove`, result and tree. |
| `VirtualFileSystem.Vfs.Destination` | src/vfs.cpp:444-450 | The parent of a free destination with its missing ancestors; null, with nothing changed, exactly when a file or the destination itself is in the way. |
| `VirtualFileSystem.Vfs.Move` | src/vfs.cpp:429-454 | On the nodes: the abstract `Move`, also into the source's own subtree. |
| `VirtualFileSystem.Vfs.Rehang` | src/vfs.cpp:451-452 | Source taken out and hung at the destination, or lost when the destination is below it. |
| `VirtualFileSystem.Vfs.Copy` | src/vfs.cpp:337-358 | On the nodes: the abstract `Copy`, result and tree. |
| `VirtualFileSystem.Vfs.DumpNode` | src/vfs_dump.cpp:10-22 | Appends exactly the text of the subtree. |
| `VirtualFileSystem.Vfs.SaveDump` | src/vfs_dump.cpp:24-34 | Writes exactly the text of the tree. |
| `VirtualFileSystem.Vfs.LoadDump` | src/vfs_dump.cpp:36-61 | On the nodes: the abstract load; a malformed length throws and leaves what was loaded so far. |
| `VirtualFileSystem.Vfs.TakeLine` | src/vfs_dump.cpp:42-58 | One turn of the read loop. |
| `VirtualFileSystem.Vfs.Walk` | src/vfs.cpp:361-376 | With its explicit stack the walk terminates and reports every path of the tree exactly once, with its text, kind and size, in one order: a directory before its children, and these from the last key to the first. |
| `VirtualFileSystem.Vfs.FsckJson` | src/vfs.cpp:378-399 | The whole text, character for character: no issue for any tree, the number of its files, then of its directories, the bytes in use, quota and seal. |
| `VirtualFileSystem.Vfs.BeginTx` | src/vfs.cpp:457-464 | Snapshots the dump of the tree, unless a transaction is active. |
| `VirtualFileSystem.Vfs.CommitTx` | src/vfs.cpp:465-470 | Drops the snapshot, unless none is active. |
| `VirtualFileSystem.Vfs.RollbackTx` | src/vfs.cpp:471-477 | On the nodes: the abstract rollback, exceptions included. |
| `Walks.WalkStep` | src/vfs.cpp:365-375 | Popping, visiting and pushing keeps every entry either visited once or below exactly one path on the stack. |
| `Walks.ParentsFirst` | src/vfs.cpp:365-375 | In that order every directory comes before everything in it. |
| `Walks.CountsAreTallies` | src/vfs.cpp:379-382 | Counting visits one by one gives the numbers of files, directories and bytes of the tree visited. |
| `Walks.FindDoubled` | src/vfs.cpp:383-383 | Finds a double slash exactly when there is one. |
| `Walks.CountVisits` | src/vfs.cpp:378-385 | The counters after the last visit, the issues of every visited path in order, and whether all paths are clean. |
| `Walks.NoIssues` | src/vfs.cpp:383-384 | There is no issue exactly when every visited path is clean. |
| `Sessions.Call` | src/vfs.cpp:402-477 | Any public call on the node structure does to state and result exactly what the abstract step does. |
| `Sessions.Play` | src/vfs.cpp:402-477 | So does any run of calls, with all their replies. |
| `Sessions.ReplyAt` | src/vfs.cpp:402-477 | The reply at every place is the one the abstract step gives after the calls before it. |
| `Sessions.CopyPastTheQuota` | src/vfs.cpp:337-358 | On the nodes: a file system whose quota is the size of its one file ends a `Copy` with twice as many bytes in use. |
| `Sessions.PlayAndRollBack` | src/vfs.cpp:457-477 | A rolled-back transaction on the nodes: the tree of its beginning is back if and only if the conditions of the abstract theorem hold. |
| `ByteCache.Lru.constructor` | include/neon/vfs.hpp:130-130 | An empty cache, on, of one mebibyte. |
| `ByteCache.Lru.Clear` | src/vfs.cpp:16-18 | Empties list, table, size and counters, and keeps switch and capacity. |
| `ByteCache.Lru.Touch` | src/vfs.cpp:19-24 | Moves the key's own link to the front and renews its stored position; keys, values and bytes stay. |
| `ByteCache.Lru.Get` | src/vfs.cpp:25-31 | A hit returns the stored value and moves it to the front; misses and hits are counted only while on; the ledger holds. |
| `ByteCache.Lru.Put` | src/vfs.cpp:32-50 | The value goes to the front and items leave from the back until the rest fits; the byte count is exact and never underflows; the ledger holds. |
| `ByteCache.Lru.Evict` | src/vfs.cpp:45-49 | Leaves what dropping from the back leaves once the rest fits. |
| `ByteCache.Lru.Invalidate` | src/vfs.cpp:51-54 | Takes exactly that key out of list, table and byte count. |
| `ByteCache.Lru.SetOn` | src/vfs.cpp:58-58 | Switches without touching the contents. |
| `ByteCache.Lru.SetSize` | src/vfs.cpp:59-59 | Changes the capacity without evicting. |
| `ByteCache.Erased` | src/vfs.cpp:21-21 | Erasing a stored position takes exactly that key's link and item out. |
| `ByteCache.FitIsLongest` | src/vfs.cpp:45-49 | Dropping from the back leaves the longest front part that fits. |
| `ByteCache.PutEndsWithinCapacity` | src/vfs.cpp:45-49 | A put made while on ends within capacity, whatever was cached and however the capacity changed; what fits by itself is hit next. |
| `ByteCache.HitsAreCurrent` | src/vfs.cpp:25-54 | Over any run of calls, a hit returns the last value put while on and neither invalidated nor cleared since. |
| `ByteCache.NothingIsLost` | src/vfs.cpp:16-59 | The other half: over any run, as long as everything put has room, a read made while on hits for every key put while on and neither invalidated nor cleared since. |
| `ByteCache.InvalidateExactly` | src/vfs.cpp:51-54 | An invalidated key is gone; every other key answers as before. |
| `ByteCache.PutExactly` | src/vfs.cpp:32-50 | A put never changes what another key answers, and takes that answer away only for want of room. |
| `ByteCache.OrderIsLastUse` | src/vfs.cpp:19-50 | Over any run of calls the items are in the order of their last hit or put, newest first, so the least recently used leave first. |
| `ByteCache.CountersExact` | src/vfs.cpp:25-31 | Over any run without `Clear`, hits count the answered reads, and hits and misses together the reads made while on. |
| `ByteCache.StackProperty` | src/vfs.cpp:25-50 | Used read-through, the cache always holds exactly the longest front part of the last-access order that fits. |
| `ByteCache.LargerContainsSmaller` | src/vfs.cpp:25-50 | Over the same reads a larger cache holds everything a smaller one does, in the same order, and hits at least as often. |
| `ByteCache.RecencyIsLastRead` | src/vfs.cpp:19-24 | That order has exactly the keys read, each with its value, newest read first. |
| `ByteCache.Play` | src/vfs.cpp:16-59 | On the object: any run of calls gives the contents, counters and results of the abstract run. |
| `ByteCache.ReturnsAt` | src/vfs.cpp:25-31 | The result at every place is the one the abstract call gives after the calls before it. |
| `ByteCache.PlayNew` | src/vfs.cpp:25-54 | On a new object, over any run, every hit is the last value put while on and neither invalidated nor cleared since; as long as everything put has room, there is a hit for each of them. |
| `ByteCache.ReadThrough` | src/vfs.cpp:25-50 | On the object: reading through it, with a put for every miss, is the abstract read-through. |
| `ByteCache.ReadBoth` | src/vfs.cpp:25-50 | Two new objects over the same reads: each holds the longest front part of the last-access order that fits, the larger one holds all the smaller one does and hits at least as often. |
| `Glob.GlobMatch` | src/shell.cpp:162-172 | The two-index loop terminates; the answer is, for every text and pattern, exactly the relation in which a star that meets a star of the text stands for it. A true answer is always right, and without a star in the text (or in the pattern) the answer is exactly the wildcard relation. |
| `Glob.DecidesExactly` | src/shell.cpp:162-172 | For all texts and patterns the matcher accepts if and only if the pattern matches with every star that meets a star of the text read as that character. |
| `Glob.AlwaysSound` | src/shell.cpp:162-172 | What the matcher accepts matches, for all texts and patterns. |
| `Glob.Complete` | src/shell.cpp:167-167 | Going back to the last star only loses nothing when text or pattern has no star. |
| `Glob.StarTextFails` | src/shell.cpp:165-166 | For every text that contains a star there is a matching pattern that is rejected. |
| `Glob.ExactTexts` | src/shell.cpp:162-172 | The matcher is right about a text for every pattern if and only if the text contains no star. |
| `Glob.StarPatternFails` | src/shell.cpp:165-166 | For every pattern that contains a star there is a matching text that is rejected: the pattern, and then once more what stands after its last star. |
| `Glob.ExactPatterns` | src/shell.cpp:162-172 | The matcher is right about a pattern for every text if and only if the pattern contains no star. |
| `EditDistance.Levenshtein` | src/shell.cpp:54-68 | The one-row table computes the recursive distance. |
| `EditDistance.DistanceIsLeast` | src/shell.cpp:54-68 | Some script of that many single-character inserts, deletes and replacements turns one text into the other, and no shorter one does. |
| `EditDistance.NoShorterScript` | src/shell.cpp:54-68 | Every script that turns one text into the other is at least that long. |
| `EditDistance.ShortestScript` | src/shell.cpp:54-68 | Builds a script of exactly that length. |
| `EditDistance.Symmetric` | src/shell.cpp:54-68 | The distance is symmetric. |
| `EditDistance.Triangle` | src/shell.cpp:54-68 | The distance satisfies the triangle inequality. |
| `EditDistance.Bounds` | src/shell.cpp:54-68 | It lies between the difference of the lengths and the longer length. |
| `EditDistance.ZeroMeansEqual` | src/shell.cpp:54-68 | It is zero exactly for equal texts. |
| `WordIndex.ShellIndex.RemovePath` | src/shell.cpp:100-104 | The path leaves every posting set; the words stay. |
| `WordIndex.ShellIndex.AddPath` | src/shell.cpp:105-115 | The path is added under exactly the words of the content: its maximal runs of letters and digits, in lower case. |
| `WordIndex.ShellIndex.Apply` | src/shell.cpp:100-115 | Remove and then add keeps the index in agreement with the documents. |
| `WordIndex.ShellIndex.Replay` | src/shell.cpp:100-115 | After any run of document changes a path is posted under a word exactly when the word occurs in its current content. |
| `WordIndex.ShellIndex.Rebuild` | src/shell.cpp:105-115 | Posting every document once gives the same agreement. |
| `WordIndex.RunEndsHere` | src/shell.cpp:109-112 | Where no letter or digit follows, the buffer holds exactly the run that ends there. |
| `WordIndex.LowerIs` | src/shell.cpp:109-112 | The characters of words: the capitals become the small letters at their places in the alphabet, all other characters stay, and exactly letters and figures make up words. |
| `WordIndex.AgreementDecides` | src/shell.cpp:100-115 | Two indices that agree with the same documents differ at most in empty posting sets. |
| `WordIndex.ReplayMatchesRebuild` | src/shell.cpp:100-115 | Incremental upkeep and a rebuild end in the same index up to empty posting sets. |
| `TokenBucket.Limiter.Admit` | src/shell.cpp:573-579 | One command: refill up to capacity, refuse below one token, else take one. |
| `TokenBucket.StepBoundedExactly` | src/shell.cpp:575-579 | From tokens between zero and the capacity, one command keeps them there if and only if tokens plus refill, negative for a clock set back, are not negative. |
| `TokenBucket.BoundedExactly` | src/shell.cpp:575-579 | Over any run, with any clock, the tokens stay in these bounds if and only if that holds at every command. |
| `TokenBucket.ClockSetBack` | src/shell.cpp:575-577 | A clock set back from 100 to 50 seconds breaks that condition for an emptied bucket, and the bounds with it. |
| `TokenBucket.TokensStayBounded` | src/shell.cpp:575-579 | With time moving forward the tokens stay between zero and the capacity over every run. |
| `TokenBucket.RunPays` | src/shell.cpp:575-579 | Admissions and what is left are paid for by the tokens at the start and the seconds since, times the refill. |
| `TokenBucket.Conserved` | src/shell.cpp:575-579 | Over any run, with any clock that never reads zero: tokens left, commands admitted and what was spilled at the brim are together the tokens at the start and the refill. |
| `TokenBucket.NothingSpilled` | src/shell.cpp:576-577 | Nothing is spilled if and only if no command finds more than the capacity. |
| `TokenBucket.AdmittedExactly` | src/shell.cpp:575-579 | With time moving forward, whatever is refused on the way: a run admits at least what came in beyond one full bucket, and up to a refused command exactly the whole number of tokens that were there or came in and were not spilled. |
| `TokenBucket.WindowBound` | src/shell.cpp:575-579 | Any window of any run admits at most the capacity and its length in seconds times the refill. |
| `TokenBucket.SpacedNeverRefused` | src/shell.cpp:575-579 | A caller that keeps one token's worth of time between commands is never refused, once the first is admitted and there is room for a token. |
| `TokenBucket.FullStart` | src/shell.cpp:575-579 | From a full bucket such a caller is served in full if and only if the capacity is at least one. |
| `TokenBucket.SteadyExactly` | src/shell.cpp:575-579 | From any bucket, a caller with equal gaps is served in full if and only if its first command finds a token and what it leaves, with the refill of the gaps, pays for all the others. |
| `Base64.Encode` | include/neon/base64.hpp:7-25 | The loop and its repair of the last group give the zero-filled, padded groups of section 4 of RFC 4648. |
| `Base64.Decode` | include/neon/base64.hpp:26-42 | The loop reads the letters before the first padding character through a 32-bit accumulator. |
| `Base64.RoundTrip` | include/neon/base64.hpp:7-42 | Decoding the encoding gives back every byte string. |
| `Base64.EncodingInjective` | include/neon/base64.hpp:7-25 | No two byte strings have the same encoding. |
| `Base64.EncodedLength` | include/neon/base64.hpp:9-24 | Four characters for every three bytes, rounded up. |
| `Base64.EncodedShape` | include/neon/base64.hpp:21-23 | As many padding characters at the end as bytes are missing from the last group, and letters of the alphabet before. |
| `Base64.EncodedTail` | include/neon/base64.hpp:21-23 | A last group of one or two bytes keeps two or three letters. |
| `Base64.EncodedLetters` | include/neon/base64.hpp:10-20 | Each character before the padding is the letter of the next six bits of the input, with zeros behind its end. |
| `Base64.LetterIs` | include/neon/base64.hpp:8-8 | The letters are those of table 1 of RFC 4648, in that order. |
| `Base64.OverflowNeverShows` | include/neon/base64.hpp:34-39 | An accumulator that never overflows writes the same bytes. |
| `Base64.Ignored` | include/neon/base64.hpp:36-37 | Characters outside the alphabet do not matter, nor does anything from the first padding character on. |
| `Base64.ValOfLetter` | include/neon/base64.hpp:27-32 | The table and the value function are inverse to each other. |
| `Sha256.Hasher.constructor` | include/neon/crypto.hpp:12-16 | Initial state, empty buffer, no bits. |
| `Sha256.Hasher.Update` | include/neon/crypto.hpp:40-49 | State, buffer and bit count are those of everything fed so far, as one message: the block function folded over the full blocks, the rest pending, the bits modulo 2^64. |
| `Sha256.CutAnywhere` | include/neon/crypto.hpp:40-49 | However a message is cut in two, what is pending after the first part is all the second part needs. |
| `Sha256.Hasher.Digest` | include/neon/crypto.hpp:50-62 | Hashes exactly the padded message, ends on a block boundary with an empty buffer and gives the state's words as bytes. |
| `Sha256.HashChunks` | include/neon/crypto.hpp:40-62 | The digest is the same for every way of cutting a message into updates. |
| `Sha256.LengthBytes` | include/neon/crypto.hpp:54-54 | The loop over shifts writes the count in big-endian order. |
| `Sha256.BigEndianInjective` | include/neon/crypto.hpp:54-54 | Counts that fit are told apart by their bytes. |
| `Sha256.BytesInjective` | include/neon/crypto.hpp:56-60 | The state can be read back from the digest. |
| `Sha256.BytesAt` | include/neon/crypto.hpp:56-60 | The bytes of the digest: word by word, each with its most significant byte first. |
| `Sha256.PaddedShape` | include/neon/crypto.hpp:50-55 | Message, 0x80, zeros up to offset 56 of a block, eight bytes of trailer; at most 64 bytes of padding; a whole number of blocks. |
| `Sha256.PaddedInjective` | include/neon/crypto.hpp:50-55 | Two messages have the same blocks exactly when they are equal. |
| `Sha256.PaddedSuffixFree` | include/neon/crypto.hpp:50-55 | As long as the count does not wrap, the blocks of a message never end in all the blocks of a shorter one. |
| `Sha256.DigestsPart` | include/neon/crypto.hpp:40-62 | Two different messages with the same digest, with as many blocks or both below the wrap of the bit count: the lemma returns a block position in each at which state and block differ and the block function returns the same state. |
| `Sha256.NeverStandard` | include/neon/crypto.hpp:53-54 | The blocks agree with section 5.1.1 of FIPS 180-4 in all but the trailer, and differ there for every message, because the count is read after the padding was counted. |
| `MerkleHash.HashTwo` | include/neon/merkle.hpp:13-18 | Fed to the streaming hasher in two updates, two texts give the digest of their concatenation. |
| `MerkleHash.BlobHash` | include/neon/merkle.hpp:13-18 | With the hasher of `crypto.hpp`: the digest of the prefixed content, in hexadecimal. |
| `MerkleHash.IsDir` | include/neon/merkle.hpp:20-23 | True exactly for directories. |
| `MerkleHash.ChildLines` | include/neon/merkle.hpp:34-40 | One line per child, in the order of the listing. |
| `MerkleHash.MerklePath` | include/neon/merkle.hpp:25-46 | The recursion through path texts gives the hash of the entry at that path, and nothing for a missing one. |
| `MerkleHash.MerkleRoot` | include/neon/merkle.hpp:48-48 | The hash of the whole tree. |
| `Merkle.Binding` | include/neon/merkle.hpp:13-46 | For any hash function and a tree in which no directory of two or more entries has a name that starts like a line: any other tree with the same hash is the same tree, or the lemma returns a relative path at which both trees have an entry and the two strings hashed there are different and have the same digest. Nothing is asked of the names of the other tree. |
| `Merkle.HashedText` | include/neon/merkle.hpp:13-46 | What is hashed, byte for byte: a file behind its length; a directory behind the number of its lines, one for each child, in ascending order. |
| `Merkle.BindingExactly` | include/neon/merkle.hpp:13-46 | Of such trees with equal hashes: they are the same if and only if at no common path two different hashed strings have the same digest. |
| `MerkleHash.EqualRoots` | include/neon/merkle.hpp:48-48 | With the hasher of `crypto.hpp`: two file systems with equal roots hold the same tree, or two different strings hashed at a common path have the same digest; then, for names and contents of bytes and below the wrap of the bit count, the block function itself collides at some position of their blocks. |
| `Merkle.PlainNamesReadOnce` | include/neon/merkle.hpp:39-43 | Names without newlines do not start like a line, and neither do names without tabs. |
| `Merkle.SameTreeSameHash` | include/neon/merkle.hpp:13-46 | The same tree has the same hash, whatever its nodes' names and wherever it stands. |
| `Merkle.NewlineNamesConfuse` | include/neon/merkle.hpp:39-43 | For any three names in order: two trees that differ are hashed as the same string, whatever the hash, once lines are spliced into names. |
| `MerkleLines.FlatInjective` | include/neon/merkle.hpp:43-43 | Lines with no line in front inside them cannot be read, in their concatenation, as more lines, and as equally many in one way only. |
| `MerkleLines.OnlyReadingExactly` | include/neon/merkle.hpp:43-43 | A list of lines is the only one of its length with its concatenation if and only if it has fewer than two lines or none of them has another line in front inside it. |
| `MerkleLines.WholeExactly` | include/neon/merkle.hpp:39-39 | A line has another line in front inside it if and only if its name has. |
| `MerkleLines.LineInjective` | include/neon/merkle.hpp:39-39 | A line determines name, type and hash, read from its end. |
| `MerkleLines.HexInjective` | include/neon/crypto.hpp:63-67 | Digests can be read back from their hexadecimal text. |
| `MerkleLines.HexAt` | include/neon/crypto.hpp:63-67 | Two figures for each byte, the upper half first, in lower case. |
| `Scheduler.TaskQueue.Submit` | src/scheduler.cpp:9-14 | Returns the next number and queues the task last. |
| `Scheduler.TaskQueue.Take` | src/scheduler.cpp:20-24 | Takes the first task, unless stopping or empty. |
| `Scheduler.TaskQueue.RunOnce` | src/scheduler.cpp:16-27 | With no other thread: the first tasks, in order, as many as the budget allows, and none when stopping. |
| `Scheduler.TaskQueue.Stop` | src/scheduler.cpp:29-33 | Empties the queue and stops. |
| `Scheduler.TaskQueue.Snapshot` | src/scheduler.cpp:35-41 | The queued tasks in order, with the queue untouched. |
| `Scheduler.ExactlyOneFate` | src/scheduler.cpp:9-33 | Under every interleaving each submitted id is exactly one of waiting, running, done or dropped, and no other id is any of them. |
| `Scheduler.SubmitWaits` | src/scheduler.cpp:9-14 | Under every interleaving a submitted task waits, also after a stop, and no other task changes its fate. |
| `Scheduler.BeginRuns` | src/scheduler.cpp:20-25 | An idle thread takes exactly the first waiting task, unless the queue is stopping or empty; every other task keeps its fate. |
| `Scheduler.FinishDone` | src/scheduler.cpp:25-26 | A thread that finishes has done exactly its own task. |
| `Scheduler.StopDrops` | src/scheduler.cpp:29-33 | A stop drops exactly what waits; what runs or is done stays. |
| `Scheduler.DequeuedInOrder` | src/scheduler.cpp:20-24 | Under every interleaving the tasks leave the queue in the order of their numbers, and each finishes at most once. |
| `Scheduler.NothingAfterStop` | src/scheduler.cpp:22-33 | After a stop nothing leaves the queue to run, whatever is submitted later. |

## Left out

- Merkle.Binding: that trees outside its condition are always confused with another tree stays open, because the other reading of the lines must again be sorted and carry digests of real subtrees; for the lines alone `OnlyReadingExactly` has both directions.
- Throws.RollbackThrowsExactly: stays open where the first entry that is not read back is a directory or has a newline in its printed path, or where a number follows the first space of its path; the loader then goes on at another place. `RollbackByText` covers these, in terms of the snapshot text.
- VirtualFileSystem.Vfs.Move: takes the child out before it is hung at the destination, while the source assigns first and then erases; no call between the two can observe the difference.
- VirtualFileSystem.Vfs.List: fills its result in key order, although the source returns first; the trailing slash that the unreachable line would append to directories is not modelled.
- Scheduler.TaskQueue.RunOnce: the time budget is a number of turns, and tasks leave the queue alone; what other threads and tasks do in between is covered by the interleaving model instead.
- TokenBucket.Limiter.Admit: computes with reals, so rounding of doubles is not modelled; the clock is a parameter.
- Dump file handling: the file is its byte string, so opening, short writes and temporary files are not modelled; neither is the exhaustion of memory by a dump line that announces a huge block.
- Integer widths: sizes, counters, list positions and task numbers are unbounded, except the bit count of SHA-256, the accumulator of Base64, and the lengths that `std::stoul` reads, which have the widths of the source.
- The duplicated opening lines of `Remove` (src/vfs.cpp:403-409) with their locks and immutability checks: later residue over the intact body.
- Prefix quotas, `SetImmutable`, `Append` and `Truncate` (src/vfs.cpp:63-104, 174-178, 274-304): pasted fragments leave their meaning undecided.
- Metadata times, modes, extended attributes, time-to-live locks and orphan pruning: they do not touch the tree.
- The mutex inside `Vfs`: calls are modelled one at a time.
- Where the cache is consulted: the bodies of `Read` and `Write` do not call it, so it is modelled on its own.
- The SHA-256 round function, its constants and HMAC: the block function is arbitrary, and nothing here bears on collision resistance.
- `MerklePathMeta` and `MerklePathMetaX` (include/neon/merkle.hpp:53-113): the same recursion over more fields.
- The rest of the shell: command dispatch, policies, journal, audit output and the corrupted JSON helpers (src/shell.cpp:195-234).
- Character classes beyond ASCII in the index: `std::isalnum` and `std::tolower` are those of the C locale.
