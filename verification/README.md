# Verified model of TyrantFS and its libfuse

TyrantFS is a small file system on a block device (`disk.c`, `tyrant_help.c`,
`tyrant.c`), served through a vendored libfuse (`lib/`). This project models
the parts of both whose correctness rests on invariants over many calls, and
proves those invariants. `dafny verify dfyconfig.toml` checks all of it.

**Path locks** (`PathTree`, `PathLocks`, `PathRequests`, `PathQueue`,
`PathRuns`, `PathWriters`, `PathMachine`, `PathNames`, `Paths`). libfuse read-locks
every ancestor of the node an operation works on and may write-lock one child,
with a single integer per node: n readers, -1 for a writer, INT_MIN + n for n
readers and a writer waiting. The state is the tree of names, the integers,
the granted holds and the queue; a step is a critical section under `f->lock`.
The tree keeps, for each live node, the walk along its parent pointers.
`PathMachine` is the code itself, as a class whose methods are proved to take
exactly the steps that the run theorems are about.

**Node index** (`NodeTable`, `NodeRefs`, `NodeMoves`, `NodeIndex`,
`NodeRuns`). Two linear-hashing tables, generic in the key, are proved against
plain maps while buckets split and merge under them. On top of them sits the
reference-counted tree with its deletions that run up the parent chain.
`NodeRefs` and `NodeMoves` say what each operation amounts to, as a function of
the state; the methods of `NodeIndex` do it in place; `NodeRuns` is about runs
of such operations.

**Both together** (`FuseRuns`). Locks and counts live on one tree. A state is a
state of the lock protocol and a state of the index with the same tree, and an
act is a step of one or of both. What rename and unlink take for granted of the
counted nodes follows here from the paths they hold, and no node is deleted
that is locked, or that somebody waits for.

**Byte-range locks** (`ByteRangeLocks`): the lock list against a function from
owner and byte to lock type, as in POSIX record locking (IEEE Std 1003.1-2017,
System Interfaces, section 3, `fcntl()`).

**Options** (`Options`, `CStrings`), **relative symlinks** (`Symlink`, `SymlinkScope`,
`Paths`) and **buffer copies** (`BufCopy`): in-place text and buffer code
against what it means.

**Disk** (`Device`, `FreeList`, `Format`, `Disk`, `BlockMap`, `BlockGrowth`,
`BlockAppend`, `FileBytes`, `FileSystem`, `FileHistory`). The device is an array of bytes. On it are the
free list that mkfs lays out, the map from files to blocks through three
levels of pointers, and the bytes of the files as flat sequences. Ghost maps
say which block is what; `FreeList.PlacesAreFreeSet` and
`FreeList.ChainsAgree` show that the device alone determines the free blocks.
The theorems about runs are about images of the device: what `allocate_block`,
`free_block` and client writes make of it (`FreeList`), and where the pointers
of a file lead after any sequence of operations (`FileHistory`).

Here and there a clause says `P(x) == true` for `P(x)`: it makes the verifier
pass the predicate on without taking it apart.

## What is assumed

- The kernel looks at the nodes it asks about, and at those whose names it asks
  to have changed, for as long as it waits for the answer; it does not exchange
  a name with itself, or rename it to itself; and it gives back no more lookups than it was given. In a
  cache that remembers nodes, whatever is unlinked has been looked up by the
  kernel as well (the code asserts this). That it does not rename a directory
  into itself is not assumed: it could not get both paths.
- The node that an unlink, a rename or an exchange finds is the one its
  operation write-locked: nobody else gives the name to a new node meanwhile.
  Fewer than INT_MAX paths are outstanding.
- A node that `fuse_clean_cache` deletes is unlocked. `forget_node` waits for
  that, the cleaning does not; `NodeMoves.ForgetUnlocked` says that it is
  exactly what the assert of `delete_node` needs.
- Some 32-bit id is free when a node is made.
- Reads and writes of the device succeed and are complete; the device has
  fewer than 2^64 bytes, and for mkfs at least 65 blocks; clients free only
  blocks they hold, and write only blocks they hold.
- A file does not outgrow the 12 + 512 + 512^2 + 512^3 blocks its inode can
  reach. When a new block of pointers to pointers is made for it, free blocks
  read as zeros: nothing in the code clears them. `BlankOrBroken` shows that
  this is exactly what the map needs, `MakeFreeList` that a blank device has it
  after mkfs, and `AllocateBlock`, `AddBlock` and `WriteFile` keep it. No other
  append needs it, none below block 524 in particular
  (`FileHistory.SmallAppends`).
- Memory for tables, names, paths and queue elements may run out anywhere; it
  is a parameter of the operation. Where an index is called ample, growing a
  table never fails, and only then the load bound is claimed.

## Where the code and what is said about it differ

- `test_block.c` expects that a block just allocated and freed is the next one
  allocated. `FreeList.AllocateFreeAllocate` gives the exact condition. It fails
  where the first allocation pops a chain block that only leads on to the next
  one, and that one has its first word in use and another one free;
  `FreeList.FreedIsNotNext` is such a device. For a block that was not just
  allocated, `FreeList.FreeThenAllocate` gives the condition.
- The free list that mkfs lays out ends one block too late if the number of
  blocks is a multiple of 65 (`Disk.MakeFreeList`).
- Printing options and splitting them again loses empty options before the
  first non-empty one, as no comma is put behind an empty string
  (`Options.SplitOfPrint`, `Options.EmptyOptionLost`).
- A relative link need not lead where the original did
  (`Symlink.RewriteKeepsTarget`). It does for every path without "." and "..".
  libfuse builds the path below the base directory from node names, and a
  lookup of "." or ".." has no name, so dots can come only from the base
  directory itself, as the user gave it; `Symlink.DottedBaseMissesTarget` has
  one.
- The subdir module means to rewrite absolute links below its base directory
  only, but compares lengths of texts: with enough repeated slashes a link that
  leads elsewhere is rewritten as well, and goes up beyond the mounted directory
  (`SymlinkScope.RewrittenOutside`, `SymlinkScope.LeadsOut`).
- The cleaning of the cache takes the last lookup of a node for the cache's
  own. That was given back if the node has been unlinked, and then the node goes
  while the kernel still looks at it (`NodeRuns.GoesWhenReturned`,
  `NodeRuns.CleanedWhileHeld`).
- A buffer of unknown size does not make the total of `fuse_buf_size` unknown
  if another one follows (`BufCopy.SizeOfUnknown`, `BufCopy.UnknownIsLost`).
- A write past the end of a file on a full device sets a size for which the
  file has no blocks: exactly if there were fewer free blocks than the file
  lacked up to where the write starts (`FileSystem.WriteFile`,
  `FileSystem.WriteLeavesNoBlock`).

## Model

| member | source | states |
|---|---|---|
| PathLocks.GrantKeepsOk | lib/fuse.c:1021-1054 | granting a free hold keeps every lock word exact and every granted walk intact |
| PathLocks.ReleaseFindsItsMarks | lib/fuse.c:973-992 | a granted hold always finds its own marks when it is released: the write mark on its target, and on every node of its walk a word that counts a reader; the asserts of unlock_path cannot fire |
| PathLocks.ReleaseKeepsOk | lib/fuse.c:973-992 | taking one hold back keeps every lock word exact for the holds that remain |
| PathLocks.MoveKeepsOk | lib/fuse.c:734-760 | changing the tree without changing any granted walk keeps the lock words exact |
| PathLocks.WrittenIsUnread | lib/fuse.c:1036-1051 | nobody reads through a node that a granted request writes |
| PathRequests.LegAllOrNothing | lib/fuse.c:994-1074 | one attempt either locks its whole walk and its target, from a state in which they were free, or leaves every reader count and every writer as they were, with at most a waiting mark added and none cleared |
| PathRequests.RequestAllOrNothing | lib/fuse.c:1076-1095 | the same for two paths: if the second cannot be had, the first is rolled back exactly |
| PathRequests.RefusedExactly | lib/fuse.c:994-1095 | an attempt is refused (EAGAIN) only if the lock words stand in its way, and if they do it is refused, unless memory runs out first |
| PathRequests.RefusedMonotone | lib/fuse.c:994-1095 | locking more never makes a refused request grantable |
| PathRequests.LegOutcome | lib/fuse.c:994-1074 | with memory for every name an attempt never answers ENOMEM; it answers EAGAIN exactly if the node to be written is not free or a node on the way is written or marked, and else locks exactly if the walk ends at the root |
| PathRequests.LegDoes | lib/fuse.c:994-1074 | node by node: success sets the word of the named child, which was 0, to -1 and adds a reader to each node on the way, and to nothing else, and the hold says so; EAGAIN marks the named child if it has readers, and changes nothing else; other errors change nothing |
| PathRequests.RequestDoes | lib/fuse.c:1076-1095 | the same for two paths at once: both named children are locked, each node has as many readers more as there are paths through it, or no path is locked |
| PathRequests.RequestOutcome | lib/fuse.c:994-1095 | success means that no path was cut off, ESTALE that one was, and ENOMEM that memory ran out |
| PathQueue.AcquireKeepsInv | lib/fuse.c:1189-1210 | asking for a path, whatever comes of it, keeps the invariant, including that no waiting request could be granted |
| PathQueue.WakeOneKeepsOk | lib/fuse.c:1097-1127 | retrying one queue element settles it: afterwards it is done, or it could not be granted; the other elements stay as they are |
| PathQueue.WakeSettles | lib/fuse.c:1129-1135 | after the queue has been retried in order, no waiting request could be granted |
| PathQueue.WakeAnswers | lib/fuse.c:1097-1135 | a request that the retry of the queue takes off hold is told the truth: success and all its paths, which are granted from then on, or an error and none; which of them is decided by the tree and the memory |
| PathQueue.WakeInOrder | lib/fuse.c:1129-1135 | a request that still waits after the retry was refused in its turn, by what was locked before or went to requests ahead of it |
| PathRuns.RenameSame | lib/fuse.c:1423-1457 | a rename of the node its operation write-locked changes no walk that another request holds |
| PathRuns.ExchangeSame | lib/fuse.c:1459-1488 | an exchange of two write-locked nodes changes no walk that another request holds |
| PathRuns.RemoveSame | lib/fuse.c:1412-1421 | neither does an unlink |
| PathRuns.CreateKeepsRefused | lib/fuse.c:871-908 | a node that appears makes no refused request grantable |
| PathRuns.DeleteKeepsRefused | lib/fuse.c:817-829 | nor do nodes that go, as long as the request names none of them |
| PathRuns.DeleteKeepsInv | lib/fuse.c:817-829 | deleting unlocked nodes that nobody waits for keeps the whole invariant |
| PathRuns.ReleaseSettles | lib/fuse.c:1335-1363 | a release retries the queue: right after it no waiting request could be granted |
| PathRuns.NextKeepsInv | lib/fuse.c:817-1488 | every step (grant, failed attempt, release of one or two paths, leaving the queue, waiting in forget_node, new node, deleted nodes, unlink, rename, exchange) keeps the whole invariant |
| PathRuns.RunKeepsInv | lib/fuse.c:817-1488 | so every state that any interleaving of steps can reach satisfies it |
| PathRuns.WordsAreExact | lib/fuse.c:973-1095 | in every reachable state treelock is -1 exactly if one granted request writes the node, n or INT_MIN+n with n at least 1 exactly if n granted requests read through it, 0 exactly if nobody has it, and never both |
| PathRuns.ReleaseVisitsTheSame | lib/fuse.c:973-992 | whenever in a run a path is given back, the release walk meets exactly the nodes the acquiring walk locked, whatever was renamed, exchanged, unlinked, made or deleted meanwhile, and finds this reader on each |
| PathRuns.NoLostWakeup | lib/fuse.c:1076-1135 | in every reachable state a waiting request cannot be granted, unless a hold that has changed names is still to be released, and that release retries the queue; and whoever waits in forget_node for a node that is unlocked has been signalled |
| PathRuns.GrantedAtOnce | lib/fuse.c:1189-1210 | a request that need not wait has every path it asked for, locked node by node as asked |
| PathRuns.QueueKeepsOrder | lib/fuse.c:1148-1174 | every step keeps the order of the queue: a new element is last, and the others keep their places and their requests |
| PathRuns.WokenIsTold | lib/fuse.c:1097-1127 | only a release ends the wait of a request, and then the outcome it is told is the true one |
| PathRuns.NobodyPassedOver | lib/fuse.c:1129-1135 | a release passes no waiting request over in favour of a later one |
| PathRuns.OutcomesAreTrue | lib/fuse.c:1097-1187 | in every reachable state the error of a finished queue element is 0 exactly if it holds one path for each path it asked for, and it holds none otherwise |
| PathRuns.HeldUntilReleased | lib/fuse.c:973-1127 | in every run a path that is granted, at once or by a wakeup, stays locked until it is given back |
| PathRuns.WrittenAlone | lib/fuse.c:1021-1054 | in every reachable state no two granted paths write the same node, and none leads through a node that another one writes |
| PathWriters.AttemptSkipsMarked | lib/fuse.c:1021-1053 | no attempt gets a reader through a node that carries the waiting mark |
| PathWriters.ReleaseDrains | lib/fuse.c:983-991 | a release takes its reader off a marked node, keeps the mark while a reader is left, and the last one puts the word to 0 |
| PathWriters.MarkedOnlyDrains | lib/fuse.c:983-1053 | a waiting writer is not starved: over every step the readers of a marked node only go away, the mark stays while one is left, and the release of the last one clears it |
| PathMachine.PathMachine.UnlockPath | lib/fuse.c:973-992 | the release walk, up to a given end or the root, with its asserts proved: it undoes exactly the marks it is meant to undo |
| PathMachine.PathTextIs | lib/fuse.c:940-971 | the path text is every name from the root down, each behind one slash, and a single slash for the root |
| PathMachine.PathMachine.TryGetPath | lib/fuse.c:994-1074 | the climb along the parent pointers, with its gotos and its roll-back, computes exactly the attempt that the protocol lemmas are about, and the path text; on success the named child that was to be written was free and is locked |
| PathMachine.PathMachine.TryGetPath2 | lib/fuse.c:1076-1095 | likewise for two paths |
| PathMachine.PathMachine.GetPath | lib/fuse.c:1189-1210 | get_path_common and get_path2 up to the wait: an attempt, and a queue element if it was refused; keeps the invariant |
| PathMachine.PathMachine.WakeElement | lib/fuse.c:1097-1127 | retries one queue element in place |
| PathMachine.PathMachine.WakeUpQueued | lib/fuse.c:1129-1135 | the loop over the queue: afterwards no waiting request could be granted |
| PathMachine.PathMachine.FreePathWrlock | lib/fuse.c:1335-1344 | release and retry in one critical section: the step of the transition system |
| PathMachine.PathMachine.FreeBothPaths | lib/fuse.c:1352-1363 | free_path2: both releases, then the retry |
| PathMachine.PathMachine.RemoveNode | lib/fuse.c:1412-1421 | unlink on the tree of the lock protocol: the step of the transition system |
| PathMachine.PathMachine.RenameNode | lib/fuse.c:1423-1457 | rename likewise, with its early exits and the failing allocation of the new name |
| PathMachine.PathMachine.ExchangeNode | lib/fuse.c:1459-1488 | exchange likewise |
| PathMachine.PathMachine.FindNode | lib/fuse.c:871-908 | a new node on the tree of the lock protocol: the step of the transition system |
| PathMachine.PathMachine.DeleteNodes | lib/fuse.c:817-829 | what one cascade deletes, with the assert that none of it is locked: the step of the transition system |
| PathMachine.PathMachine.Leave | lib/fuse.c:1167-1174 | dequeue_path: the step of the transition system |
| PathMachine.PathMachine.AwaitForget | lib/fuse.c:1377-1383 | forget_node queues up exactly if its node is locked |
| PathMachine.PathMachine.SleepAgain | lib/fuse.c:1385-1387 | and sleeps on after a wakeup exactly if it still is |
| PathNames.LookupPathInCache | lib/fuse.c:910-938 | answers the node that the components of the path lead to from the root, or nothing |
| PathNames.PathLeadsBack | lib/fuse.c:994-1074 | the path text that try_get_path builds for a node leads lookup_path_in_cache back to that node, or to the named child of it |
| PathTree.WalkDistinct | lib/fuse.c:1036-1037 | a walk along the parent pointers meets no node twice, so the loops over it end |
| PathTree.DetachWellFormed | lib/fuse.c:734-760 | losing a name keeps the tree and its name index one to one |
| PathTree.AttachWellFormed | lib/fuse.c:791-815 | so does getting one, for a node that is not above its new parent |
| NodeTable.IndexAfterSplit | lib/fuse.c:514-523 | when one more bucket is split, exactly the entries of that bucket may move, and only to its upper partner |
| NodeTable.IndexAfterResize | lib/fuse.c:632-647 | doubling or halving the size at the turning point moves no entry |
| NodeTable.UpperBucketsEmpty | lib/fuse.c:649-676 | all buckets from size/2 + split up are empty |
| NodeTable.SplitKeeps | lib/fuse.c:649-676 | after a bucket is split the table holds the same map, each entry in exactly the bucket its hash gives |
| NodeTable.MergeKeeps | lib/fuse.c:591-615 | after two buckets are merged likewise |
| NodeTable.ResizeKeeps | lib/fuse.c:632-647 | after growing likewise |
| NodeTable.ReduceKeeps | lib/fuse.c:575-589 | after shrinking likewise |
| NodeTable.NodeTable.constructor | lib/fuse.c:4819-4836 | an empty table of the least size |
| NodeTable.NodeTable.Lookup | lib/fuse.c:525-535 | the walk over one chain answers what the plain map says |
| NodeTable.NodeTable.Insert | lib/fuse.c:678-687 | the table now stands for the map with the new entry; if arrays can grow, use < size/2 + split < size is kept |
| NodeTable.NodeTable.SplitBucket | lib/fuse.c:649-676 | the in-place walk that spreads one chain over two buckets loses and moves nothing else |
| NodeTable.NodeTable.Rehash | lib/fuse.c:649-676 | at most one bucket is split, and the table doubles when that was the last |
| NodeTable.NodeTable.Resize | lib/fuse.c:632-647 | doubles the table, or leaves it as it is where memory fails |
| NodeTable.NodeTable.Unlink | lib/fuse.c:617-630 | takes exactly the one entry out of its chain; it still counts in use |
| NodeTable.NodeTable.MergeOne | lib/fuse.c:602-613 | one turn of the merging loop keeps the map |
| NodeTable.NodeTable.Remerge | lib/fuse.c:591-615 | up to eight merges and a halving keep the map and the load bound |
| NodeTable.NodeTable.Reduce | lib/fuse.c:575-589 | halves the table, down to the least size |
| NodeTable.NodeTable.DropUse | lib/fuse.c:624-627 | the entry is no longer counted; the map is kept |
| NodeRefs.UnrefEffect | lib/fuse.c:734-837 | the cascade unref_node, delete_node, unhash_name ends, and frees exactly the leading nodes of the parent walk that had one reference only; none of them was looked up, pinned, the root, or had a child that stays; the first survivor loses one reference, everything else is unchanged |
| NodeRefs.IncLookupKeeps | lib/fuse.c:864-869 | a lookup keeps every count exact |
| NodeRefs.CreatedKeeps | lib/fuse.c:881-901 | so does a new node under a live parent |
| NodeRefs.UnhashUnderLive | lib/fuse.c:734-760 | under a parent the kernel looks at, losing a name takes one reference off the parent and frees nothing |
| NodeMoves.Determined | lib/fuse.c:734-837 | names, live nodes, lookups and pins determine the whole index: counts and walks hold no history |
| NodeMoves.ForgetSome | lib/fuse.c:1365-1401 | giving back some lookups frees nothing |
| NodeMoves.ForgetLast | lib/fuse.c:1365-1401 | giving back the last lookup frees exactly the nodes nobody needs, the node itself exactly if that was its only reference |
| NodeMoves.FallenUnlocked | lib/fuse.c:817-837 | where each locked node is looked up or has a locked child, nothing that goes with a reference that is owed is locked |
| NodeMoves.ForgetUnlocked | lib/fuse.c:1376-1399 | the assert of delete_node holds for everything that goes with the last lookup of a node exactly if the node is unlocked, or stays |
| NodeMoves.CleanIsForget | lib/fuse.c:4405-4411 | cleaning one node of the cache, in its own order of steps, is forgetting its last lookup |
| NodeMoves.PinUnpin | lib/fuse.c:2651-2692 | the pin of a lookup of "." leaves no trace once it is given back |
| NodeMoves.CreatedResolves | lib/fuse.c:871-908 | a new node is found by its name, and every other name finds what it found before |
| NodeMoves.RemovedResolves | lib/fuse.c:1412-1421 | after an unlink the name finds nothing, and every other name finds what it found before |
| NodeMoves.RenameResolves | lib/fuse.c:1423-1457 | after a rename the new name finds the node, the old one nothing, and every other name what it found before |
| NodeMoves.ExchangeResolves | lib/fuse.c:1459-1488 | after an exchange each name finds what the other found, also where one of them found nothing, and every other name what it found before |
| NodeMoves.RemovedKeeps | lib/fuse.c:1403-1421 | unlinking keeps every count exact, frees nothing, and does to the names what the lock protocol says |
| NodeMoves.MovedIs | lib/fuse.c:1423-1457 | the steps of a rename, one after the other, keep every count exact and end with the names, lookups and live nodes as promised |
| NodeMoves.RenameTreeIs | lib/fuse.c:1423-1457 | the rename of counted nodes and the rename of the lock protocol are the same on the tree |
| NodeMoves.ExchangedIs | lib/fuse.c:1459-1488 | the steps of an exchange likewise, also where one of the names cannot be allocated |
| NodeMoves.ExchangeTreeIs | lib/fuse.c:1459-1488 | the exchange of counted nodes and the exchange of the lock protocol are the same on the tree |
| NodeIndex.NodeIndex.constructor | lib/fuse.c:4958-4990 | the root alone, held by one lookup |
| NodeIndex.NodeIndex.GetNode | lib/fuse.c:525-535 | answers a node exactly if the id is live |
| NodeIndex.NodeIndex.LookupNode | lib/fuse.c:850-862 | answers the node that has this name in this directory, if there is one |
| NodeIndex.NodeIndex.NextId | lib/fuse.c:839-848 | ends, and answers the first id after the counter, around 32 bits, that is neither 0 nor FUSE_UNKNOWN_INO nor in use |
| NodeIndex.NodeIndex.UnhashName | lib/fuse.c:734-760 | the entry leaves its chain, the parent loses a reference, perhaps its life, and only then the table shrinks: exactly the cascade of the reference model |
| NodeIndex.NodeIndex.UnrefNode | lib/fuse.c:831-837 | likewise; the assert holds, and the mutual recursion ends along the parent walk |
| NodeIndex.NodeIndex.DeleteNode | lib/fuse.c:817-829 | likewise; the assert that the node is unlocked holds |
| NodeIndex.NodeIndex.HashName | lib/fuse.c:791-815 | the node has its parent and name, the parent one reference more, the name table one entry more |
| NodeIndex.NodeIndex.FindNode | lib/fuse.c:871-908 | the named child, or the directory itself, has one lookup more; it is new only if the name was unknown, and then has the next id, and an unlocked word; tables, counts and tree stay consistent, also where an allocation fails |
| NodeIndex.NodeIndex.ForgetNode | lib/fuse.c:1365-1401 | exactly the effect of giving back so many lookups; the root is left alone; nothing that is deleted is locked |
| NodeIndex.NodeIndex.CleanNode | lib/fuse.c:4405-4411 | a node with other references stays, locked or not; any other is forgotten, and nothing that is deleted is locked |
| NodeIndex.NodeIndex.Pin | lib/fuse.c:2655-2661 | the node of a lookup of "." has one reference more |
| NodeIndex.NodeIndex.Unpin | lib/fuse.c:2687-2691 | the pin is given back; whatever goes with it is not locked |
| NodeIndex.NodeIndex.RemoveNode | lib/fuse.c:1412-1421 | the node loses its name, and the lookup the cache held for it; no node is freed |
| NodeIndex.NodeIndex.RenameNode | lib/fuse.c:1423-1457 | all outcomes: unknown name, EBUSY while hiding, ENOMEM with the node left nameless, success; in each the names, lookups and live nodes are stated in full |
| NodeIndex.NodeIndex.ExchangeNode | lib/fuse.c:1459-1488 | all outcomes, likewise |
| NodeRuns.ApplyKeeps | lib/fuse.c:734-1488 | every operation, with the premises it has, keeps each count exact and positive, and names and nodes one to one |
| NodeRuns.RunKeepsRefs | lib/fuse.c:734-1488 | so over every run of these operations each reference count equals named children, plus 1 if looked up, plus pins, and is positive |
| NodeRuns.ReachableFacts | lib/fuse.c:734-1488 | the same in plain terms for one node, and that no two live nodes share parent and name |
| NodeRuns.LookupsAreCounted | lib/fuse.c:862-908 | over every run nlookup of a node is the number of lookups answered to the kernel since it was made less those given back, plus the one that the cache takes when it is made and gives back when it is unlinked |
| NodeRuns.CacheHolds | lib/fuse.c:1403-1410 | the cache gives back its lookup of a node once, and keeps it as long as the node has a name |
| NodeRuns.GoesWhenReturned | lib/fuse.c:1365-1401 | when a node goes, the kernel has given back every lookup of it, exactly unless the cleaning takes it after it was unlinked |
| NodeRuns.CleanedWhileHeld | lib/fuse.c:4405-4411 | such a run: looked up twice, unlinked, one lookup given back, and the cleaning takes the other |
| NodeRuns.PairsNeverRepeat | lib/fuse.c:839-908 | ids come back when the 32-bit counter wraps, but over a whole run no two new nodes get the same generation and id |
| FuseRuns.NodesReady | lib/fuse.c:1403-1488 | what unlink, rename and exchange take for granted of the counted nodes follows from the paths that are locked while they run |
| FuseRuns.LocksAreHeld | lib/fuse.c:973-1095 | a locked node is looked up, or one of its children is locked as well |
| FuseRuns.GoneDeletable | lib/fuse.c:817-837 | what a forget, a cleaning or the end of a lookup deletes is unlocked, closed under children, and named by nobody who waits |
| FuseRuns.SameTree | lib/fuse.c:734-1488 | both halves make the same change to the tree |
| FuseRuns.NextKeepsWorld | lib/fuse.c:817-1488 | every act keeps the lock words exact, the reference counts exact, the tree shared, and every node in use looked up |
| FuseRuns.RunKeepsWorld | lib/fuse.c:817-1488 | so every state that any interleaving of acts can reach is sound |
| FuseRuns.DeletedUnlocked | lib/fuse.c:817-829 | in every run, a node that is deleted has the lock word 0, no locked path leads through it or writes it, and nobody waits for it; for the node that loses its last lookup this is what forget_node waits for and what the kernel promises, for all that falls with it it follows |
| ByteRangeLocks.LockedNode.LocksInsert | lib/fuse.c:3942-4014 | the requested bytes of the requesting owner have the new type, every other byte and owner is unchanged; the list stays sorted, disjoint and coalesced per owner and never stores F_UNLCK; every lock reports the process it did, or that of the request; a NULL allocation is never used, and ENOLCK is answered exactly where the code allocates and cannot |
| ByteRangeLocks.LockedNode.LocksConflict | lib/fuse.c:3916-3927 | answers a lock exactly if another owner holds a byte of the range and one side is a write lock |
| ByteRangeLocks.CanonicalUnique | lib/fuse.c:3942-4014 | the sorted, coalesced form is unique: pointwise effect and form together fix every resulting interval |
| ByteRangeLocks.StepKeepsExclusive | lib/fuse.c:4156-4161 | a conflict-free insert, or an unlock, keeps writers alone on their bytes |
| ByteRangeLocks.RunKeepsExclusive | lib/fuse.c:4128-4161 | so in any such run no byte is ever held by two owners with one of them writing |
| ByteRangeLocks.FlockRoundTrip | lib/fuse.c:4016-4032 | struct flock and struct lock are converted back and forth without loss, length 0 meaning to the end |
| ByteRangeLocks.FlockFields | lib/fuse.c:4016-4033 | type, start and process are taken over as they are, and a byte is in the range of both structures or of none |
| Options.AddOptCommon | lib/fuse_opt.c:115-137 | the text so far, a comma unless it was empty, and the escaped option, within the allocated size |
| Options.EscapedLength | lib/fuse_opt.c:128-133 | every comma and backslash gets one backslash in front, and nothing else is different |
| Options.ProcessRealOptionGroup | lib/fuse_opt.c:294-332 | process_gopt is called on exactly the options of the text, in order, up to the first it refuses: unescaping in place never destroys what is still to be read |
| Options.SplitOfPrint | lib/fuse_opt.c:115-332 | splitting undoes printing, for any text in the options: exactly if the first of several options is not empty |
| Options.EmptyOptionLost | lib/fuse_opt.c:115-137 | an empty option printed before another is not read back |
| Options.SplitOfBuffer | lib/fuse_opt.c:115-332 | the same for the text as a C string in a buffer |
| Options.NumberRead | lib/fuse_opt.c:310-318 | a backslash and the three octal digits of a byte, first digit first, are read as that byte, whatever has been read before and follows |
| Options.SplitOfSpelled | lib/fuse_opt.c:294-332 | options written in any mixture of plain, quoted and numbered characters are read as they are meant |
| Options.LoneBackslash | lib/fuse_opt.c:308-324 | a backslash at the very end stands for itself |
| Symlink.CountComponents | lib/modules/subdir.c:79-89 | the number of components |
| Symlink.StripCommon | lib/modules/subdir.c:91-102 | both pointers stand behind the same number of common leading components |
| Symlink.TransformSymlink | lib/modules/subdir.c:104-140 | the buffer holds the rewritten text, ended within size, or is untouched, exactly by the conditions of the code |
| Symlink.NewTextLeads | lib/modules/subdir.c:104-140 | resolved from the directory of the link, the new text goes up to the common directory and down what is left of the target |
| Symlink.DetourKeeps | lib/modules/subdir.c:104-140 | going into a directory, up by as many components, and on is going on at once exactly if the way in has no dots or the rest climbs to the root |
| Symlink.RewriteKeepsTarget | lib/modules/subdir.c:104-140 | the rewritten link leads where the original did exactly if the path below the common prefix has no "." or "..", or the rest of the target climbs above the common directory to the root |
| Symlink.DotlessPathKeepsTarget | lib/modules/subdir.c:104-140 | so a path without dots keeps every target |
| Symlink.DottedBaseMissesTarget | lib/modules/subdir.c:104-140 | below the base directory /a/./ the link /a/////t of the file l is rewritten, and leads to /t |
| SymlinkScope.RewrittenAre | lib/modules/subdir.c:104-140 | without repeated slashes exactly the links below the base directory are rewritten, if they are not on the way to the path itself and fit |
| SymlinkScope.RewrittenBelow | lib/modules/subdir.c:113-118 | a link without repeated slashes is rewritten only if it begins with all components of the base directory |
| SymlinkScope.RewrittenOutside | lib/modules/subdir.c:113-118 | a link outside the base directory is rewritten exactly if the part of it that spells the components it shares with the base is as long as the base |
| SymlinkScope.StaysInside | lib/modules/subdir.c:104-140 | a rewritten link below the base directory never goes up beyond the mounted directory |
| SymlinkScope.CanBeRelative | lib/modules/subdir.c:119-122 | there is no way from the directory of the path exactly for links that begin with all its components, except a link to the path itself where neither text ends with a slash |
| SymlinkScope.NoDetour | lib/modules/subdir.c:91-121 | the new text goes up to the last directory that path and link share and no further: the rest does not start with the way back down, except in a link to the path itself |
| SymlinkScope.LeadsOut | lib/modules/subdir.c:104-140 | with base /a/b/ the link ////a/f of the file l is rewritten to ../f |
| BufCopy.BufVec.Size | lib/buffer.c:22-35 | the sizes added up in size_t, where SIZE_MAX replaces what was added before it |
| BufCopy.SizeOfAll | lib/buffer.c:22-35 | without SIZE_MAX, and if it fits, that is the sum of the sizes |
| BufCopy.BufVec.SizeIsBytes | lib/buffer.c:22-35 | and then, where the size fields are right, the number of bytes in all buffers |
| BufCopy.SizeOfUnknown | lib/buffer.c:22-35 | with a buffer of unknown size the total is unknown exactly if the sizes behind the last such buffer add up to 0 in size_t |
| BufCopy.UnknownIsLost | lib/buffer.c:22-35 | a buffer of unknown size and one byte more have the total 0 |
| BufCopy.BufVec.Advance | lib/buffer.c:265-282 | the cursor moves on by len over the concatenated bytes, and to the next buffer at the end of one |
| BufCopy.CopyOne | lib/buffer.c:227-250 | exactly len bytes of the destination buffer are replaced by what the source held, overlapping or not |
| BufCopy.FuseBufCopy | lib/buffer.c:284-324 | ends, answers the smaller of the two remaining totals, lays exactly that many source bytes over the concatenated destination and changes no other byte, for any buffer boundaries, empty buffers included; both cursors are behind the last byte, but the destination cursor stays where the last round started if the source is used up |
| Device.PutSlotIs | disk.c:296-297 | an 8-byte write is read back as written, and changes no other word of the device |
| Device.ZeroBlockIs | disk.c:363-364 | clearing a block makes all its words zero and changes no other block |
| Disk.Disk.MakeFreeList | disk.c:27-73 | the chain blocks hold the addresses of the 64q blocks from block q + 1 to block 65q, and the inode blocks are cleared; that is a sound list of exactly these blocks if and only if the number of blocks is no multiple of 65; on a blank device every free block outside the chain then reads as zeros |
| Format.ChainEnds | disk.c:48-73 | 64q - 1 is never a multiple of 512, so the last chain block has its last word zero |
| Format.LastBlockFits | disk.c:36-39 | all these blocks are on the device exactly if the number of blocks is no multiple of 65 |
| Format.FilledIsWellFormed | disk.c:48-73 | the words as written make up a well-formed list of exactly these blocks, each known once |
| Format.FilledIsUnsound | disk.c:48-73 | if the last of these blocks is not on the device, its address is in the list all the same, and no sound list is there |
| Disk.Disk.AllocateBlock | disk.c:281-328 | removes exactly the block it answers from the free set, 0 exactly if that is empty, and writes nothing outside the list |
| Disk.Disk.TakeBlock | disk.c:281-328 | the search, and the three ways to take a block, word by word |
| Disk.Disk.FreeBlock | disk.c:338-392 | adds exactly its argument, writes nothing outside the list and the block; -1 and no effect without a drive or a block |
| Disk.Disk.GiveBlock | disk.c:338-392 | the search, and the four ways to put a block, word by word |
| FreeList.AllocateTakes | disk.c:281-328 | taking keeps the chain acyclic and free of duplicates; a chain block is handed out with all its words zero |
| FreeList.FreeAdds | disk.c:338-392 | giving back keeps the chain acyclic and free of duplicates |
| FreeList.PlacesAreFreeSet | disk.c:281-392 | the free set is what the device itself says: the head, its non-zero words, and what its last word leads to |
| FreeList.ChainsAgree | disk.c:281-392 | the device fixes the chain: there is only one |
| FreeList.ClientWrites | disk.c:254-272 | clients that write only blocks they hold leave the list alone |
| FreeList.NeverTwice | disk.c:254-392 | in any run of allocate_block, free_block and client writes on a sound device a block that is handed out again has been given back in between |
| FreeList.RunConserves | disk.c:254-392 | if clients free, and of the blocks that go around write, only what they hold, then over any run the list on the device stays sound, the blocks it leads to and those that clients hold are together always the same, and never overlap |
| FreeList.NoneLeft | disk.c:281-328 | and allocate_block answers 0 exactly when the clients hold every block |
| FreeList.FreeThenAllocate | test_block.c:15-19 | a block freed and allocated again comes back exactly if the list was empty, or the first word of its head block was free, or none was |
| FreeList.AllocateFreeAllocate | test_block.c:12-19 | a block allocated, freed and allocated again is the same exactly if the first allocation did not pop a chain block that only led on, or the next chain block has its first word free, or none |
| FreeList.FreedIsNotNext | test_block.c:12-19 | a sound device of four blocks on which another block comes back |
| BlockMap.CellsDiffer | tyrant_help.c:31-142 | no two blocks of a file have their pointers in the same place, over all four levels |
| BlockMap.HangKeeps | tyrant_help.c:31-142 | writing one pointer keeps every block of every file reachable exactly where it belongs |
| BlockMap.BlankOrBroken | tyrant_help.c:66-133 | nobody clears a new block of pointers to pointers: the map stays sound exactly if the block allocated for it is blank |
| BlockMap.WalkIs | tyrant_help.c:271-355 | following the pointers from the inode through the device leads to the block that is mapped there, and to nothing past the last one |
| BlockMap.Layout | tyrant_help.c:3-143 | block numbers count through the words like an odometer of base 512, behind twelve direct blocks |
| BlockMap.WalkFirst | tyrant_help.c:299-315 | block c, or 12 + c, is the c-th direct pointer, or the c-th word of the indirect block |
| BlockMap.WalkSecond | tyrant_help.c:316-331 | block 524 + 512 b + c is word c of the block in word b of the double indirect block |
| BlockMap.WalkThird | tyrant_help.c:332-350 | block 262668 + 262144 a + 512 b + c is word c of the block in word b of the block in word a of the triple indirect block |
| BlockMap.PointerFits | tyrant_help.c:110-112 | the word for a pointer lies in its block on every level exactly if the block number is below 12 + 512 + 512^2 + 512^3 |
| BlockAppend.EnsuredIs | tyrant_help.c:40-137 | a pointer block that is missing is allocated and hung in; nothing else changes, and it fails only where no block is free; one that is there is used, whatever free blocks hold |
| BlockAppend.AddedIs | tyrant_help.c:3-143 | on success the next block of the file is a block that was free; either way only pointer blocks on the way to it are added, nothing is remapped, no byte of any file is different and no block is lost; it fails exactly if the data block and the pointer blocks missing above it are more than there are free blocks, and else it takes just these |
| BlockAppend.RoomStays | tyrant_help.c:3-143 | while a file grows to n blocks, what it still lacks minus what is still free stays the same number |
| BlockAppend.SmallIsClean | tyrant_help.c:40-137 | up to block 523 an append needs nothing to be known of free blocks |
| BlockAppend.NextNeeds | tyrant_help.c:40-137 | past it, only if a block of pointers to pointers on the way to the next block is missing |
| FileSystem.FileSystem.AddBlock | tyrant_help.c:3-143 | the same, in place on the device and the inode |
| FileSystem.FileSystem.EnsureField | tyrant_help.c:43-55 | a first-level pointer: used if it is there, else a block is allocated and committed |
| FileSystem.FileSystem.EnsureWord | tyrant_help.c:80-92 | the same for a pointer inside a pointer block |
| FileSystem.FileSystem.Holder | tyrant_help.c:40-137 | the pointer blocks above a block number, on each of the three indirect levels |
| FileSystem.FileSystem.GetBlock | tyrant_help.c:271-355 | follows the pointers on all levels to the block mapped at that number, and answers 0 past the last one |
| FileSystem.FileSystem.MakeInode | tyrant.c:138-160 | an inode that was free becomes a file without blocks, and the file system stays sound |
| FileHistory.ApplyKeeps | tyrant_help.c:3-143 | making, growing, writing and resizing files keep the device sound and remap nothing; where free blocks read as zeros, they go on doing so |
| FileHistory.SmallAppends | tyrant_help.c:3-143 | in any run on a sound device an append below block 524 can be made, and past it any that needs no new block of pointers to pointers, whatever free blocks hold |
| FileHistory.HistoryClean | tyrant_help.c:3-143 | in any run that starts where free blocks read as zeros, every append within the limit can be made |
| FileHistory.AppendsInOrder | tyrant_help.c:3-355 | over any run of these, from a sound device on, get_i_block finds the i-th block that was appended to a file at number i, on every level, and nothing behind the last |
| FileHistory.AppendedDistinct | tyrant_help.c:3-143 | appended blocks are pairwise distinct, within a file and between files, and none of them is free |
| FileSystem.FileSystem.ReadBlock | disk.c:223-245 | as many bytes as are asked for, or as the block still has; none for block 0 or an offset outside the block |
| FileSystem.FileSystem.WriteBlock | disk.c:254-272 | as many bytes as are given, or as the block has room for; none at an offset outside the block; no other byte of the device is different |
| FileSystem.FileSystem.ReadFile | tyrant.c:383-415 | -1 from the end of the file on; else exactly the bytes of the file from offset on, as many as asked for or as there are, and nothing else in the buffer |
| FileSystem.FileSystem.WriteFile | tyrant.c:424-470 | for any offset: the first n bytes of the data are at offset, the other bytes of the blocks the file had are as before, new blocks that were skipped read as zeros if free blocks do; the size is the larger of the old one and offset + n; other files are the same; the free list loses only blocks the file gained. Before the write it can be told how far it gets: the file has m blocks afterwards exactly if the free blocks were enough for what it lacked for m, and has no more than it had or the bytes need, n ends where its blocks end, all is written exactly if there was room for all, and the file system is left sound exactly if there was room up to offset |
| FileSystem.FileSystem.GrowFile | tyrant.c:447-455 | appends what is missing, stops at the first failure, and changes no byte; the file reaches m blocks exactly if the free blocks were enough for the data and pointer blocks it lacked for m, and never gets more than it had or was asked for |
| FileSystem.FileSystem.WriteBytes | tyrant.c:458-467 | the writing loop lays the data over the blocks, byte for byte, across block boundaries |
| FileBytes.GrownBytes | tyrant.c:447-455 | growing a file changes no byte of any file |
| FileBytes.WriteStep | disk.c:254-272 | one write_block changes exactly the addressed bytes of exactly one file |
| FileBytes.WrittenContents | tyrant.c:424-470 | a write that starts no later than the end of the file overwrites the flat sequence of its bytes |
| FileBytes.WrittenBytes | tyrant.c:424-470 | growing, writing and setting the size add up to the write, byte by byte, from any offset |
| FileBytes.OthersContents | tyrant.c:424-470 | and leave every other file as it was |
| FileSystem.WriteReaches | tyrant.c:447-467 | how much of a write is done, and whether the file has blocks for its new size, decided by the free blocks and the map before the write |
| FileSystem.WriteLeavesNoBlock | tyrant.c:447-467 | a sound device without free blocks on which a write past the end of an empty file writes nothing and leaves a size without a block |
| FileSystem.ReadAfterWrite | tyrant.c:383-470 | after a write, what is read where the data went is the data; elsewhere in the file as far as it reached, and in every other file, it is what was there before; in blocks that the write skipped it is zeros, if free blocks read as zeros |

## Left out

- Kernel and device I/O, message encoding, mounting, signals, splice and pipes, iconv, CUSE and logging: outside the algorithms.
- Threads and condition variables: a critical section is one step, and a wait is being in the queue. That two paths can be locked without deadlock is not claimed; the code says so itself (lib/fuse.c:1083).
- The mode of try_get_path that takes no locks, check_dir_loop, and the growth of the path buffer in add_name.
- Slab memory, the order of the LRU list and its times, the is_hidden flag, and the lookup of "..".
- The byte layout of inodes and allocate_inode: the inode table is a map from the address to the fields that locate data; times, modes and links are not in it.
- fetch_block, path lookup and directories of tyrant_help.c, and mkfs.c, which repeats disk.c and tyrant.c.
- tfs_truncate and the unlinking of files and directories: they do not conserve blocks (the loop of tfs_truncate raises i while blocks falls, and pointer blocks are not freed).
- The root directory that tfs_mkfs makes after the free list.
- BufCopy.FuseBufCopy: only memory buffers are modelled, with as many bytes as their size fields say (so the size of a buffer that is copied is known), and no destination buffer may also be a source buffer.
- FileSystem.FileSystem.WriteFile: offset + size stays below 2^64, and within the blocks that an inode can reach.
- FileSystem.FileSystem.AddBlock: a file that already has as many blocks as its inode can reach is left out, because from there on the code takes blocks that no pointer leads to (`BlockMap.PointerFits`); so are free blocks with old contents where a new block of pointers to pointers is needed, because the code follows whatever they hold (`BlockMap.BlankOrBroken`); and the branch for a block count of UINT64_MAX.
- NodeIndex.NodeIndex.FindNode: a name that cannot be stored is known before the node is set up, where the code sets it up and frees it again; a free id is assumed to exist.
- NodeIndex.NodeIndex.UnhashName: the node's own name and parent pointer are cleared before the parent is unreferenced, where the code clears them after; nothing reads them in between.
- NodeIndex.NodeIndex.CleanNode: that a node is unlocked when its last reference goes is a premise, because the code does not look.
- NodeIndex.NodeIndex.NextId: the generation is not bounded, so its wrap-around after 2^64 nodes is not modelled.
- Disk.Disk.MakeFreeList: a device with fewer than 65 blocks is left out, because the number of data blocks wraps around below zero there.
- NodeTable.NodeTable.Lookup: the hash of a name is a recursive function over the name, where the code has a loop.
