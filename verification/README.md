# MaidSafe Common: a model of its data structures and protocols

This project models the stateful core of the MaidSafe common library and proves what the library
promises of it.

- **`StructuredDataVersions`** is a bounded forest of versions kept in four linked structures. The
  class in `StructuredDataVersions.dfy` updates those structures as the program does. Its meaning is
  a plain map from each version to the parent it was declared with, and a root (`Forests.dfy`). `Put`,
  `DeleteBranchUntilFork`, `clear`, serialising, parsing and merging are specified on that map, and
  the four structures are shown to be a function of it (`Stores.dfy`). `PutAnswers.dfy` says what the caller of a
  `Put` is told, and `AcceptedRuns.dfy` which runs of names are accepted and what they make. Runs, order of arrival, the
  round trip and the merge are then theorems about the map.
- **`DataBuffer`** is a memory store in front of a disk store, with a worker that copies from one to
  the other. `DataBuffer.dfy` has one method for each section done under a lock. `BufferRuns.dfy`
  interleaves the sections of any number of clients and of the worker, `BufferCounters.dfy`,
  `BufferProperties.dfy` and `BufferPops.dfy` state what holds over whole runs, `BufferOrder.dfy` and `BufferQueue.dfy`
  that values leave in the order in which they were entered, `BufferRoom.dfy` when a store has room, `BufferRemains.dfy`
  what deleted values leave behind, and `BufferCases.dfy` gives runs that go wrong.
- **`LruCache`** is a linked list and a map of positions in it (`LruCache.dfy`), against a plain list in
  order of last use (`RecencyLists.dfy`).
- **`LockedPageManagerBase`** counts, for every page, the locked ranges that touch it
  (`Pages.dfy`, `LockedPages.dfy`).
- **hex and base64** (`Hex.dfy`, `Base64.dfy`), sections 8 and 4 of RFC 4648; hex has the lower-case alphabet.
- **Identities** with the exclusive-or distance and their binary form (`Bits.dfy`, `Identities.dfy`,
  `BinaryIdentities.dfy`).
- **`tcp::Connection`**: length-prefixed messages over a byte stream, with one write in flight
  (`Framing.dfy`, `Connections.dfy`, `TcpConnection.dfy`).

## How the model reads the program

- An iterator is the name it points to and an end iterator is `None`. Names are ordered by index and
  then identity; an identity stands for its 64 bytes as one number, or is uninitialised.
- The outcome of a `Put` is the value of `Forests.PutSpec`. Where the program has no defined behaviour the outcome
  is `Undefined`, and the methods require that this is not so: line 449 dereferences the end parent
  of a root put at the branch limit (`DereferencesEnd`), line 464 asserts that a root is not put and
  evicted at once (`FailsAssertion`), and the walk of line 522 does not end
  if the branch of the parent starts with a version, root or orphan, that waits for the new one (`Hangs`, `UpwardWalkEndsIff`).
- The methods also require that an inserting `Put` does not break the forest. `PutKeepsForestIff` shows that
  the condition is exact, and `OrderedPutIsSafe` that growing indices are enough for it.
- The futures of `CheckVersionNotInBranch` run one after another. They only read, and the first error wins
  whatever their order, since all errors are the same.
- A lock-held section of the data buffer is atomic. The worker takes the disk lock while it holds the memory lock,
  which is a state of its own (`Entering`) in which no other thread can do a section on the disk.
- The Delete with which a Store begins is done by the steps of any Delete; `BeginStore` is the moment when it has ended
  (`StoreCanBeginIff`). A key is stored any number of times, one Store after another.
- A run is any interleaving. `Reachable` states are those of orderly runs, in which a value is entered only when no
  element of its key is left on disk and the worker is not about its key (`Fresh`, `OrderlyIff`); `Possible` states are
  those of any run. `MarkedUnreadableIff` and `EntryReadableIff` say what becomes of a value that is entered otherwise.
- A disk also records the bytes of files that were written over. The program has no such number; it is what its
  counter is wrong by (`Accounting`).
- A file system is a map from keys to contents, the pop functor is the list of calls made to it, a predicate is the
  set of keys it holds for, and the clock of the cache is any one that never goes back.
- A linked list node has an identity, which moving the node keeps.
- Shifts, masks and unions of disjoint bits are written as products, remainders and sums, with the
  32-bit accumulator of base64 reduced modulo 2^32; the page mask is a bitwise and, defined bit by bit.

## Where the program differs from its documentation, or from what a caller may expect

- A circular `Put` is promised to be an error. The check misses most of them: `CircularPutRefusedIff` says of every
  circular `Put` whether it is refused. `CircularPutCanBeAccepted`, `SelfPutIsAccepted` (a version under itself)
  and `CircularRootPutCanBeAccepted` (an index of 0) are cases where it is not.
- An erased childless root is promised to be replaced by the lowest orphan. The program takes the lowest
  orphan of the lowest absent parent; `ReplacementIsLowestIff` says when that is the same, and
  `HigherOrphanMayReplaceRoot` gives a case where it is not.
- Merging a container with its own serialised form is not always without effect: an uninitialised
  parent loses its index when written, so the merge can fail (`ApplyOwnSerialised`).
- A binary identity of fewer than 512 characters is promised to be an error. From 504 characters on it is accepted
  (`ShortStringAccepted`, `ReencodedIff`).
- A `Delete` that overlaps a `Store` of the same key can return and leave the value readable
  (`OverlappingDeleteLeavesValue`); `DeletedForGoodIff` says when it cannot.
- A key stored again while the worker has still to mark the copy of its first value can lose the second value
  (`StoringAgainLosesValue`). So can a key whose waiting copy was cancelled by a `Delete`, once room was found: the
  cancelled element stays, and hides the next one, when nothing is under way any more (`CancelledElementHidesValue`).
  `MarkedUnreadableIff` says that, after an orderly run, there is no third case for a value entered in memory.
- A file can be left without a completed element, by a predicate `Delete` or by a cancelled copy that finds room. No
  `Delete` then frees its bytes (`DeleteFreesIff`, `LeftFileStays`). With a pop functor it can use up the disk, and
  the worker then meets its own element (`LeftFileStopsCopying`); `PopsShortestPrefix` and `GoesOnIff` say when there
  is room. Storing its key again makes the disk counter too large (`LeftFileIsCountedTwice`, `Accounting`).
- An expired key can outlive the purges of the cache (`GetHidesExpired`, `PurgesAllIff`).
- Reading accepts runs which are not those of a forest (`ReadingMayNotBeWellFormed`, `ParsedWellFormedIff`).

## Model

| member | source | states |
|---|---|---|
| `StructuredDataVersions.StructuredDataVersions.Create` | src/maidsafe/common/data_types/structured_data_versions.cc:115-173 | both limits must be at least 1, otherwise an error and no container; a new container is empty |
| `StructuredDataVersions.StructuredDataVersions.Put` | src/maidsafe/common/data_types/structured_data_versions.cc:309-354 | the container stays well-formed; its declared parents and root become those of `Forests.PutSpec`, or nothing at all changes, and the result says which |
| `StructuredDataVersions.StructuredDataVersions.CheckAndInsert` | src/maidsafe/common/data_types/structured_data_versions.cc:309-346 | the checks in the order of the program: each refusal leaves every structure as it was |
| `StructuredDataVersions.StructuredDataVersions.InsertWithinLimits` | src/maidsafe/common/data_types/structured_data_versions.cc:348-353 | the branch limit is decided before anything is modified, and an insert represents exactly the specified forest |
| `StructuredDataVersions.StructuredDataVersions.NewVersionPreExists` | src/maidsafe/common/data_types/structured_data_versions.cc:369-395 | true, false or an error according to the parent the version was declared with, whether linked, root or orphan |
| `StructuredDataVersions.StructuredDataVersions.CheckForUnorphaning` | src/maidsafe/common/data_types/structured_data_versions.cc:397-423 | gathers exactly the versions waiting for the new one and the root if it waits for it, or reports a cycle |
| `StructuredDataVersions.StructuredDataVersions.CheckVersionNotInBranch` | src/maidsafe/common/data_types/structured_data_versions.cc:425-443 | terminates on every grounded forest, and finds v if and only if v is the lowest-named child of some version in the subtree |
| `StructuredDataVersions.StructuredDataVersions.CheckBranchCount` | src/maidsafe/common/data_types/structured_data_versions.cc:445-459 | at the branch limit a put that needs a branch erases a childless root, and is refused otherwise |
| `StructuredDataVersions.StructuredDataVersions.Insert` | src/maidsafe/common/data_types/structured_data_versions.cc:461-500 | links, tips, orphans and root afterwards are exactly those of the specified forest; returns the erased root |
| `StructuredDataVersions.StructuredDataVersions.Graft` | src/maidsafe/common/data_types/structured_data_versions.cc:466-474 | the new version and all it adopts are linked both ways and its parent is no longer a tip |
| `StructuredDataVersions.StructuredDataVersions.LinkVersion` | src/maidsafe/common/data_types/structured_data_versions.cc:466-471 | the four kinds of links touched by an insert, as one function of the links before |
| `StructuredDataVersions.StructuredDataVersions.SettleRoot` | src/maidsafe/common/data_types/structured_data_versions.cc:473-493 | whether the new version becomes root, demotes it, adopts it or evicts it, the root and orphans are those of the new forest |
| `StructuredDataVersions.StructuredDataVersions.UnorphanRoot` | src/maidsafe/common/data_types/structured_data_versions.cc:514-533 | the upward walk terminates, and the start of the branch it finds is always an orphan, which becomes root |
| `StructuredDataVersions.StructuredDataVersions.Unorphan` | src/maidsafe/common/data_types/structured_data_versions.cc:535-545 | every orphan of the key, and no other version, gets the parent |
| `StructuredDataVersions.StructuredDataVersions.SetVersionAsChildOfItsParent` | src/maidsafe/common/data_types/structured_data_versions.cc:502-512 | the parent gains exactly that child and is no tip any more |
| `StructuredDataVersions.StructuredDataVersions.ReplaceRoot` | src/maidsafe/common/data_types/structured_data_versions.cc:547-557 | after the root is erased the structures are those of the forest without it |
| `StructuredDataVersions.StructuredDataVersions.ReplaceRootFromOrphans` | src/maidsafe/common/data_types/structured_data_versions.cc:559-567 | the lowest orphan of the lowest absent parent becomes root |
| `StructuredDataVersions.StructuredDataVersions.ReplaceRootFromChildren` | src/maidsafe/common/data_types/structured_data_versions.cc:569-583 | the lowest child becomes root, the others orphans waiting for the erased root |
| `StructuredDataVersions.StructuredDataVersions.FindOrphan` | src/maidsafe/common/data_types/structured_data_versions.cc:591-618 | the search over all orphan sets finds the key of an orphan exactly if there is one |
| `StructuredDataVersions.StructuredDataVersions.InsertOrphan` | src/maidsafe/common/data_types/structured_data_versions.cc:620-629 | one more orphan under the key, creating the set if needed |
| `StructuredDataVersions.StructuredDataVersions.EraseOrphan` | src/maidsafe/common/data_types/structured_data_versions.cc:631-637 | one orphan less, and no empty set is kept |
| `StructuredDataVersions.StructuredDataVersions.Get` | src/maidsafe/common/data_types/structured_data_versions.cc:639-647 | the tips, exactly and from highest to lowest |
| `StructuredDataVersions.StructuredDataVersions.GetBranch` | src/maidsafe/common/data_types/structured_data_versions.cc:649-670 | the upward walk terminates and yields the unique branch from the tip to the root or orphan; the two errors |
| `StructuredDataVersions.StructuredDataVersions.DeleteBranchUntilFork` | src/maidsafe/common/data_types/structured_data_versions.cc:672-693 | erases exactly `Pruning.Pruned`, removes that one tip, keeps the container well-formed; an error changes nothing |
| `StructuredDataVersions.StructuredDataVersions.EraseTip` | src/maidsafe/common/data_types/structured_data_versions.cc:682-689 | erasing a tip leaves a fork, or makes its parent the next tip |
| `StructuredDataVersions.StructuredDataVersions.EraseFrontOfBranch` | src/maidsafe/common/data_types/structured_data_versions.cc:695-708 | erasing the last version of a branch promotes an orphan to root, or leaves the empty container |
| `StructuredDataVersions.StructuredDataVersions.Clear` | src/maidsafe/common/data_types/structured_data_versions.cc:710-715 | leaves the empty, well-formed container |
| `StructuredDataVersions.StructuredDataVersions.Serialise` | src/maidsafe/common/data_types/structured_data_versions.cc:156-168 | writes `Serialisation.SerialiseSpec`: the root first, then the orphans by absent parent and name |
| `StructuredDataVersions.StructuredDataVersions.BranchToCereal` | src/maidsafe/common/data_types/structured_data_versions.cc:244-280 | one run of names up to a tip or a fork, then the runs of the children of the fork in order |
| `StructuredDataVersions.StructuredDataVersions.Parse` | src/maidsafe/common/data_types/structured_data_versions.cc:130-154 | builds `Serialisation.ParseSpec` or gives its error |
| `StructuredDataVersions.StructuredDataVersions.BranchFromCereal` | src/maidsafe/common/data_types/structured_data_versions.cc:175-206 | reads one run and exactly the runs which continue it, by the fork counts |
| `StructuredDataVersions.StructuredDataVersions.NamesFromCereal` | src/maidsafe/common/data_types/structured_data_versions.cc:186-205 | every name of a run becomes the only child of the one before |
| `StructuredDataVersions.StructuredDataVersions.HandleFirstVersionInBranchFromCereal` | src/maidsafe/common/data_types/structured_data_versions.cc:208-235 | the first name of a run becomes root, orphan or child, or is malformed |
| `StructuredDataVersions.StructuredDataVersions.ApplySerialised` | src/maidsafe/common/data_types/structured_data_versions.cc:282-290 | either an error with this container unchanged, or the merge of both with the incoming limits |
| `StructuredDataVersions.StructuredDataVersions.ApplyBranch` | src/maidsafe/common/data_types/structured_data_versions.cc:292-307 | puts the tree below a version parents before children, in the order of the specified merge |
| `StructuredDataVersions.StructuredDataVersions.Contents` | include/maidsafe/common/data_types/structured_data_versions.h:100-187 | a well-formed container represents a valid forest within its limits |
| `ParentMaps.BranchUnique` | src/maidsafe/common/data_types/structured_data_versions.cc:655-658 | a version has one branch only |
| `ParentMaps.GroundedAfterAdd` | src/maidsafe/common/data_types/structured_data_versions.cc:425-443 | adding a pair leaves every upward walk finite if and only if it does not close a cycle |
| `ParentMaps.BranchAfterAdd` | src/maidsafe/common/data_types/structured_data_versions.cc:535-545 | branches that waited for the new version go on with its branch, all others are unchanged |
| `ParentMaps.UpwardWalkEndsIff` | src/maidsafe/common/data_types/structured_data_versions.cc:514-529 | once the new version is linked to its parent, the walk up from the parent ends if and only if the version it starts with, root or orphan, does not wait for the new one |
| `ParentMaps.LowestBelowFront` | src/maidsafe/common/data_types/structured_data_versions.cc:425-443 | what the check for cycles can find below a root or orphan: only the lowest child of its own parent |
| `ParentMaps.TipBelow` | src/maidsafe/common/data_types/structured_data_versions.cc:649-660 | below every version of a grounded forest there is a tip |
| `Forests.NoticesCycleIff` | src/maidsafe/common/data_types/structured_data_versions.cc:397-443 | the closed form of the check for cycles agrees with looking below every adopted version |
| `Forests.GrownValid` | src/maidsafe/common/data_types/structured_data_versions.cc:461-493 | inserting keeps the forest, whichever of the cases for the root applies |
| `Forests.ReplacementFound` | src/maidsafe/common/data_types/structured_data_versions.cc:547-583 | an erased root is replaced unless nothing is left, and by a version without a present parent |
| `Forests.ErasedValid` | src/maidsafe/common/data_types/structured_data_versions.cc:547-583 | erasing the root keeps the forest |
| `Forests.PutKeepsForestIff` | src/maidsafe/common/data_types/structured_data_versions.cc:309-500 | an inserting Put keeps an acyclic forest and both limits if and only if it neither closes a cycle nor makes a linked version the root |
| `ForestRuns.PutConserves` | include/maidsafe/common/data_types/structured_data_versions.h:149-171 | Put is a put-if-absent on the declared parents; versions after and the version returned are versions before and the new one |
| `PutAnswers.FullPut` | src/maidsafe/common/data_types/structured_data_versions.cc:340-346 | a put of an absent version into a full container that yields no error gives that version back, with nothing changed, if and only if its parent is uninitialised, its index is 0 or the root waits for it; otherwise it gives the root back, which is gone, and the new version is kept |
| `PutAnswers.RoomyPut` | src/maidsafe/common/data_types/structured_data_versions.cc:340-353 | with room under both limits nothing is lost |
| `PutAnswers.BranchingPut` | src/maidsafe/common/data_types/structured_data_versions.cc:445-459 | below the version limit the root goes if and only if the put would start a branch at the branch limit, and it has no child then |
| `PutAnswers.PresentPut` | src/maidsafe/common/data_types/structured_data_versions.cc:369-395 | a put of a version that is there changes nothing, and is an error under another parent |
| `PutAnswers.PutFails` | src/maidsafe/common/data_types/structured_data_versions.cc:309-354 | every put of an absent version: the exact arguments it refuses, and exactly when the branch limit is exceeded |
| `PutAnswers.PutUndefinedIff` | src/maidsafe/common/data_types/structured_data_versions.cc:445-529 | the exact puts, told by the declared parents, the root and the limits, for which the program has no defined behaviour |
| `PutAnswers.RootStaysInBranch` | src/maidsafe/common/data_types/structured_data_versions.cc:476-533 | after a put that evicts nothing the root is the version put as a root, or the start of the branch of the old root |
| `PutAnswers.EvictedRootReplaced` | src/maidsafe/common/data_types/structured_data_versions.cc:547-583 | an evicted root with children is replaced by the lowest of them |
| `ForestRuns.CircularPutRefusedIff` | src/maidsafe/common/data_types/structured_data_versions.cc:309-346 | every circular Put: refused exactly if it makes a second root or, when it is no root put, if the parent is the lowest-named child of its own parent |
| `ForestRuns.SelfPutIsAccepted` | src/maidsafe/common/data_types/structured_data_versions.cc:326-352 | a version put under itself, not as a root and within the limits, becomes an orphan waiting for itself |
| `ForestRuns.CircularRootPutCanBeAccepted` | src/maidsafe/common/data_types/structured_data_versions.cc:326-346 | a circular Put of index 0 whose parent is a lowest-named child, and which is accepted |
| `ForestRuns.CircularPutCanBeAccepted` | include/maidsafe/common/data_types/structured_data_versions.h:169-170 | a circular Put which the program accepts although its documentation promises an error |
| `ForestRuns.OrderedPutIsSafe` | src/maidsafe/common/data_types/structured_data_versions.cc:309-354 | when indices grow along every pair no Put is circular, none is refused as circular and no walk hangs |
| `ForestRuns.OrderedStaysOrdered` | src/maidsafe/common/data_types/structured_data_versions.cc:309-354 | every operation keeps the indices growing |
| `ForestRuns.OrderedRunIsSafe` | src/maidsafe/common/data_types/structured_data_versions.cc:309-500 | every run of operations whose puts have growing indices ends as a forest within both limits, unless and only unless a put meets one of the two faults at the branch limit |
| `ForestRuns.StepKeepsForest` | src/maidsafe/common/data_types/structured_data_versions.cc:309-715 | Put, DeleteBranchUntilFork and clear keep a forest within both limits |
| `ForestRuns.RunKeepsForest` | src/maidsafe/common/data_types/structured_data_versions.cc:309-715 | every state of every run in which no put is undefined or breaks the forest is a forest within both limits |
| `ForestRuns.CleanRunDeclares` | src/maidsafe/common/data_types/structured_data_versions.cc:309-354 | a run without error, refusal or eviction, in which no put breaks the forest, declares exactly the pairs put and those before |
| `ForestRuns.OrderIndependence` | src/maidsafe/common/data_types/structured_data_versions.cc:397-545 | two orders of the same puts, neither with an error, refusal, eviction or broken forest, end with the same links and tips |
| `ForestRuns.ChosenRootMayDiffer` | src/maidsafe/common/data_types/structured_data_versions.cc:318-347 | although the version taken for the root may differ |
| `Pruning.FirstOrphanIsLowestIff` | include/maidsafe/common/data_types/structured_data_versions.h:155-158 | the version that takes over from a branch of the root is the lowest of all orphans if and only if that one waits for the lowest absent parent |
| `Pruning.ReplacementIsLowestIff` | include/maidsafe/common/data_types/structured_data_versions.h:155-158 | and so it is when a childless root is erased |
| `Pruning.HigherOrphanMayReplaceRoot` | include/maidsafe/common/data_types/structured_data_versions.h:157-158 | a forest whose childless root is replaced by the higher of two orphans |
| `Pruning.DeleteKeepsForest` | src/maidsafe/common/data_types/structured_data_versions.cc:672-708 | deleting a branch keeps the forest and both limits and takes one tip away |
| `Pruning.PruneIsDelete` | include/maidsafe/common/data_types/structured_data_versions.h:180-187 | erasing upwards step by step erases exactly the longest prefix of the branch with single children |
| `Pruning.DeletesUntilFork` | include/maidsafe/common/data_types/structured_data_versions.h:180-187 | what a deletion takes, said of the branch and the declared parents alone |
| `Pruning.PruneLength` | include/maidsafe/common/data_types/structured_data_versions.h:180-187 | that prefix is the longest: every version in it after the tip has one child, the next has not |
| `Stores.WellFormedRepresents` | src/maidsafe/common/data_types/structured_data_versions.cc:115-123 | the mirrored links, tips, orphans and root are determined by declared parents and root |
| `Stores.RepresentsWellFormed` | src/maidsafe/common/data_types/structured_data_versions.cc:115-123 | the structures built from a valid forest are well-formed and give it back |
| `StoreUpdates.ChildrenCount` | src/maidsafe/common/data_types/structured_data_versions.cc:271-272 | the 32-bit cast of a number of children loses nothing |
| `VersionNames.AscendingUnique` | src/maidsafe/common/data_types/structured_data_versions.cc:69-73 | a set of names can be walked in one ascending order only |
| `VersionNames.LessIsNumeric` | src/maidsafe/common/data_types/structured_data_versions.cc:69-73 | names compare as numbers, by index first and identity second |
| `Serialisation.FrontsAreFronts` | src/maidsafe/common/data_types/structured_data_versions.cc:156-168 | what is written are exactly the root and the orphans |
| `Serialisation.FrontsOrdered` | src/maidsafe/common/data_types/structured_data_versions.cc:156-168 | the root is written first and the orphans by absent parent and then by name |
| `Serialisation.SiblingsOrdered` | src/maidsafe/common/data_types/structured_data_versions.cc:266-277 | at a fork the lower of two children is written first |
| `RoundTrip.BranchReadBack` | src/maidsafe/common/data_types/structured_data_versions.cc:175-206 | reading the runs of any tree, at any place in the list, links exactly that tree and consumes exactly its runs |
| `RoundTrip.FrontsReadRepresents` | src/maidsafe/common/data_types/structured_data_versions.cc:208-235 | reading the trees of all fronts yields exactly the structures of the forest |
| `Parsing.ParsedWellFormedIff` | src/maidsafe/common/data_types/structured_data_versions.cc:130-235 | what is read without an error is a well-formed container if and only if all names in the runs are initialised and none is the absent parent of a run that begins a tree |
| `AcceptedRuns.ParsesIff` | src/maidsafe/common/data_types/structured_data_versions.cc:130-235 | runs are accepted if and only if no name occurs twice, no run forks into fewer than two, as many runs follow a fork as it says, every tree but the first names an absent parent, and limits are given and kept |
| `AcceptedRuns.ParsedIs` | src/maidsafe/common/data_types/structured_data_versions.cc:175-235 | what is read, told by the runs: the parent of every name, the root, the orphans and the tips |
| `Parsing.ParsedLimits` | src/maidsafe/common/data_types/structured_data_versions.cc:136-154 | which of the two errors is thrown, and that what is read has the limits written and keeps them |
| `Parsing.ReadingMayNotBeWellFormed` | src/maidsafe/common/data_types/structured_data_versions.cc:208-229 | three runs read without an error in which an orphan waits for a version that is there |
| `RoundTrip.ParseSerialised` | src/maidsafe/common/data_types/structured_data_versions.cc:130-168 | parsing a serialised container yields its limits, links, tips, orphans and root; the parent of the root is kept if it is initialised |
| `Merging.ForestPutsAre` | src/maidsafe/common/data_types/structured_data_versions.cc:282-307 | the puts of a merge are exactly the declared pairs of the container merged |
| `Merging.MergeIsUnion` | src/maidsafe/common/data_types/structured_data_versions.cc:282-307 | a merge without error, refusal or eviction, in which no put breaks the forest, declares the union of both containers, which agree where they overlap |
| `Merging.ApplyOwnSerialised` | src/maidsafe/common/data_types/structured_data_versions.cc:282-307 | applying its own serialised form leaves a container as it is, unless the parent of its root is uninitialised but not the default name |
| `DataBuffer.DataBuffer.Create` | src/maidsafe/common/data_buffer.cc:35-60 | a memory limit above the disk limit is refused |
| `DataBuffer.DataBuffer.WaitForSpaceInMemory` | src/maidsafe/common/data_buffer.cc:154-166 | evicts completed elements from the oldest on until there is room or none is left; a thread that was notified evicts one before it looks for room |
| `DataBuffer.DataBuffer.StoreInMemory` | src/maidsafe/common/data_buffer.cc:128-152 | enters the value if room could be made, otherwise waits, the first time as well as when notified |
| `DataBuffer.DataBuffer.TakeOldest` | src/maidsafe/common/data_buffer.cc:370-384 | the worker takes the first value not yet begun and marks it started |
| `DataBuffer.DataBuffer.FinishCopy` | src/maidsafe/common/data_buffer.cc:388-392 | the worker marks its copy completed if it is still there |
| `DataBuffer.DataBuffer.DeleteFromMemory` | src/maidsafe/common/data_buffer.cc:305-322 | removes the element and says where else it may be |
| `DataBuffer.DataBuffer.DeleteAllFromMemory` | src/maidsafe/common/data_buffer.cc:278-291 | the loop removes exactly the matching elements and their bytes from the counter |
| `DataBuffer.DataBuffer.GetFromMemory` | src/maidsafe/common/data_buffer.cc:239-246 | the value in memory, if and only if the key is there |
| `DataBuffer.DataBuffer.StoreOnDisk` | src/maidsafe/common/data_buffer.cc:168-198 | enters the key, makes room or waits, writes the file and completes the element |
| `DataBuffer.DataBuffer.WaitForSpaceOnDisk` | src/maidsafe/common/data_buffer.cc:200-237 | the loop of the program: pops, waits or gives up, as specified |
| `DataBuffer.DataBuffer.WakeStore` | src/maidsafe/common/data_buffer.cc:230-236 | a store that was notified goes on where it waited |
| `DataBuffer.DataBuffer.RemoveFile` | src/maidsafe/common/data_buffer.cc:343-363 | reads and removes a file and takes its size off the counter |
| `DataBuffer.DataBuffer.DeleteFromDisk` | src/maidsafe/common/data_buffer.cc:324-341 | cancels a started element, removes a completed one and its file, or reports that there is none |
| `DataBuffer.DataBuffer.DeleteAllFromDisk` | src/maidsafe/common/data_buffer.cc:295-302 | removes the matching elements only; their files stay |
| `DataBuffer.DataBuffer.ReadFromDisk` | src/maidsafe/common/data_buffer.cc:247-263 | the value of a file or of a waiting store, or no such element |
| `BufferOrder.MemoryKeepsOrder` | src/maidsafe/common/data_buffer.cc:128-152 | in every run the memory lists its keys in the order in which their values were entered, and holds the values entered last |
| `BufferOrder.TakesEarliest` | src/maidsafe/common/data_buffer.cc:370-384 | in every run the worker takes the earliest entered of the values it has not begun |
| `BufferQueue.PopsInOrder` | src/maidsafe/common/data_buffer.cc:203-224 | with a pop functor and values within the memory limit, the calls of the functor in an orderly run are for entered values, each for another entry, in the order of entry |
| `BufferQueue.CallsAppended` | src/maidsafe/common/data_buffer.cc:203-224 | no step but an entry of its key changes the record of earlier calls of the functor |
| `BufferRoom.EntersMemoryIff` | src/maidsafe/common/data_buffer.cc:128-166 | in every run a value enters the memory if and only if it fits beside the values which have no copy yet |
| `BufferRoom.EvictsOldestFirst` | src/maidsafe/common/data_buffer.cc:467-478 | the completed elements that are evicted are older than those that stay |
| `BufferRoom.EvictsNoMore` | src/maidsafe/common/data_buffer.cc:154-166 | the value of a store that did not wait would not have fitted beside the last element it evicted |
| `BufferRoom.EnteringWaitsIff` | src/maidsafe/common/data_buffer.cc:168-229 | without a pop functor a store that enters the disk waits if and only if its value does not fit beside the bytes there |
| `BufferRoom.WokenWaitsIff` | src/maidsafe/common/data_buffer.cc:203-237 | and goes on waiting when it is woken if and only if it still does not fit and its element has been neither taken nor cancelled |
| `BufferInvariant.StepKeeps` | src/maidsafe/common/data_buffer.cc:115-395 | every lock-held section of every thread keeps the invariant of the two stores, where a value is entered with no element of its key left and the worker not about it |
| `BufferInvariant.RunKeeps` | src/maidsafe/common/data_buffer.cc:115-395 | so does every interleaving of clients and worker that enters its values so |
| `BufferProperties.NothingLost` | src/maidsafe/common/data_buffer.cc:115-237 | in such runs the last value of a key whose Store returned is in memory, in a completed file or was popped, unless a Delete overlapped or followed its Store; a key may be stored any number of times |
| `BufferProperties.Accounting` | src/maidsafe/common/data_buffer.cc:128-198 | in every run both counters stay within their limits; that of the memory is exact, that of the disk counts the bytes of all files, those without an element included, and of files written over |
| `BufferProperties.EvictsOnlyCompleted` | src/maidsafe/common/data_buffer.cc:467-478 | only completed elements are evicted, by a store that waited as well, and their values are in a file or popped unless deleted |
| `BufferProperties.FirstStoreIsOrderly` | src/maidsafe/common/data_buffer.cc:115-126 | the Delete at the start of the first Store of a key changes nothing, and no element of the key is in the way of its value |
| `BufferProperties.OrderlyIff` | src/maidsafe/common/data_buffer.cc:115-126 | only the worker being about the key, or an element of it on disk, can be in the way when its value is entered |
| `BufferRemains.MarkedUnreadableIff` | src/maidsafe/common/data_buffer.cc:365-395 | a value entered in memory with no Delete of its key under way is, in some continuation, marked as copied although it cannot be read from disk if and only if the worker is still about its key or an element of its key is on disk |
| `BufferRemains.EntryReadableIff` | src/maidsafe/common/data_buffer.cc:184-229 | without a pop functor a value that enters the disk can be read there, from its file or while it waits, if and only if no element of its key was there |
| `BufferRemains.DeleteFreesIff` | src/maidsafe/common/data_buffer.cc:324-341 | a Delete frees the bytes of a file of its key if and only if the element found is completed |
| `BufferRemains.LeftFileStays` | src/maidsafe/common/data_buffer.cc:324-341 | a file of a key with no element but cancelled ones stays in every run, whatever is deleted, until the key is stored again |
| `BufferProperties.DeleteNeverFails` | src/maidsafe/common/data_buffer.cc:333-350 | the file of a completed element is always there to be removed |
| `BufferProperties.NeverStuckWithoutPops` | src/maidsafe/common/data_buffer.cc:200-237 | without a pop functor every store on disk goes on, waits or is cancelled |
| `BufferProperties.GetNeverWaits` | src/maidsafe/common/data_buffer.cc:239-263 | when the disk lock is free Get neither waits nor fails to read, and yields only what was stored |
| `BufferProperties.GetFindsStored` | src/maidsafe/common/data_buffer.cc:239-263 | a Get that missed a stored value in memory finds it on disk unless it was deleted or popped meanwhile |
| `BufferProperties.DeletedForGoodIff` | src/maidsafe/common/data_buffer.cc:268-350 | when any Delete returns, no Get finds the key in any continuation until it is stored again, if and only if its value is not in memory then; always so if the Delete began after the value was entered |
| `BufferProperties.GetOfDeletedThrows` | src/maidsafe/common/data_buffer.cc:489-496 | a Get begun after such a Delete throws |
| `BufferProperties.StoreCanBeginIff` | src/maidsafe/common/data_buffer.cc:115-126 | the Delete at the start of a Store has done its work exactly if the key is not in memory when it returns |
| `BufferCases.OverlappingDeleteLeavesValue` | src/maidsafe/common/data_buffer.cc:268-350 | a run in which a Delete overlapping the Store returns and the value can still be read |
| `BufferCases.StoringAgainLosesValue` | src/maidsafe/common/data_buffer.cc:115-126 | a run in which a key is stored again before the copy of its first value has been marked: the second value is evicted and is in no file |
| `BufferCases.LeftFileStopsCopying` | src/maidsafe/common/data_buffer.cc:203-224 | a run with a pop functor after which the worker never goes on: a file left by a predicate Delete takes the room it needs |
| `BufferCases.LeftFileIsCountedTwice` | src/maidsafe/common/data_buffer.cc:192-194 | a run in which the disk counter exceeds the bytes of the files, by storing the key of such a file again |
| `BufferCounters.WriteKeepsAccountingIff` | src/maidsafe/common/data_buffer.cc:184-194 | after writing a file the counter is the bytes of the files if and only if it was before and no file but an empty one is replaced |
| `BufferCases.CancelledElementHidesValue` | src/maidsafe/common/data_buffer.cc:200-229 | a run in which a cancelled copy finds room and leaves its element: with nothing under way, the next value of the key comes to be marked as copied although it cannot be read |
| `BufferCases.CancelledFileStays` | src/maidsafe/common/data_buffer.cc:184-190 | the file of that copy stays whatever is deleted, until the key is stored again |
| `BufferPops.PopsShortestPrefix` | src/maidsafe/common/data_buffer.cc:200-237 | with a pop functor exactly the shortest prefix of the queue that makes room is popped, in order; it suffices if and only if there is room beside files no element accounts for |
| `BufferPops.AllCompleted` | src/maidsafe/common/data_buffer.cc:168-198 | with a pop functor every element is completed and has its file whenever the lock is released |
| `BufferPops.GoesOnIff` | src/maidsafe/common/data_buffer.cc:203-224 | with a pop functor, the worker or any pending store that enters the disk goes on exactly if the value fits beside the bytes counted for no completed element |
| `BufferPops.UnindexedIs` | src/maidsafe/common/data_buffer.cc:192-224 | these are the bytes of files without an element and of files that were written over |
| `BufferPops.PopOrderlyIff` | src/maidsafe/common/data_buffer.cc:115-126 | with a pop functor only the worker can be in the way when a value is entered |
| `BufferPops.NeverStuck` | src/maidsafe/common/data_buffer.cc:200-237 | in any run without predicate Deletes, orderly or not, the worker and every store entering the disk can go on |
| `Indexes.Filtered` | src/maidsafe/common/data_buffer.cc:281-300 | removing by predicate keeps exactly the other elements |
| `LruCache.HasKeyIff` | include/maidsafe/common/containers/lru_cache.h:132-136 | list and map hold the same keys |
| `LruCache.PlaceOfKey` | include/maidsafe/common/containers/lru_cache.h:160-167 | the place kept for a key is that of its one node in the list |
| `LruCache.Moved` | include/maidsafe/common/containers/lru_cache.h:166-167 | moving a node to either end keeps list and map in step and changes nothing but the order |
| `LruCache.LruCache.Add` | include/maidsafe/common/containers/lru_cache.h:171-178 | a known key changes nothing; a new one becomes the newest after the oldest was evicted from a full cache and the expired ones at the front were purged |
| `LruCache.LruCache.PrepareToAdd` | include/maidsafe/common/containers/lru_cache.h:100-112 | makes room and enters the key in the list |
| `LruCache.LruCache.RemoveExpired` | include/maidsafe/common/containers/lru_cache.h:106-108 | the purge terminates and removes exactly the expired elements at the front |
| `LruCache.LruCache.CheckTimeExpired` | include/maidsafe/common/containers/lru_cache.h:124-130 | whether the time of the front plus the time to live is past by a clock read then; never with a time to live of 0 |
| `LruCache.LruCache.RemoveOldestElement` | include/maidsafe/common/containers/lru_cache.h:114-122 | removes the front from list and map |
| `LruCache.LruCache.Get` | include/maidsafe/common/containers/lru_cache.h:160-169 | the value, and the key moves to the back; nothing for an unknown key |
| `LruCache.LruCache.Delete` | include/maidsafe/common/containers/lru_cache.h:180-187 | removes exactly that key |
| `LruCache.LruCache.Size` | include/maidsafe/common/containers/lru_cache.h:94 | the number of keys in the list |
| `RecencyLists.InOrderOfUse` | include/maidsafe/common/containers/lru_cache.h:100-188 | in every run the list is in strict order of last use and without duplicates, so what is evicted is least recently used |
| `RecencyLists.AddRemoves` | include/maidsafe/common/containers/lru_cache.h:100-130 | an Add removes the oldest record only when the cache is full, and no other whose time plus the time to live is not past; with a time to live of 0 none |
| `RecencyLists.AddLeavesFresh` | include/maidsafe/common/containers/lru_cache.h:106-130 | when times are sorted an Add leaves no earlier record whose time plus the time to live is past |
| `RecencyLists.RunLeavesFresh` | include/maidsafe/common/containers/lru_cache.h:100-130 | so it is at every Add of a run whose Gets are of newest records |
| `RecencyLists.FilterSorted` | include/maidsafe/common/containers/lru_cache.h:190-216 | in every run of the filter times are sorted along the list |
| `RecencyLists.FilterPurgesAll` | include/maidsafe/common/containers/lru_cache.h:106-108 | so no key left by a purge had expired when it was last checked |
| `RecencyLists.PurgesAllIff` | include/maidsafe/common/containers/lru_cache.h:116-123 | a purge leaves no expired key, whenever it is done, if and only if the times in the list are sorted |
| `RecencyLists.GetKeepsSortedIff` | include/maidsafe/common/containers/lru_cache.h:166-167 | a Get keeps the times sorted if and only if its record is as new as any, since the time is not renewed |
| `RecencyLists.CacheSorted` | include/maidsafe/common/containers/lru_cache.h:100-190 | in every run of the cache whose Gets are of newest records the times stay sorted |
| `RecencyLists.GetHidesExpired` | include/maidsafe/common/containers/lru_cache.h:166-167 | a run of two Adds and a Get after which a purge stops before an expired key |
| `LockedPages.LockedPageManager.LockRange` | include/maidsafe/common/authentication/detail/safe_allocators.h:68-84 | one more range counts on each page it touches and on no other; the loop terminates below the last page |
| `LockedPages.LockedPageManager.UnlockRange` | include/maidsafe/common/authentication/detail/safe_allocators.h:87-105 | the range no longer counts, and exactly the pages no range touches are unlocked |
| `LockedPages.LockedPageManager.GetLockedPageCount` | include/maidsafe/common/authentication/detail/safe_allocators.h:108-111 | the number of locked pages, which are those some live range touches |
| `LockedPages.TouchesIff` | include/maidsafe/common/authentication/detail/safe_allocators.h:72-74 | the pages between the two masked addresses are those the range touches |
| `LockedPages.WalkEndsIff` | include/maidsafe/common/authentication/detail/safe_allocators.h:75 | the walk over the pages of a range ends if and only if it does not reach the last page |
| `LockedPages.TouchedIff` | include/maidsafe/common/authentication/detail/safe_allocators.h:48-51 | a count is positive exactly if some range touches the page |
| `LockedPages.TouchesAddress` | include/maidsafe/common/authentication/detail/safe_allocators.h:68-84 | a range touches a page exactly if some address of the range lies in it |
| `Pages.PageOfIs` | include/maidsafe/common/authentication/detail/safe_allocators.h:62 | masking an address is subtracting its remainder by the page size |
| `Pages.PowerOfTwoIff` | include/maidsafe/common/authentication/detail/safe_allocators.h:64 | the check made of a page size holds exactly for the powers of two |
| `Hex.Encode` | include/maidsafe/common/encode.h:51-60 | two letters for each byte |
| `Hex.Decode` | src/maidsafe/common/encode.cc:42-54 | one byte for two characters, an error for an odd number |
| `Hex.RoundTrip` | include/maidsafe/common/encode.h:51-60 | decoding inverts encoding on all bytes |
| `Hex.ReencodedIff` | src/maidsafe/common/encode.cc:42-54 | encoding inverts decoding exactly on strings of lower-case digits |
| `Hex.DigitsOfByte` | include/maidsafe/common/encode.h:51-60 | byte i is written as its two digits in the alphabet, the high one first |
| `Hex.ByteOfDigits` | src/maidsafe/common/encode.cc:48-52 | byte i is the number its two characters make in base 16; a character of no digit counts as 0 |
| `Base64.Encode` | include/maidsafe/common/encode.h:90-126 | the groups of section 4 of RFC 4648, four characters for every three bytes begun |
| `Base64.Decode` | src/maidsafe/common/encode.cc:72-126 | decodes by groups although the accumulator is never cleared; misplaced padding, other characters and other lengths are errors |
| `Base64.DecodeGroup` | src/maidsafe/common/encode.cc:91-123 | what is left in the accumulator from earlier groups does not change the bytes of a group |
| `Base64.RoundTrip` | src/maidsafe/common/encode.cc:72-126 | decoding inverts encoding on every sequence of bytes |
| `Base64.EncodedSize` | include/maidsafe/common/encode.h:93-94 | the length of the encoding |
| `Base64.ReencodedIff` | src/maidsafe/common/encode.cc:103-117 | encoding inverts decoding exactly when the padding is whole and leaves no bits set |
| `Base64.DigitsOfGroup` | include/maidsafe/common/encode.h:96-108 | three bytes are written as the four digits in base 64 of the number they make, in the letters of RFC 4648 |
| `Base64.DigitsOfTail` | include/maidsafe/common/encode.h:109-125 | one or two bytes left are written with zeros for the missing bits and equals signs |
| `Base64.DecodesIff` | src/maidsafe/common/encode.cc:72-126 | what can be decoded, character by character: digits up to the last two, padding at the end only |
| `Base64.BytesOfDigits` | src/maidsafe/common/encode.cc:91-123 | four digits are read as the three bytes of the number they make |
| `Base64.BytesOfPadding` | src/maidsafe/common/encode.cc:103-112 | a padded group is read as the one or two bytes whose bits are all there |
| `Identities.CloserToTarget` | src/maidsafe/common/identity.cc:32-42 | the byte-wise comparison is that of the two distances as big-endian numbers; an error for uninitialised identities |
| `Identities.EquallyFarIff` | src/maidsafe/common/identity.cc:32-42 | different identities are never equally far, so closeness is a strict total order |
| `Identities.DistanceIsMetric` | src/maidsafe/common/identity.cc:36-37 | the exclusive or is a metric |
| `Identities.DistanceIs` | src/maidsafe/common/identity.cc:32-42 | the distance is the exclusive or of the two identities as base-256 numbers |
| `Identities.DistanceFromZeros` | src/maidsafe/common/identity.cc:32-42 | the distance from zeros is the identity as a base-256 number |
| `Identities.BitOfByte` | src/maidsafe/common/identity.cc:44-59 | bit j of byte i is that of weight 2^(7 - j) |
| `Identities.CommonLeadingBitsIff` | src/maidsafe/common/identity.cc:44-59 | an error exactly for uninitialised identities; otherwise k leading bits in common mean that the first k bits are the same |
| `Identities.CommonBitsBound` | src/maidsafe/common/identity.cc:44-59 | and that the distance is below the matching power of two |
| `Identities.MoreCommonIsCloser` | src/maidsafe/common/identity.cc:32-59 | more leading bits in common with the target is closer to it |
| `Identities.CommonBitsUltrametric` | src/maidsafe/common/identity.cc:44-59 | two identities share at least the bits both share with a third |
| `BinaryIdentities.Encode` | src/maidsafe/common/identity.cc:65-75 | the bits of an identity, eight for each byte |
| `BinaryIdentities.MakeIdentity` | src/maidsafe/common/identity.cc:97-109 | accepts a string of zeros and ones exactly from 504 characters on, and says what it makes of it |
| `BinaryIdentities.RoundTrip` | src/maidsafe/common/identity.cc:65-109 | an identity is made again from its binary form |
| `BinaryIdentities.ReencodedIff` | src/maidsafe/common/identity.cc:97-109 | an accepted string is the binary form of what is made from it exactly if it has 512 characters |
| `BinaryIdentities.DigitOfByte` | src/maidsafe/common/identity.cc:65-75 | character 8i + j is the bit of byte i of weight 2^(7 - j) |
| `BinaryIdentities.MadeIs` | src/maidsafe/common/identity.cc:97-109 | every byte made is the number its eight characters are in base 2, the last one that of the characters left |
| `BinaryIdentities.AcceptedIff` | src/maidsafe/common/identity.cc:97-109 | a string is accepted exactly if it has 504 characters and the first 512 are zeros and ones |
| `BinaryIdentities.ShortStringAccepted` | include/maidsafe/common/identity.h:80 | a string eight characters short is accepted, its last byte read as zero, although the documentation promises an error |
| `TcpConnection.Connection.EncodeData` | src/maidsafe/common/tcp/connection.cc:193-205 | the size of a message as four bytes, the highest first, before its data; exactly empty messages and those above 2^20 bytes are errors |
| `TcpConnection.Connection.RunPostedSend` | src/maidsafe/common/tcp/connection.cc:163-168 | queues a message and starts a write unless one is going on |
| `TcpConnection.Connection.OnWritten` | src/maidsafe/common/tcp/connection.cc:177-190 | a completed write leaves the queue and starts the next one; after a failure none is started |
| `TcpConnection.Connection.OnSizeRead` | src/maidsafe/common/tcp/connection.cc:121-136 | four bytes are read as a size, the highest first; it decides how much is read next, or closes the connection if it is 0 or above 2^20 |
| `TcpConnection.Connection.OnDataRead` | src/maidsafe/common/tcp/connection.cc:151-156 | a message is delivered and the next size is read |
| `Framing.SizeReadBack` | src/maidsafe/common/tcp/connection.cc:121-127 | the receiver reads every size below 2^32 as it was sent |
| `Framing.SizeBufferIs` | src/maidsafe/common/tcp/connection.cc:200-201 | the four bytes of a size weigh 2^24, 2^16, 2^8 and 1, in this order |
| `Framing.BufferReadBack` | src/maidsafe/common/tcp/connection.cc:200-201 | and every four bytes are those of the size they carry |
| `Connections.StreamIsPrefix` | src/maidsafe/common/tcp/connection.cc:160-191 | the bytes written are a prefix of the frames of all messages in the order they were posted |
| `Connections.NextFrame` | src/maidsafe/common/tcp/connection.cc:110-158 | at the end of a delivered frame the stream goes on with the size and data of the next message |
| `Connections.EveryRun` | src/maidsafe/common/tcp/connection.cc:110-191 | in every run at most one write is in flight, that of the front of the queue, and the messages delivered are a prefix of those sent |
| `Connections.AllDelivered` | src/maidsafe/common/tcp/connection.cc:110-191 | when neither end can go on and no write has failed, every message has been delivered |

## Left out

- StructuredDataVersions.StructuredDataVersions.Put: requires that the outcome is defined and that the forest is not broken, as described above; the program does not check this.
- StructuredDataVersions.StructuredDataVersions.Parse: requires that every run has a name, since the program reads the first name of a run without a check; the bytes written by the serialisation library are not part of this model, a serialised container is its list of runs.
- StructuredDataVersions.StructuredDataVersions.ApplySerialised: requires a container that is not empty, since the program dereferences an end iterator otherwise, and that the parsed container is well-formed (`ParsedWellFormedIff` says when it is).
- `swap` of two containers and the fix-up of end iterators after it: a plain exchange of values, as the merge needs it; lines 760 and 764 compare where they seem meant to assign, which this does not model.
- BufferProperties.NothingLost: holds in orderly runs; in others a value can be lost (`MarkedUnreadableIff`, `StoringAgainLosesValue`, `CancelledElementHidesValue`).
- BufferInvariant.RunKeeps: orderly runs only, for the same reason.
- Two Stores of one key at the same time: a Store of a key begins when the one before has returned. After a value was entered out of order, the model follows some of the interleavings only: the next Store of the key begins once it cannot be read, and a Store that waits on disk for a key the worker is about does not go on.
- The data buffer after it has stopped running: storing a value above the disk limit ends a run; disk errors, the destructor and changing the limits at run time are not part of this model.
- BufferQueue.PopsInOrder: orderly runs, and values within the memory limit only; a larger value goes to the disk at once, past older ones which still wait in memory.
- BufferPops.NeverStuck: does not cover predicate Deletes; `GoesOnIff` gives the exact condition with them, in orderly runs.
- LruCache.LruCache.Add: requires a capacity of at least 1, since the program would remove from an empty list otherwise. The filter is the same class used through `Add` and `Check` only.
- LockedPages.LockedPageManager.LockRange: requires that the range does not reach the last page, where the loop does not end (`WalkEndsIff`); the result of the locking call is ignored, as in the program, and counts are unbounded.
- Hex.Decode: requires characters up to the letter f, since the program reads beyond its table otherwise.
- Identities.CommonLeadingBits: the table of 256 by 256 entries is taken to hold the number of equal leading bits of two bytes.
- Making identities from hex or base64 strings: decoding and then a length check.
- TcpConnection.Connection: connecting, closing and the first call of Start; a read returns exactly the bytes asked for, and a failed read ends the receiving side.
- Encryption, secret sharing, RSA, SQLite and the boost archives: calls into libraries which are not part of this model.
- SipHash: a fixed sequence of additions and rotations, with no second form to compare it to.
- Active objects, `SafeQueue`, logging, menus, command lines, processes, version strings and error codes: no state beyond a queue or a table.
