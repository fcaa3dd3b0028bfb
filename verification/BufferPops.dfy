/** Making room on disk with a pop functor: oldest first, no more than needed, and always possible. */
module BufferPops {
  import opened Indexes
  import opened BufferSections
  import opened BufferEffects
  import opened BufferRuns
  import opened BufferInvariant
  import opened BufferCounters
  import opened BufferProperties

  /** A disk on which a store of k has just entered its key: the others are completed and have files. */
  ghost predicate Queued(d: Disk, k: Key) {
    && DiskSound(d) && d.index != [] && d.index[|d.index| - 1] == Element(k, Started)
    && forall i | 0 <= i < |d.index| - 1 :: d.index[i].item == Completed && d.index[i].key in d.files
  }

  ghost function PairsOf(index: Index<StoringState>, files: map<Key, Value>): seq<(Key, Value)>
    requires forall i | 0 <= i < |index| :: index[i].key in files
  {
    seq(|index|, i requires 0 <= i < |index| => (index[i].key, files[index[i].key]))
  }

  /** The disk after its n oldest elements were handed to the pop functor, in order. */
  ghost function AfterPops(d: Disk, n: nat): Disk
    requires n < |d.index| && forall i | 0 <= i < |d.index| - 1 :: d.index[i].key in d.files
  {
    var files := d.files - Keys(d.index[..n]);
    d.(index := d.index[n..], files := files, usage := d.usage - (FileSize(d.files) - FileSize(files)),
       popped := d.popped + PairsOf(d.index[..n], d.files))
  }

  /** The files of completed elements. */
  ghost function Indexed(d: Disk): map<Key, Value> {
    map x | x in d.files && Element(x, Completed) in d.index :: d.files[x]
  }

  /** The bytes counted for anything else. */
  ghost function Unindexed(d: Disk): int {
    d.usage - FileSize(Indexed(d))
  }

  lemma {:induction false} FileSizeSplit(files: map<Key, Value>, keys: set<Key>)
    ensures FileSize(files) == FileSize(files - keys) + FileSize(map x | x in files && x in keys :: files[x])
    decreases |files|
  {
    hide FileSize;
    var those := map x | x in files && x in keys :: files[x];
    if k :| k in files && k in keys {
      FileSizeWithout(files, k);
      FileSizeWithout(those, k);
      FileSizeSplit(files - {k}, keys);
      assert files - {k} - keys == files - keys;
      assert (map x | x in files - {k} && x in keys :: (files - {k})[x]) == those - {k};
    } else {
      assert files - keys == files && those == map[];
      NoFiles();
    }
  }

  lemma NoFiles()
    ensures FileSize(map[]) == 0
  {
  }

  lemma QueuedNext(d: Disk, k: Key)
    requires Queued(d, k) && |d.index| > 1
    ensures CanPop(d) && Queued(PopOldest(d), k)
  {
    var x, e := d.index[0].key, PopOldest(d);
    PopOldestEffect(d, x);
    hide FileSize, View, PoppedAt, SameAt;
    forall i | 0 <= i < |e.index| - 1 ensures e.index[i].item == Completed && e.index[i].key in e.files {
      assert e.index[i] == d.index[i + 1];
    }
  }

  lemma UnindexedNext(d: Disk)
    requires CanPop(d) && Distinct(d.index)
    ensures Unindexed(PopOldest(d)) == Unindexed(d)
  {
    var x, e := d.index[0].key, PopOldest(d);
    assert d.index == [d.index[0]] + e.index;
    assert d.index[0] == Element(x, Completed);
    assert Element(x, Completed) !in e.index by {
      assert forall i | 0 <= i < |e.index| :: e.index[i] == d.index[i + 1];
    }
    assert Indexed(e) == Indexed(d) - {x};
    FileSizeWithout(Indexed(d), x);
  }

  lemma PrefixOfPop(d: Disk, n: nat)
    requires d.index != [] && n < |d.index| - 1 && Distinct(d.index)
    requires forall i | 0 <= i < |d.index| - 1 :: d.index[i].key in d.files
    ensures var e := PopOldest(d);
            && (forall i | 0 <= i < n :: e.index[i].key in e.files)
            && e.files - Keys(e.index[..n]) == d.files - Keys(d.index[..n + 1])
            && [(d.index[0].key, d.files[d.index[0].key])] + PairsOf(e.index[..n], e.files) == PairsOf(d.index[..n + 1], d.files)
  {
    var e := PopOldest(d);
    assert d.index[..n + 1] == [d.index[0]] + e.index[..n];
    KeysOfJoined([d.index[0]], e.index[..n]);
    hide Keys;
    forall i | 0 <= i < n ensures e.index[i].key in e.files && e.index[i] == d.index[i + 1] {
    }
  }

  lemma PopsCompose(d: Disk, n: nat)
    requires d.index != [] && n < |d.index| - 1 && Distinct(d.index)
    requires forall i | 0 <= i < |d.index| - 1 :: d.index[i].key in d.files
    ensures forall i | 0 <= i < |PopOldest(d).index| - 1 :: PopOldest(d).index[i].key in PopOldest(d).files
    ensures AfterPops(PopOldest(d), n) == AfterPops(d, n + 1)
  {
    hide FileSize, Keys;
    var e := PopOldest(d);
    FileSizeWithout(d.files, d.index[0].key);
    forall i | 0 <= i < |e.index| - 1 ensures e.index[i].key in e.files {
      assert e.index[i] == d.index[i + 1];
    }
    assert e.index[n..] == d.index[n + 1..];
    PrefixOfPop(d, n);
  }

  lemma NoPops(d: Disk)
    requires d.index != [] && forall i | 0 <= i < |d.index| - 1 :: d.index[i].key in d.files
    ensures AfterPops(d, 0) == d
  {
    assert d.index[..0] == [] && Keys(d.index[..0]) == {} && d.files - {} == d.files;
    assert PairsOf(d.index[..0], d.files) == [];
    assert d.popped + [] == d.popped;
  }

  /** The least number of pops that makes room, if any does. */
  ghost predicate ShortestPops(d: Disk, required: nat, n: nat)
    requires d.index != [] && required <= d.max && forall i | 0 <= i < |d.index| - 1 :: d.index[i].key in d.files
  {
    && n < |d.index| && HasSpace(d.max, AfterPops(d, n).usage, required)
    && forall j | 0 <= j < n :: !HasSpace(d.max, AfterPops(d, j).usage, required)
  }

  lemma OneMorePop(d: Disk, k: Key, required: nat, n: nat)
    requires Queued(d, k) && |d.index| > 1 && required <= d.max && !HasSpace(d.max, d.usage, required)
    requires Queued(PopOldest(d), k) && ShortestPops(PopOldest(d), required, n)
    ensures ShortestPops(d, required, n + 1) && AfterPops(d, n + 1) == AfterPops(PopOldest(d), n)
  {
    hide FileSize, View, Keys, PairsOf;
    NoPops(d);
    PopsCompose(d, n);
    forall j | 0 <= j < n + 1 ensures !HasSpace(d.max, AfterPops(d, j).usage, required) {
      if j > 0 {
        PopsCompose(d, j - 1);
      }
    }
  }

  /**
   Storing pops exactly the shortest prefix of the queue that makes room.  It succeeds if and only
   if there is room beside the bytes which no completed element accounts for; otherwise it would
   reach its own, started, element.
   */
  lemma {:induction false} PopsShortestPrefix(d: Disk, k: Key, v: Value)
    requires Queued(d, k) && |v| <= d.max
    ensures var r := WaitForSpaceOnDisk(d, k, v, true);
            && (Unindexed(d) + |v| <= d.max <==> r.Room?)
            && (Unindexed(d) + |v| > d.max <==> r.Stuck?)
            && (r.Room? ==> exists n: nat :: ShortestPops(d, |v|, n) && r.disk == AfterPops(d, n))
    decreases |d.index|
  {
    hide FileSize, View, Keys, PairsOf, AfterPops, Unindexed, Indexed, Queued, PopOldest, WaitForSpaceOnDisk;
    OnlyUnindexedLeft(d, k);
    QueuedWaits(d, k, v);
    if HasSpace(d.max, d.usage, |v|) {
      NoneNeeded(d, |v|);
    } else if |d.index| > 1 {
      QueuedNext(d, k);
      QueuedSays(d, k);
      UnindexedNext(d);
      PopsShortestPrefix(PopOldest(d), k, v);
      if Unindexed(d) + |v| <= d.max {
        QueuedSays(PopOldest(d), k);
        var n: nat :| ShortestPops(PopOldest(d), |v|, n) && WaitForSpaceOnDisk(PopOldest(d), k, v, true).disk == AfterPops(PopOldest(d), n);
        OneMorePop(d, k, |v|, n);
      }
    }
  }

  lemma QueuedSays(d: Disk, k: Key)
    requires Queued(d, k)
    ensures d.index != [] && Distinct(d.index) && forall i | 0 <= i < |d.index| - 1 :: d.index[i].key in d.files
  {
  }

  lemma NoneNeeded(d: Disk, required: nat)
    requires d.index != [] && required <= d.max && HasSpace(d.max, d.usage, required)
    requires forall i | 0 <= i < |d.index| - 1 :: d.index[i].key in d.files
    ensures ShortestPops(d, required, 0) && AfterPops(d, 0) == d
  {
    NoPops(d);
  }

  /** One turn of the loop: there is room, or the oldest element is popped, or it is the store's own. */
  lemma {:induction false} QueuedWaits(d: Disk, k: Key, v: Value)
    requires Queued(d, k) && |v| <= d.max
    ensures d.index != [] && forall i | 0 <= i < |d.index| - 1 :: d.index[i].key in d.files
    ensures HasSpace(d.max, d.usage, |v|) ==> WaitForSpaceOnDisk(d, k, v, true) == Room(d)
    ensures !HasSpace(d.max, d.usage, |v|) ==>
              if |d.index| == 1 then WaitForSpaceOnDisk(d, k, v, true).Stuck?
              else CanPop(d) && |PopOldest(d).index| < |d.index| && PopOldest(d).max == d.max
                   && WaitForSpaceOnDisk(d, k, v, true) == WaitForSpaceOnDisk(PopOldest(d), k, v, true)
  {
    ViewAt(d.index, |d.index| - 1);
  }

  /** What is not accounted for is never more than all there is, and all there is once the queue is popped. */
  lemma OnlyUnindexedLeft(d: Disk, k: Key)
    requires Queued(d, k)
    ensures Unindexed(d) <= d.usage && (|d.index| == 1 ==> Unindexed(d) == d.usage)
  {
    if |d.index| == 1 {
      assert Indexed(d) == map[];
    }
  }

  // ---------------------------------------------------------------- in a run

  /** With a pop functor, every element is completed and has its file whenever the disk lock is released. */
  lemma AllCompleted(s: State, i: nat)
    requires Inv(s) && s.hasPop && i < |s.disk.index|
    ensures s.disk.index[i].item == Completed && s.disk.index[i].key in s.disk.files
  {
    ViewAt(s.disk.index, i);
    assert KeyOk(s, s.disk.index[i].key);
  }

  /** A store of k which may enter the disk next. */
  ghost predicate EntersNext(s: State, k: Key) {
    k in s.pending || (s.worker.Entering? && s.worker.key == k)
  }

  lemma OthersCompleted(s: State, k: Key, d: Disk)
    requires Inv(s) && s.hasPop && d == s.disk.(popped := d.popped)
    ensures var e := EnterDisk(d, k);
            forall i | 0 <= i < |e.index| - 1 :: e.index[i].item == Completed && e.index[i].key in e.files
  {
    hide Inv;
    var e := EnterDisk(d, k);
    forall i | 0 <= i < |e.index| - 1 ensures e.index[i].item == Completed && e.index[i].key in e.files {
      AllCompleted(s, i);
    }
  }

  lemma UnindexedOnEnter(d: Disk, e: Disk, k: Key)
    requires e.files == d.files && e.usage == d.usage && e.index == d.index + [Element(k, Started)]
    ensures Unindexed(e) == Unindexed(d)
  {
    assert Indexed(e) == Indexed(d);
  }

  lemma EntersClean(s: State, k: Key)
    requires Inv(s) && s.hasPop && EntersNext(s, k)
    ensures DiskSound(s.disk) && k !in Keys(s.disk.index)
  {
    assert KeyOk(s, k);
  }

  lemma QueuedOnEnter(s: State, k: Key, d: Disk)
    requires Inv(s) && s.hasPop && EntersNext(s, k) && d == s.disk.(popped := d.popped)
    ensures Queued(EnterDisk(d, k), k) && Unindexed(EnterDisk(d, k)) == Unindexed(s.disk)
  {
    hide Inv, View, Keys, Distinct, FileSize, Unindexed, EntersNext;
    EntersClean(s, k);
    OthersCompleted(s, k, d);
    EnterEffect(d, k);
    UnindexedOnEnter(s.disk, EnterDisk(d, k), k);
  }

  /** In a run these are the bytes of files without an element, and of those that were written over. */
  lemma UnindexedIs(s: State)
    requires Reachable(s) && s.hasPop
    ensures Unindexed(s.disk) == FileSize(s.disk.files - Keys(s.disk.index)) + s.disk.overwritten
  {
    ReachableInv(s);
    ReachablePossible(s);
    Accounting(s);
    var d := s.disk;
    FileSizeSplit(d.files, Keys(d.index));
    forall x ensures x in d.files && x in Keys(d.index) <==> x in Indexed(d) {
      if x in d.files && x in Keys(d.index) {
        var i :| 0 <= i < |d.index| && d.index[i].key == x;
        AllCompleted(s, i);
        assert d.index[i] == Element(x, Completed);
      }
      if x in Indexed(d) {
        var i :| 0 <= i < |d.index| && d.index[i] == Element(x, Completed);
      }
    }
    assert Indexed(d) == map x | x in d.files && x in Keys(d.index) :: d.files[x];
  }

  lemma GoesOnWithRoom(s: State, k: Key, d: Disk, v: Value)
    requires Inv(s) && s.hasPop && EntersNext(s, k) && d == s.disk.(popped := d.popped) && |v| <= s.disk.max
    ensures GoesOn(EnterDisk(d, k), k, v, true) <==> Unindexed(s.disk) + |v| <= s.disk.max
  {
    QueuedOnEnter(s, k, d);
    hide Inv, Queued, Unindexed, StoreOnDisk;
    PopsShortestPrefix(EnterDisk(d, k), k, v);
    StuckIff(EnterDisk(d, k), k, v);
  }

  lemma {:induction false} StuckIff(d: Disk, k: Key, v: Value)
    requires |v| <= d.max
    ensures StoreOnDisk(d, k, v, true).Stuck? <==> WaitForSpaceOnDisk(d, k, v, true).Stuck?
  {
  }

  /** With a pop functor a store that enters the disk goes on if and only if it has room beside those bytes. */
  lemma GoesOnIff(s: State, k: Key)
    requires Reachable(s) && s.hasPop && s.running
    ensures s.worker.Entering? ==> (Enabled(s, EnterCopy) <==> Unindexed(s.disk) + |s.worker.value| <= s.disk.max)
    ensures k in s.pending && DiskFree(s) && s.memory.max < |s.pending[k]| <= s.disk.max ==>
              (Enabled(s, EnterStore(k)) <==> Unindexed(s.disk) + |s.pending[k]| <= s.disk.max)
  {
    ReachableInv(s);
    if s.worker.Entering? {
      assert KeyOk(s, s.worker.key);
      GoesOnWithRoom(s, s.worker.key, s.disk, s.worker.value);
    } else if k in s.pending && |s.pending[k]| <= s.disk.max {
      GoesOnWithRoom(s, k, Renewed(s.disk, k), s.pending[k]);
    }
  }

  /** With a pop functor a value is entered in order exactly if the worker is not about its key. */
  lemma PopOrderlyIff(s: State, k: Key)
    requires Reachable(s) && s.hasPop && k in s.pending
    ensures Fresh(s, k) <==> !s.worker.IsAbout(k)
  {
    ReachableInv(s);
    assert KeyOk(s, k);
  }

  // ---------------------------------------------------------------- runs without predicate Deletes

  ghost predicate EntersDisk(s: State, k: Key) {
    s.worker.Entering? && s.worker.key == k
  }

  /** A value of k which has not been copied has nothing of k on disk, nor has its Store while it waits. */
  ghost predicate TidyKey(s: State, k: Key) {
    && (k in s.disk.files <==> k in View(s.disk.index)) && (k in View(s.disk.index) ==> View(s.disk.index)[k] == Completed)
    && (k in s.pending ==> k !in View(s.memory.index) && k !in View(s.disk.index) && !EntersDisk(s, k))
    && (k in View(s.memory.index) ==> |View(s.memory.index)[k].value| <= s.memory.max)
    && (k in View(s.memory.index) && View(s.memory.index)[k].alsoOnDisk == NotStarted ==>
          k !in View(s.disk.index) && k !in PoppedKeys(s.disk.popped) && !EntersDisk(s, k))
    && (EntersDisk(s, k) ==> k !in View(s.disk.index) && k !in PoppedKeys(s.disk.popped))
  }

  /** No file was written over, no store waits for space on disk, and no predicate Delete is under way. */
  ghost predicate TidyState(s: State) {
    && s.hasPop && MemorySound(s.memory) && DiskSound(s.disk) && s.memory.max <= s.disk.max
    && s.disk.overwritten == 0 && s.disk.moving == map[] && !s.worker.Copying?
    && (s.worker.Entering? ==> |s.worker.value| <= s.memory.max)
    && forall c | c in s.calls :: !s.calls[c].DeletingAll?
  }

  ghost predicate Tidy(s: State) {
    TidyState(s) && forall k {:trigger TidyKey(s, k)} :: TidyKey(s, k)
  }

  lemma BeginStoreTidy(s: State, k: Key, v: Value, x: Key)
    requires TidyState(s) && TidyKey(s, x) && Enabled(s, BeginStore(k, v))
    ensures TidyState(Next(s, BeginStore(k, v))) && TidyKey(Next(s, BeginStore(k, v)), x)
  {
    DiskSays(s.disk, k);
    hide View, Keys, PoppedKeys, GetFromDisk, Distinct;
  }

  lemma TakeTidy(s: State, x: Key)
    requires TidyState(s) && TidyKey(s, x) && Enabled(s, Take)
    requires TidyKey(s, s.memory.index[FirstIn(s.memory.index, NotStarted)].key)
    ensures TidyState(Next(s, Take)) && TidyKey(Next(s, Take), x)
  {
    hide View, Keys, PoppedKeys, Distinct;
    MarkEffect(s.memory, FirstIn(s.memory.index, NotStarted), Started);
  }

  lemma FinishCopyTidy(s: State, x: Key)
    requires TidyState(s) && TidyKey(s, x) && Enabled(s, FinishCopy)
    ensures TidyState(Next(s, FinishCopy)) && TidyKey(Next(s, FinishCopy), x)
  {
    hide View, Keys, PoppedKeys, Distinct, MarkCompleted;
    MarkCompletedEffect(s.memory, s.worker.key);
  }

  lemma BeginDeleteTidy(s: State, c: nat, k: Key, x: Key)
    requires TidyState(s) && TidyKey(s, x) && Enabled(s, BeginDelete(c, k))
    ensures TidyState(Next(s, BeginDelete(c, k))) && TidyKey(Next(s, BeginDelete(c, k)), x)
  {
    hide View, Keys, PoppedKeys, Distinct, DeleteFromMemory, AlsoOnDisk;
    DeleteFromMemoryEffect(s.memory, k);
  }

  lemma EndDeleteTidy(s: State, c: nat, x: Key)
    requires TidyState(s) && TidyKey(s, x) && Enabled(s, EndDelete(c)) && TidyKey(s, s.calls[c].key)
    ensures TidyState(Next(s, EndDelete(c))) && TidyKey(Next(s, EndDelete(c)), x)
  {
    hide View, Keys, PoppedKeys, Distinct, DeleteFromDisk, Removable;
    DeleteFromDiskEffect(s.disk, s.calls[c].key);
  }

  lemma RecordedCalls(s: State, k: Key)
    requires k in s.pending
    ensures forall c | c in Recorded(s, k).calls :: c in s.calls && Recorded(s, k).calls[c].DeletingAll? == s.calls[c].DeletingAll?
    ensures PoppedKeys(Recorded(s, k).disk.popped) == PoppedKeys(s.disk.popped) - {k}
  {
    OthersPoppedAre(s.disk.popped, k);
    hide PendingDelete, OthersPopped, PoppedOf, PoppedKeys;
  }

  lemma EnterMemoryTidy(s: State, k: Key, x: Key)
    requires TidyState(s) && TidyKey(s, x) && TidyKey(s, k) && Enabled(s, EnterStore(k)) && |s.pending[k]| <= s.memory.max
    ensures TidyState(EnterStoreState(s, k)) && TidyKey(EnterStoreState(s, k), x)
  {
    hide View, Keys, PoppedKeys, Distinct, StoreInMemory, EntersMemory, OthersPopped, PoppedOf, PendingDelete;
    StoreInMemoryEffect(s.memory, k, s.pending[k], k in s.waiting, x);
    RecordedCalls(s, k);
  }

  /** What a store of k does on a disk where there is nothing of k. */
  lemma StoreTidy(d: Disk, k: Key, v: Value, x: Key)
    requires DiskSound(d) && |v| <= d.max && d.moving == map[] && k !in View(d.index) && k !in PoppedKeys(d.popped)
    requires GoesOn(EnterDisk(d, k), k, v, true)
    ensures var e := StoreOnDisk(EnterDisk(d, k), k, v, true).disk;
            && DiskSound(e) && e.moving == map[] && e.max == d.max
            && (x == k ==> x in e.files && x in View(e.index) && View(e.index)[x] == Completed)
            && (x != k ==> SameAt(d, e, x) || PoppedAt(d, e, x))
    ensures StoreOnDisk(EnterDisk(d, k), k, v, true).Room?
  {
    hide StoreOnDisk, Keys, PoppedKeys, Distinct, View;
    EnterEffect(d, k);
    var f, y := EnterDisk(d, k), if x == k then k.(typeId := k.typeId + 1) else x;
    StoreOnDiskOwn(f, k, v, true);
    StoreOnDiskElse(f, k, v, true, y);
  }

  lemma {:induction false} NothingOverwritten(d: Disk, k: Key, v: Value, hasPop: bool)
    requires |v| <= d.max && k !in d.files && !StoreOnDisk(d, k, v, hasPop).Stuck?
    ensures StoreOnDisk(d, k, v, hasPop).disk.overwritten == d.overwritten
    decreases |d.index|
  {
    if !HasSpace(d.max, d.usage, |v|) && hasPop && CanPop(d) {
      NothingOverwritten(PopOldest(d), k, v, hasPop);
    }
  }

  lemma EnterDiskTidy(s: State, k: Key, x: Key)
    requires TidyState(s) && TidyKey(s, x) && TidyKey(s, k) && Enabled(s, EnterStore(k)) && |s.pending[k]| > s.memory.max
    ensures TidyState(EnterStoreState(s, k)) && TidyKey(EnterStoreState(s, k), x)
  {
    var v := s.pending[k];
    RecordedCalls(s, k);
    hide View, Keys, PoppedKeys, Distinct, StoreOnDisk, OthersPopped, PoppedOf, PendingDelete;
    if |v| <= s.disk.max {
      StoreTidy(Renewed(s.disk, k), k, v, x);
      NothingOverwritten(EnterDisk(Renewed(s.disk, k), k), k, v, true);
    }
  }

  lemma EnterCopyTidy(s: State, x: Key)
    requires TidyState(s) && TidyKey(s, x) && Enabled(s, EnterCopy) && TidyKey(s, s.worker.key)
    ensures TidyState(Next(s, EnterCopy)) && TidyKey(Next(s, EnterCopy), x)
  {
    hide View, Keys, PoppedKeys, Distinct, StoreOnDisk;
    StoreTidy(s.disk, s.worker.key, s.worker.value, x);
    NothingOverwritten(EnterDisk(s.disk, s.worker.key), s.worker.key, s.worker.value, true);
  }

  lemma StepKeepsTidyKey(s: State, a: Step, x: Key)
    requires Tidy(s) && Enabled(s, a) && !a.BeginDeleteAll?
    ensures TidyState(Next(s, a)) && TidyKey(Next(s, a), x)
  {
    assert TidyKey(s, x);
    hide TidyKey;
    match a
    case BeginStore(k, v) => BeginStoreTidy(s, k, v, x);
    case EnterStore(k) =>
      assert TidyKey(s, k);
      if |s.pending[k]| <= s.memory.max {
        EnterMemoryTidy(s, k, x);
      } else {
        EnterDiskTidy(s, k, x);
      }
    case Take =>
      assert TidyKey(s, s.memory.index[FirstIn(s.memory.index, NotStarted)].key);
      TakeTidy(s, x);
    case EnterCopy =>
      assert TidyKey(s, s.worker.key);
      EnterCopyTidy(s, x);
    case FinishCopy => FinishCopyTidy(s, x);
    case BeginDelete(c, k) => BeginDeleteTidy(s, c, k, x);
    case EndDelete(c) =>
      assert TidyKey(s, s.calls[c].key);
      EndDeleteTidy(s, c, x);
    case BeginGet(c, k) => CallsAsideTidy(s, Next(s, a), x);
    case EndGet(c) => CallsAsideTidy(s, Next(s, a), x);
    case _ =>
  }

  lemma CallsAsideTidy(s: State, t: State, x: Key)
    requires TidyKey(s, x) && t == s.(calls := t.calls)
    ensures TidyKey(t, x)
  {
  }

  lemma {:induction false} RunKeepsTidy(s: State, steps: seq<Step>)
    requires Tidy(s) && IsRun(s, steps) && forall a | a in steps :: !a.BeginDeleteAll?
    ensures Tidy(After(s, steps))
    decreases |steps|
  {
    if steps != [] {
      assert steps[0] in steps;
      hide Next, Enabled, TidyState, TidyKey;
      forall x ensures TidyState(Next(s, steps[0])) && TidyKey(Next(s, steps[0]), x) {
        StepKeepsTidyKey(s, steps[0], x);
      }
      StepKeepsTidyKey(s, steps[0], Key([], 0));
      RunKeepsTidy(Next(s, steps[0]), steps[1..]);
    }
  }

  /** Without predicate Deletes, storing on disk always goes on, whatever the clients do. */
  lemma {:induction false} NeverStuck(maxMemory: nat, maxDisk: nat, steps: seq<Step>, k: Key)
    requires maxMemory <= maxDisk && IsRun(Initial(maxMemory, maxDisk, true), steps)
    requires forall a | a in steps :: !a.BeginDeleteAll?
    ensures var s := After(Initial(maxMemory, maxDisk, true), steps);
            && (s.running && s.worker.Entering? ==> Enabled(s, EnterCopy))
            && (s.running && DiskFree(s) && k in s.pending ==> Enabled(s, EnterStore(k)))
  {
    var s0 := Initial(maxMemory, maxDisk, true);
    InitialTidy(maxMemory, maxDisk);
    RunKeepsTidy(s0, steps);
    RunCounts(s0, steps);
    TidyEnabled(After(s0, steps), k);
  }

  lemma InitialTidy(maxMemory: nat, maxDisk: nat)
    requires maxMemory <= maxDisk
    ensures Tidy(Initial(maxMemory, maxDisk, true)) && Counted(Initial(maxMemory, maxDisk, true))
  {
    var s := Initial(maxMemory, maxDisk, true);
    NoView(s.memory.index);
    NoView(s.disk.index);
  }

  lemma TidyEnabled(s: State, k: Key)
    requires Tidy(s) && Counted(s)
    ensures s.running && s.worker.Entering? ==> Enabled(s, EnterCopy)
    ensures s.running && DiskFree(s) && k in s.pending ==> Enabled(s, EnterStore(k))
  {
    assert s.hasPop;
    hide Tidy, Counted, GoesOn;
    if s.worker.Entering? {
      TidyGoesOn(s, s.worker.key, s.disk);
    }
    if k in s.pending {
      TidyGoesOn(s, k, Renewed(s.disk, k));
    }
  }

  lemma TidyGoesOn(s: State, k: Key, d: Disk)
    requires Tidy(s) && Counted(s) && EntersNext(s, k) && d == s.disk.(popped := d.popped)
    ensures forall v: Value | |v| <= s.disk.max :: GoesOn(EnterDisk(d, k), k, v, true)
    ensures s.worker.Entering? ==> |s.worker.value| <= s.disk.max
  {
    TidyQueued(s, k, d);
    AllIndexed(s);
    UnindexedOnEnter(s.disk, EnterDisk(d, k), k);
    hide Tidy, Unindexed, Queued, StoreOnDisk;
    forall v: Value | |v| <= s.disk.max ensures GoesOn(EnterDisk(d, k), k, v, true) {
      PopsShortestPrefix(EnterDisk(d, k), k, v);
      StuckIff(EnterDisk(d, k), k, v);
    }
  }

  lemma TidyQueued(s: State, k: Key, d: Disk)
    requires Tidy(s) && EntersNext(s, k) && d == s.disk.(popped := d.popped)
    ensures Queued(EnterDisk(d, k), k)
  {
    assert TidyKey(s, k);
    EnterEffect(d, k);
    var e := EnterDisk(d, k);
    forall i | 0 <= i < |e.index| - 1 ensures e.index[i].item == Completed && e.index[i].key in e.files {
      assert e.index[i] == s.disk.index[i];
      ViewAt(s.disk.index, i);
      assert TidyKey(s, s.disk.index[i].key);
    }
  }

  lemma AllIndexed(s: State)
    requires Tidy(s) && Counted(s)
    ensures Unindexed(s.disk) == 0
  {
    forall x ensures x in s.disk.files <==> x in Indexed(s.disk) {
      assert TidyKey(s, x);
      if x in s.disk.files {
        assert s.disk.index[Find(s.disk.index, x)] == Element(x, Completed);
      }
    }
    assert Indexed(s.disk) == s.disk.files;
  }
}
