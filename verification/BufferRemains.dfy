/** What deleted values leave behind on disk, and what becomes of a value stored again meanwhile. */
module BufferRemains {
  import opened Indexes
  import opened BufferSections
  import opened BufferEffects
  import opened BufferRuns
  import opened BufferInvariant
  import opened BufferProperties

  // ---------------------------------------------------------------- files without an element

  /** A Delete removes the file of its key, and takes its bytes off the counter, exactly if the key's element is completed. */
  lemma DeleteFreesIff(s: State, c: nat)
    requires Enabled(s, EndDelete(c)) && s.calls[c].key in s.disk.files
    ensures var k, t := s.calls[c].key, Next(s, EndDelete(c));
            var i := Find(s.disk.index, k);
            && (k !in t.disk.files <==> i < |s.disk.index| && s.disk.index[i].item == Completed)
            && t.disk.usage == s.disk.usage - if k in t.disk.files then 0 else |s.disk.files[k]|
  {
  }

  /** A file of k with no element but cancelled ones, and nobody on the way to store or copy k. */
  ghost predicate FileLeft(s: State, k: Key) {
    && k in s.disk.files && k !in Keys(s.memory.index) && !s.worker.IsAbout(k) && k !in s.disk.moving
    && AllCancelled(s.disk, k)
  }

  ghost predicate AllCancelled(d: Disk, k: Key) {
    forall i | 0 <= i < |d.index| && d.index[i].key == k :: d.index[i].item == Cancelled
  }

  lemma {:induction false} RoomLeaves(d: Disk, x: Key, v: Value, hasPop: bool, k: Key)
    requires x != k && |v| <= d.max && AllCancelled(d, k) && k !in d.moving && !WaitForSpaceOnDisk(d, x, v, hasPop).Stuck?
    ensures var e := WaitForSpaceOnDisk(d, x, v, hasPop).disk;
            AllCancelled(e, k) && k !in e.moving && (k in d.files ==> k in e.files && e.files[k] == d.files[k])
    decreases |d.index|
  {
    if !HasSpace(d.max, d.usage, |v|) && hasPop && CanPop(d) {
      assert d.index[0].key != k;
      RoomLeaves(PopOldest(d), x, v, hasPop, k);
    }
  }

  lemma StoreLeaves(d: Disk, x: Key, v: Value, hasPop: bool, k: Key)
    requires x != k && |v| <= d.max && AllCancelled(d, k) && k !in d.moving && !StoreOnDisk(d, x, v, hasPop).Stuck?
    ensures var e := StoreOnDisk(d, x, v, hasPop).disk;
            AllCancelled(e, k) && k !in e.moving && (k in d.files ==> k in e.files && e.files[k] == d.files[k])
  {
    RoomLeaves(d, x, v, hasPop, k);
    hide WaitForSpaceOnDisk;
  }

  lemma {:induction false} RoomInMemoryLeaves(m: Memory, required: nat, k: Key)
    requires required <= m.max && k !in Keys(m.index)
    ensures k !in Keys(MakeRoom(m, required).index)
    decreases |m.index|
  {
    var i := FirstIn(m.index, Completed);
    if !HasSpace(m.max, m.usage, required) && i < |m.index| {
      assert k !in Keys(Evict(m, i).index);
      RoomInMemoryLeaves(Evict(m, i), required, k);
    }
  }

  lemma StoreInMemoryLeaves(m: Memory, x: Key, v: Value, woken: bool, k: Key)
    requires x != k && |v| <= m.max && k !in Keys(m.index)
    ensures k !in Keys(StoreInMemory(m, x, v, woken).index)
  {
    assert k !in Keys(Notified(m, woken).index);
    RoomInMemoryLeaves(Notified(m, woken), |v|, k);
    hide MakeRoom, Notified;
  }

  lemma {:induction false} KeptAre<T>(index: Index<T>, keys: set<Key>)
    ensures forall e :: e in Without(index, keys) <==> e in index && e.key !in keys
    decreases |index|
  {
    if index != [] {
      KeptAre(index[..|index| - 1], keys);
      assert index == index[..|index| - 1] + [index[|index| - 1]];
    }
  }

  lemma EnterStoreLeaves(s: State, x: Key, k: Key)
    requires FileLeft(s, k) && Enabled(s, EnterStore(x)) && x != k
    ensures FileLeft(EnterStoreState(s, x), k) && EnterStoreState(s, x).disk.files[k] == s.disk.files[k]
  {
    var v := s.pending[x];
    if |v| <= s.memory.max {
      StoreInMemoryLeaves(s.memory, x, v, x in s.waiting, k);
    } else if |v| <= s.disk.max {
      StoreLeaves(EnterDisk(Renewed(s.disk, x), x), x, v, s.hasPop, k);
    }
    hide StoreInMemory, StoreOnDisk, OthersPopped, PoppedOf, PendingDelete, Keys;
  }

  lemma DeleteFromMemoryLeaves(m: Memory, x: Key, k: Key)
    requires k !in Keys(m.index)
    ensures k !in Keys(DeleteFromMemory(m, x).index)
  {
  }

  lemma DeleteFromDiskLeaves(d: Disk, x: Key, k: Key)
    requires Removable(d, x) && AllCancelled(d, k) && k in d.files
    ensures var e := DeleteFromDisk(d, x);
            AllCancelled(e, k) && e.moving == d.moving && k in e.files && e.files[k] == d.files[k]
  {
    var e, i := DeleteFromDisk(d, x), Find(d.index, x);
    if i < |d.index| {
      ElementsKept(d.index, i);
    }
  }

  lemma {:induction false} DeleteAllLeaves(s: State, keys: set<Key>, k: Key)
    requires k !in Keys(s.memory.index) && AllCancelled(s.disk, k)
    ensures k !in Keys(Without(s.memory.index, keys)) && AllCancelled(DeleteAllFromDisk(s.disk, keys), k)
  {
    KeptAre(s.memory.index, keys);
    KeptAre(s.disk.index, keys);
    var kept := Without(s.memory.index, keys);
    forall i | 0 <= i < |kept| ensures kept[i].key != k {
      assert kept[i] in kept;
      var j :| 0 <= j < |s.memory.index| && s.memory.index[j] == kept[i];
    }
    var left := Without(s.disk.index, keys);
    forall i | 0 <= i < |left| && left[i].key == k ensures left[i].item == Cancelled {
      assert left[i] in left;
      var j :| 0 <= j < |s.disk.index| && s.disk.index[j] == left[i];
    }
  }

  lemma DeleteLeaves(s: State, a: Step, k: Key)
    requires FileLeft(s, k) && Enabled(s, a) && (a.BeginDelete? || a.EndDelete? || a.BeginDeleteAll? || a.EndDeleteAll?)
    ensures FileLeft(Next(s, a), k) && Next(s, a).disk.files[k] == s.disk.files[k]
  {
    hide DeleteFromMemory, DeleteFromDisk, Removable, Without, Keys, AllCancelled, AlsoOnDisk;
    match a
    case BeginDelete(_, x) => DeleteFromMemoryLeaves(s.memory, x, k);
    case EndDelete(c) => DeleteFromDiskLeaves(s.disk, s.calls[c].key, k);
    case BeginDeleteAll(_, keys) => DeleteAllLeaves(s, keys, k);
    case EndDeleteAll(c) => DeleteAllLeaves(s, s.calls[c].keys, k);
  }

  lemma StepLeavesFile(s: State, a: Step, k: Key)
    requires FileLeft(s, k) && Enabled(s, a) && !(a.EnterStore? && a.key == k)
    ensures FileLeft(Next(s, a), k) && Next(s, a).disk.files[k] == s.disk.files[k]
  {
    match a
    case EnterStore(x) => EnterStoreLeaves(s, x, k);
    case WakeStore(x) => StoreLeaves(Wake(s.disk, x), x, s.disk.moving[x], s.hasPop, k);
    case EnterCopy => StoreLeaves(EnterDisk(s.disk, s.worker.key), s.worker.key, s.worker.value, s.hasPop, k);
    case WakeCopy => StoreLeaves(Wake(s.disk, s.worker.key), s.worker.key, s.worker.value, s.hasPop, k);
    case BeginDelete(_, _) => DeleteLeaves(s, a, k);
    case EndDelete(_) => DeleteLeaves(s, a, k);
    case BeginDeleteAll(_, _) => DeleteLeaves(s, a, k);
    case EndDeleteAll(_) => DeleteLeaves(s, a, k);
    case _ =>
  }

  /** Such a file, and the bytes counted for it, stay whatever is deleted, until the key is stored again. */
  lemma {:induction false} LeftFileStays(s: State, steps: seq<Step>, k: Key)
    requires FileLeft(s, k) && IsRun(s, steps) && StoresNone(steps, k)
    ensures FileLeft(After(s, steps), k) && After(s, steps).disk.files[k] == s.disk.files[k]
    decreases |steps|
  {
    hide FileLeft, Enabled, Next;
    if steps != [] {
      assert steps[0] in steps;
      StepLeavesFile(s, steps[0], k);
      LeftFileStays(Next(s, steps[0]), steps[1..], k);
    }
  }

  // ---------------------------------------------------------------- storing while an element is left

  /**
   A store which enters the disk leaves its value readable, in its file or while it waits, if and
   only if no element of its key was there; a cancelled one is found first, now or later.
   */
  lemma EntryReadableIff(d: Disk, k: Key, v: Value)
    requires |v| <= d.max && AllCancelled(d, k) && k !in d.moving
    ensures var r := StoreOnDisk(EnterDisk(d, k), k, v, false);
            && !r.Stuck?
            && (GetFromDisk(r.disk, k) == Read(v) <==> k !in Keys(d.index))
            && (k in Keys(d.index) ==> !r.Waits? && GetFromDisk(r.disk, k) in {NoSuchElement, MustWait})
            && r.disk.popped == d.popped
  {
    if k in Keys(d.index) {
      FoundBefore(d, k);
      CancelledFirst(EnterDisk(d, k), k, v, Find(EnterDisk(d, k).index, k));
    } else {
      EntersAlone(d, k, v);
    }
  }

  lemma {:induction false} FoundBefore(d: Disk, k: Key)
    requires k in Keys(d.index) && AllCancelled(d, k)
    ensures var index := EnterDisk(d, k).index;
            && Find(index, k) < |index| && index[Find(index, k)].item == Cancelled
            && forall j | 0 <= j < |index| && index[j].key == k :: index[j].item in {Cancelled, Started}
  {
    var index := EnterDisk(d, k).index;
    var j :| 0 <= j < |d.index| && d.index[j].key == k;
    assert index[j].key == k;
    assert Find(index, k) <= j && index[Find(index, k)] == d.index[Find(index, k)];
  }

  lemma EntersAlone(d: Disk, k: Key, v: Value)
    requires |v| <= d.max && k !in Keys(d.index)
    ensures var r := StoreOnDisk(EnterDisk(d, k), k, v, false);
            !r.Stuck? && GetFromDisk(r.disk, k) == Read(v) && r.disk.popped == d.popped
  {
    FoundLast(d.index, k);
    OwnElementFound(d, k);
    hide Find, FindStarted, Keys;
  }

  lemma {:induction false} FoundLast(index: Index<StoringState>, k: Key)
    requires k !in Keys(index)
    ensures var more := index + [Element(k, Started)]; Find(more, k) == FindStarted(more, k) == |index|
  {
    var more := index + [Element(k, Started)];
    assert more[|index|] == Element(k, Started);
    forall j | 0 <= j < |index| ensures more[j].key != k {
      assert more[j] == index[j] && index[j].key in Keys(index);
    }
  }

  lemma {:induction false} OwnElementFound(d: Disk, k: Key)
    requires k !in Keys(d.index)
    ensures Find(EnterDisk(d, k).index[|d.index| := Element(k, Completed)], k) == |d.index|
  {
    var index := EnterDisk(d, k).index[|d.index| := Element(k, Completed)];
    assert index[|d.index|].key == k;
    forall j | 0 <= j < |d.index| ensures index[j].key != k {
      assert index[j] == d.index[j] && d.index[j].key in Keys(d.index);
    }
  }

  /** A store that finds a cancelled element before its own. */
  lemma {:induction false} CancelledFirst(e: Disk, k: Key, v: Value, i: nat)
    requires |v| <= e.max && k !in e.moving && i == Find(e.index, k) < |e.index| && e.index[i].item == Cancelled
    requires forall j | 0 <= j < |e.index| && e.index[j].key == k :: e.index[j].item in {Cancelled, Started}
    ensures var r := StoreOnDisk(e, k, v, false);
            !r.Stuck? && !r.Waits? && GetFromDisk(r.disk, k) in {NoSuchElement, MustWait} && r.disk.popped == e.popped
  {
    if HasSpace(e.max, e.usage, |v|) {
      WrittenBehind(e, k, v, i);
    } else {
      CancelledDropped(e, k, i);
    }
    hide WriteToDisk, Find, GetFromDisk;
  }

  lemma {:induction false} WrittenBehind(e: Disk, k: Key, v: Value, i: nat)
    requires i == Find(e.index, k) < |e.index| && e.index[i].item == Cancelled
    ensures GetFromDisk(WriteToDisk(e, k, v), k) == NoSuchElement
  {
    var j := FindStarted(e.index, k);
    if j < |e.index| {
      var index := e.index[j := Element(k, Completed)];
      assert index[i] == e.index[i];
      assert Find(index, k) == i;
    }
  }

  lemma CancelledDropped(e: Disk, k: Key, i: nat)
    requires k !in e.moving && i < |e.index|
    requires forall j | 0 <= j < |e.index| && e.index[j].key == k :: e.index[j].item in {Cancelled, Started}
    ensures GetFromDisk(e.(index := RemoveAt(e.index, i)), k) in {NoSuchElement, MustWait}
  {
    ElementsKept(e.index, i);
    var index := RemoveAt(e.index, i);
    hide RemoveAt;
    var m := Find(index, k);
    if m < |index| {
      assert index[m] == e.index[if m < i then m else m + 1];
    }
  }

  // ---------------------------------------------------------------- marking what cannot be read

  /** The value in memory is marked as copied but cannot be read from disk, was not popped, and nobody has deleted it. */
  ghost predicate MarkedUnreadable(s: State, k: Key) {
    var i := Find(s.memory.index, k);
    && i < |s.memory.index| && s.memory.index[i].item.alsoOnDisk == Completed && k !in s.deleted
    && GetFromDisk(s.disk, k) != Read(s.memory.index[i].item.value) && (k, s.memory.index[i].item.value) !in s.disk.popped
  }

  /** The memory holds v for k, in the given state. */
  ghost predicate HeldAs(m: Memory, k: Key, v: Value, state: StoringState) {
    k in Keys(m.index) && forall i | 0 <= i < |m.index| && m.index[i].key == k :: m.index[i].item == Copy(v, state)
  }

  ghost predicate WorkerFits(s: State) {
    s.worker.Entering? || s.worker.Copying? ==> |s.worker.value| <= s.disk.max
  }

  /** v has just been entered for k while the worker is about k, or an element of k is left on disk. */
  ghost predicate InDisorder(s: State, k: Key, v: Value) {
    && s.running && WorkerFits(s) && |v| <= s.disk.max && HeldAs(s.memory, k, v, NotStarted) && k !in s.deleted
    && AllCancelled(s.disk, k) && k !in PoppedKeys(s.disk.popped)
    && if s.worker.IsAbout(k) then !s.worker.Entering? && (s.worker.Copying? ==> !s.hasPop)
       else !s.hasPop && k in Keys(s.disk.index) && k !in s.disk.moving
  }

  lemma NotPopped(d: Disk, k: Key, v: Value)
    requires k !in PoppedKeys(d.popped)
    ensures (k, v) !in d.popped
  {
    var p := (k, v);
    assert p in d.popped ==> p.0 in PoppedKeys(d.popped);
  }

  /** The first element for k in memory holds v. */
  ghost predicate HoldsFirst(m: Memory, k: Key, v: Value) {
    Find(m.index, k) < |m.index| && m.index[Find(m.index, k)].item.value == v
  }

  lemma FinishMarks(s: State, k: Key, v: Value)
    requires s.running && s.worker == Finishing(k) && HoldsFirst(s.memory, k, v) && k !in s.deleted
    requires GetFromDisk(s.disk, k) in {NoSuchElement, MustWait} && k !in PoppedKeys(s.disk.popped)
    ensures Enabled(s, FinishCopy) && MarkedUnreadable(Next(s, FinishCopy), k)
  {
    NotPopped(s.disk, k, v);
    var i, t := Find(s.memory.index, k), Next(s, FinishCopy);
    assert t.memory.index[i] == Element(k, Copy(v, Completed)) && Find(t.memory.index, k) == i;
  }

  /** One step, and a run from there. */
  lemma {:induction false} StepThen(s: State, a: Step, rest: seq<Step>, k: Key)
    requires Enabled(s, a) && !a.EnterStore? && Continues(Next(s, a), rest, k) && MarkedUnreadable(After(Next(s, a), rest), k)
    ensures Continues(s, [a] + rest, k) && MarkedUnreadable(After(s, [a] + rest), k)
  {
    hide Enabled, Next, MarkedUnreadable;
    assert ([a] + rest)[1..] == rest;
  }

  lemma {:induction false} LastStep(s: State, a: Step, k: Key)
    requires Enabled(s, a) && !a.EnterStore? && MarkedUnreadable(Next(s, a), k)
    ensures Continues(s, [a], k) && MarkedUnreadable(After(s, [a]), k)
  {
    hide Enabled, Next, MarkedUnreadable;
    assert IsRun(Next(s, a), []) && IsOrderly(Next(s, a), []) && [a][1..] == [];
  }

  // ---------------------------------------------------------------- the worker is about the key

  lemma OldCopyWakes(s: State, k: Key, v: Value)
    requires InDisorder(s, k, v) && s.worker.IsAbout(k) && s.worker.Copying?
    ensures Enabled(s, WakeCopy)
    ensures var t := Next(s, WakeCopy);
            t == s.(disk := t.disk, worker := Finishing(k)) && AllCancelled(t.disk, k) && t.disk.popped == s.disk.popped
  {
    CancelledStore(Wake(s.disk, k), k, s.worker.value);
    hide StoreOnDisk, AllCancelled, Keys;
  }

  lemma CancelledStore(d: Disk, k: Key, v: Value)
    requires |v| <= d.max && AllCancelled(d, k)
    ensures var r := StoreOnDisk(d, k, v, false);
            !r.Stuck? && !r.Waits? && AllCancelled(r.disk, k) && r.disk.popped == d.popped
  {
    var i := Find(d.index, k);
    if HasSpace(d.max, d.usage, |v|) {
      assert FindStarted(d.index, k) == |d.index|;
    } else if i < |d.index| {
      ElementsKept(d.index, i);
    }
  }

  lemma CancelledUnread(d: Disk, k: Key)
    requires AllCancelled(d, k)
    ensures GetFromDisk(d, k) == NoSuchElement
  {
  }

  lemma AboutMarks(s: State, k: Key, v: Value) returns (steps: seq<Step>)
    requires InDisorder(s, k, v) && s.worker.IsAbout(k)
    ensures Continues(s, steps, k) && MarkedUnreadable(After(s, steps), k)
  {
    if s.worker.Copying? {
      OldCopyWakes(s, k, v);
      var t := Next(s, WakeCopy);
      CancelledUnread(t.disk, k);
      FinishMarks(t, k, v);
      hide Enabled, Next, MarkedUnreadable;
      LastStep(t, FinishCopy, k);
      StepThen(s, WakeCopy, [FinishCopy], k);
      steps := [WakeCopy] + [FinishCopy];
    } else {
      CancelledUnread(s.disk, k);
      FinishMarks(s, k, v);
      hide Enabled, Next, MarkedUnreadable;
      LastStep(s, FinishCopy, k);
      steps := [FinishCopy];
    }
  }

  // ---------------------------------------------------------------- an element is left

  /** The state of the memory and of the disk when an element is left, whatever else goes on. */
  ghost predicate ElementLeft(s: State, k: Key, v: Value) {
    InDisorder(s, k, v) && !s.worker.IsAbout(k)
  }

  /** All other keys have been deleted, so that the worker comes to k next. */
  ghost predicate Alone(s: State, k: Key, v: Value) {
    && ElementLeft(s, k, v) && Keys(s.memory.index) == {k} && !s.worker.Entering?
    && (s.worker.Copying? ==> s.worker.key !in Keys(s.disk.index))
  }

  /** The worker enters another key. */
  lemma OtherEnters(s: State, k: Key, v: Value)
    requires ElementLeft(s, k, v) && s.worker.Entering?
    ensures Enabled(s, EnterCopy) && ElementLeft(Next(s, EnterCopy), k, v) && !Next(s, EnterCopy).worker.Entering?
  {
    var x, w := s.worker.key, s.worker.value;
    var d := EnterDisk(s.disk, x);
    OtherStored(d, x, w, k);
    assert k in Keys(d.index) by {
      var j :| 0 <= j < |s.disk.index| && s.disk.index[j].key == k;
      assert d.index[j].key == k;
    }
    hide StoreOnDisk;
  }

  lemma OtherStored(d: Disk, x: Key, w: Value, k: Key)
    requires x != k && |w| <= d.max && AllCancelled(d, k) && k !in d.moving
    ensures var r := StoreOnDisk(d, x, w, false);
            && !r.Stuck? && AllCancelled(r.disk, k) && k !in r.disk.moving && r.disk.popped == d.popped && r.disk.max == d.max
            && (k in Keys(d.index) ==> k in Keys(r.disk.index))
            && (x !in Keys(d.index) ==> !r.Waits? && r.disk.index == d.index)
  {
    StoreLeaves(d, x, w, false, k);
    OtherKept(d, x, w, k);
    if x !in Keys(d.index) {
      assert FindStarted(d.index, x) == |d.index|;
    }
    hide AllCancelled, Keys;
  }

  lemma OtherKept(d: Disk, x: Key, w: Value, k: Key)
    requires x != k && |w| <= d.max
    ensures var r := StoreOnDisk(d, x, w, false);
            !r.Stuck? && (k in Keys(d.index) ==> k in Keys(r.disk.index))
  {
    var r := StoreOnDisk(d, x, w, false);
    if k in Keys(d.index) {
      var j :| 0 <= j < |d.index| && d.index[j].key == k;
      var i := Find(d.index, x);
      if |r.disk.index| == |d.index| {
        assert r.disk.index[j].key == k;
      } else {
        ElementsKept(d.index, i);
        assert r.disk.index[if j < i then j else j - 1].key == k;
      }
    }
  }

  lemma {:induction false} UnusedCall(calls: set<nat>) returns (c: nat)
    ensures forall x | x in calls :: x < c
    decreases |calls|
  {
    if calls == {} {
      return 0;
    }
    var y :| y in calls;
    var b := UnusedCall(calls - {y});
    c := if y < b then b else y + 1;
    forall x | x in calls ensures x < c {
      assert x == y || x in calls - {y};
    }
  }

  /** A predicate Delete of all keys but k, from its first section to its last. */
  lemma OthersDeleted(s: State, k: Key, v: Value, c: nat, keys: set<Key>)
    requires ElementLeft(s, k, v) && !s.worker.Entering? && c !in s.calls
    requires keys == Keys(s.memory.index) + (if s.worker.Resting? then {} else {s.worker.key}) - {k}
    ensures Enabled(s, BeginDeleteAll(c, keys)) && Enabled(Next(s, BeginDeleteAll(c, keys)), EndDeleteAll(c))
    ensures Alone(Next(Next(s, BeginDeleteAll(c, keys)), EndDeleteAll(c)), k, v)
  {
    var t := Next(s, BeginDeleteAll(c, keys));
    assert t.calls[c].keys == keys;
    hide DeleteAllFromMemory, DeleteAllFromDisk;
    OthersDeletedAlone(s, Next(t, EndDeleteAll(c)), k, v, keys);
  }

  lemma OthersDeletedAlone(s: State, t: State, k: Key, v: Value, keys: set<Key>)
    requires ElementLeft(s, k, v) && !s.worker.Entering?
    requires keys == Keys(s.memory.index) + (if s.worker.Resting? then {} else {s.worker.key}) - {k}
    requires t == s.(memory := DeleteAllFromMemory(s.memory, keys), disk := DeleteAllFromDisk(s.disk, keys),
                     deleted := s.deleted + keys, gone := t.gone, calls := t.calls)
    ensures Alone(t, k, v)
  {
    OthersGone(s.memory.index, keys, k);
    LeftOnDisk(s.disk, keys, k);
    hide Keys, AllCancelled, Without;
    forall i | 0 <= i < |t.memory.index| && t.memory.index[i].key == k ensures t.memory.index[i].item == Copy(v, NotStarted) {
      assert t.memory.index[i] in t.memory.index;
      var j :| 0 <= j < |s.memory.index| && s.memory.index[j] == t.memory.index[i];
    }
  }

  lemma {:induction false} OthersGone(index: Index<Copy>, keys: set<Key>, k: Key)
    requires k in Keys(index) && k !in keys && Keys(index) <= keys + {k}
    ensures Keys(Without(index, keys)) == {k}
    ensures forall e | e in Without(index, keys) :: e in index
  {
    KeptAre(index, keys);
    var j :| 0 <= j < |index| && index[j].key == k;
    assert index[j] in Without(index, keys);
    forall x ensures x in Keys(Without(index, keys)) <==> x == k {
    }
  }

  lemma LeftOnDisk(d: Disk, keys: set<Key>, k: Key)
    requires k in Keys(d.index) && k !in keys && AllCancelled(d, k)
    ensures var e := DeleteAllFromDisk(d, keys); k in Keys(e.index) && AllCancelled(e, k) && Keys(e.index) !! keys
  {
    KeptAre(d.index, keys);
    var j :| 0 <= j < |d.index| && d.index[j].key == k;
    assert d.index[j] in Without(d.index, keys);
  }

  lemma OtherWakes(s: State, k: Key, v: Value)
    requires Alone(s, k, v) && s.worker.Copying?
    ensures Enabled(s, WakeCopy) && Alone(Next(s, WakeCopy), k, v) && Next(s, WakeCopy).worker.Finishing?
  {
    OtherStored(Wake(s.disk, s.worker.key), s.worker.key, s.worker.value, k);
    hide StoreOnDisk;
  }

  lemma OtherFinishes(s: State, k: Key, v: Value)
    requires Alone(s, k, v) && s.worker.Finishing?
    ensures Enabled(s, FinishCopy) && Alone(Next(s, FinishCopy), k, v) && Next(s, FinishCopy).worker.Resting?
  {
  }

  lemma TakesAlone(s: State, k: Key, v: Value)
    requires Alone(s, k, v) && s.worker.Resting?
    ensures Enabled(s, Take)
    ensures var t := Next(s, Take);
            t == s.(memory := t.memory, worker := Entering(k, v)) && HoldsFirst(t.memory, k, v)
  {
    var j :| 0 <= j < |s.memory.index| && s.memory.index[j].key == k;
    var e := s.memory.index[0];
    assert e.key in Keys(s.memory.index);
    assert FirstIn(s.memory.index, NotStarted) == 0;
    var t := Next(s, Take);
    assert t.memory.index[0].key == k && Find(t.memory.index, k) == 0;
  }

  /** The worker enters the value of k behind the element that is left. */
  lemma EntersBehind(s: State, k: Key, v: Value)
    requires s.running && !s.hasPop && |v| <= s.disk.max && s.worker == Entering(k, v) && HoldsFirst(s.memory, k, v)
    requires AllCancelled(s.disk, k) && k in Keys(s.disk.index) && k !in s.disk.moving
    requires k !in s.deleted && k !in PoppedKeys(s.disk.popped)
    ensures Enabled(s, EnterCopy)
    ensures var t := Next(s, EnterCopy);
            && t == s.(disk := t.disk, worker := Finishing(k))
            && GetFromDisk(t.disk, k) in {NoSuchElement, MustWait} && k !in PoppedKeys(t.disk.popped)
  {
    EntryReadableIff(s.disk, k, v);
    hide StoreOnDisk;
  }

  lemma AloneMarks(s: State, k: Key, v: Value) returns (steps: seq<Step>)
    requires Alone(s, k, v)
    ensures Continues(s, steps, k) && MarkedUnreadable(After(s, steps), k)
    decreases if s.worker.Copying? then 2 else if s.worker.Finishing? then 1 else 0
  {
    var rest;
    if s.worker.Copying? {
      OtherWakes(s, k, v);
      rest := AloneMarks(Next(s, WakeCopy), k, v);
      StepThen(s, WakeCopy, rest, k);
      steps := [WakeCopy] + rest;
    } else if s.worker.Finishing? {
      OtherFinishes(s, k, v);
      rest := AloneMarks(Next(s, FinishCopy), k, v);
      StepThen(s, FinishCopy, rest, k);
      steps := [FinishCopy] + rest;
    } else {
      rest := RestingMarks(s, k, v);
      steps := rest;
    }
  }

  lemma RestingMarks(s: State, k: Key, v: Value) returns (steps: seq<Step>)
    requires Alone(s, k, v) && s.worker.Resting?
    ensures Continues(s, steps, k) && MarkedUnreadable(After(s, steps), k)
  {
    TakesAlone(s, k, v);
    var t := Next(s, Take);
    EntersBehind(t, k, v);
    var u := Next(t, EnterCopy);
    FinishMarks(u, k, v);
    hide Enabled, Next, MarkedUnreadable;
    LastStep(u, FinishCopy, k);
    StepThen(t, EnterCopy, [FinishCopy], k);
    StepThen(s, Take, [EnterCopy] + [FinishCopy], k);
    steps := [Take] + ([EnterCopy] + [FinishCopy]);
  }

  lemma LeftMarks(s: State, k: Key, v: Value) returns (steps: seq<Step>)
    requires ElementLeft(s, k, v)
    ensures Continues(s, steps, k) && MarkedUnreadable(After(s, steps), k)
    decreases if s.worker.Entering? then 1 else 0
  {
    var rest;
    if s.worker.Entering? {
      OtherEnters(s, k, v);
      rest := LeftMarks(Next(s, EnterCopy), k, v);
      StepThen(s, EnterCopy, rest, k);
      steps := [EnterCopy] + rest;
    } else {
      var c := UnusedCall(s.calls.Keys);
      var keys := Keys(s.memory.index) + (if s.worker.Resting? then {} else {s.worker.key}) - {k};
      OthersDeleted(s, k, v, c, keys);
      var t := Next(s, BeginDeleteAll(c, keys));
      hide Enabled, Next, MarkedUnreadable, ElementLeft, Alone;
      rest := AloneMarks(Next(t, EndDeleteAll(c)), k, v);
      StepThen(t, EndDeleteAll(c), rest, k);
      StepThen(s, BeginDeleteAll(c, keys), [EndDeleteAll(c)] + rest, k);
      steps := [BeginDeleteAll(c, keys)] + ([EndDeleteAll(c)] + rest);
    }
  }

  /** Wherever the worker and the other stores are, there is a continuation that marks the value. */
  lemma InDisorderMarks(s: State, k: Key, v: Value) returns (steps: seq<Step>)
    requires InDisorder(s, k, v)
    ensures Continues(s, steps, k) && MarkedUnreadable(After(s, steps), k)
  {
    if s.worker.IsAbout(k) {
      steps := AboutMarks(s, k, v);
    } else {
      steps := LeftMarks(s, k, v);
    }
  }

  lemma OnlyCancelled(s: State, k: Key)
    requires Inv(s) && k in s.pending
    ensures AllCancelled(s.disk, k) && k !in Keys(s.memory.index)
    ensures !s.worker.IsAbout(k) ==> k !in s.disk.moving && (k in Keys(s.disk.index) ==> !s.hasPop)
    ensures s.worker.IsAbout(k) ==> !s.worker.Entering? && (s.worker.Copying? ==> !s.hasPop)
  {
    assert KeyOk(s, k);
    forall i | 0 <= i < |s.disk.index| && s.disk.index[i].key == k ensures s.disk.index[i].item == Cancelled {
      ViewAt(s.disk.index, i);
    }
  }

  lemma InvFits(s: State)
    requires Inv(s)
    ensures WorkerFits(s) && s.memory.max <= s.disk.max
  {
    if !s.worker.Resting? {
      assert KeyOk(s, s.worker.key);
    }
  }

  lemma EnteredHeld(m: Memory, k: Key, v: Value, woken: bool)
    requires MemorySound(m) && |v| <= m.max && k !in Keys(m.index) && EntersMemory(m, v, woken)
    ensures HeldAs(StoreInMemory(m, k, v, woken), k, v, NotStarted)
  {
    StoreInMemoryEffect(m, k, v, woken, k);
    var r := StoreInMemory(m, k, v, woken);
    forall i | 0 <= i < |r.index| && r.index[i].key == k ensures r.index[i].item == Copy(v, NotStarted) {
      ViewAt(r.index, i);
    }
  }

  lemma EntersInDisorder(s: State, k: Key)
    requires Inv(s) && Enabled(s, EnterStore(k)) && |s.pending[k]| <= s.memory.max && Enters(s, k)
    requires (s.worker.IsAbout(k) || k in Keys(s.disk.index)) && !PendingDelete(s, k)
    ensures InDisorder(EnterStoreState(s, k), k, s.pending[k])
  {
    OnlyCancelled(s, k);
    InvFits(s);
    OthersPoppedAre(s.disk.popped, k);
    EnteredHeld(s.memory, k, s.pending[k], k in s.waiting);
    hide Inv, StoreInMemory, EntersMemory, HeldAs, Keys, OthersPopped, PoppedOf, PoppedKeys, PendingDelete;
  }

  lemma {:induction false} DeletedStays(s: State, steps: seq<Step>, k: Key)
    requires Continues(s, steps, k) && k in s.deleted
    ensures k in After(s, steps).deleted
    decreases |steps|
  {
    if steps != [] {
      assert k in Next(s, steps[0]).deleted by {
        assert steps[0] in steps;
      }
      DeletedStays(Next(s, steps[0]), steps[1..], k);
    }
  }

  lemma GoodCopies(s: State, k: Key)
    requires Inv(s)
    ensures !MarkedUnreadable(s, k)
  {
    assert KeyOk(s, k);
    hide MemorySize, FileSize;
  }

  lemma {:induction false} NeverMarkedUnreadable(s: State, k: Key, steps: seq<Step>)
    requires Inv(s) && Enabled(s, EnterStore(k)) && |s.pending[k]| <= s.memory.max && Enters(s, k)
    requires Fresh(s, k) || PendingDelete(s, k)
    requires Continues(Next(s, EnterStore(k)), steps, k)
    ensures !MarkedUnreadable(After(Next(s, EnterStore(k)), steps), k)
  {
    var t := Next(s, EnterStore(k));
    if Fresh(s, k) {
      StepKeeps(s, EnterStore(k));
      RunKeeps(t, steps);
      GoodCopies(After(t, steps), k);
    } else {
      assert k in t.deleted;
      hide Next, Enabled;
      DeletedStays(t, steps, k);
    }
  }

  /**
   A value entered in memory, with no Delete of its key under way, can come to be marked as copied
   although it cannot be read from disk if and only if the worker is still about its key or an
   element of its key is left on disk.  It can then be evicted and lost.
   */
  lemma MarkedUnreadableIff(s: State, k: Key)
    requires Reachable(s) && Enabled(s, EnterStore(k)) && |s.pending[k]| <= s.memory.max && Enters(s, k)
    ensures var t := Next(s, EnterStore(k));
            (s.worker.IsAbout(k) || k in Keys(s.disk.index)) && !PendingDelete(s, k) <==>
            exists steps :: Continues(t, steps, k) && MarkedUnreadable(After(t, steps), k)
  {
    ReachableInv(s);
    OrderlyIff(s, k);
    var t := Next(s, EnterStore(k));
    if (s.worker.IsAbout(k) || k in Keys(s.disk.index)) && !PendingDelete(s, k) {
      EntersInDisorder(s, k);
      hide Next, Enabled;
      var steps := InDisorderMarks(t, k, s.pending[k]);
    } else {
      forall steps | Continues(t, steps, k) ensures !MarkedUnreadable(After(t, steps), k) {
        NeverMarkedUnreadable(s, k, steps);
      }
    }
  }
}
