/** When a store has room: what is evicted for it, and when it has to wait. */
module BufferRoom {
  import opened Indexes
  import opened BufferSections
  import opened BufferEffects
  import opened BufferRuns
  import opened BufferInvariant
  import opened BufferCounters
  import opened BufferProperties

  // ---------------------------------------------------------------- memory

  /** The bytes of the values which have no copy yet. */
  function BytesNotCompleted(index: Index<Copy>): nat {
    if index == [] then 0
    else
      var last := index[|index| - 1].item;
      BytesNotCompleted(index[..|index| - 1]) + if last.alsoOnDisk == Completed then 0 else |last.value|
  }

  lemma {:induction false} NotCompletedWithout(index: Index<Copy>, i: nat)
    requires i < |index| && index[i].item.alsoOnDisk == Completed
    ensures BytesNotCompleted(RemoveAt(index, i)) == BytesNotCompleted(index)
    decreases |index|
  {
    var last := |index| - 1;
    if i == last {
      assert RemoveAt(index, i) == index[..last];
    } else {
      NotCompletedWithout(index[..last], i);
      var r := RemoveAt(index, i);
      assert r[..|r| - 1] == RemoveAt(index[..last], i);
    }
  }

  lemma {:induction false} NotCompletedBound(index: Index<Copy>)
    ensures BytesNotCompleted(index) <= MemorySize(index)
    ensures (forall i | 0 <= i < |index| :: index[i].item.alsoOnDisk != Completed) ==> BytesNotCompleted(index) == MemorySize(index)
    decreases |index|
  {
    if index != [] {
      NotCompletedBound(index[..|index| - 1]);
    }
  }

  lemma {:induction false} MakesRoomIff(m: Memory, required: nat)
    requires MemoryCounted(m) && required <= m.max
    ensures MakeRoom(m, required).usage + required <= m.max <==> BytesNotCompleted(m.index) + required <= m.max
    decreases |m.index|
  {
    hide MemorySize, BytesNotCompleted;
    NotCompletedBound(m.index);
    MakeRoomStep(m, required);
    var i := FirstIn(m.index, Completed);
    if !HasSpace(m.max, m.usage, required) && i < |m.index| {
      EvictCounted(m, i);
      NotCompletedWithout(m.index, i);
      MakesRoomIff(Evict(m, i), required);
    }
  }

  lemma NotifiedCounted(m: Memory, woken: bool)
    requires MemoryCounted(m)
    ensures MemoryCounted(Notified(m, woken)) && BytesNotCompleted(Notified(m, woken).index) == BytesNotCompleted(m.index)
    ensures Notified(m, woken).max == m.max
  {
    var i := FirstIn(m.index, Completed);
    if i < |m.index| {
      EvictCounted(m, i);
      NotCompletedWithout(m.index, i);
    }
  }

  /** In every run a value enters the memory if and only if it fits beside the values which have no copy yet. */
  lemma EntersMemoryIff(s: State, k: Key)
    requires Possible(s) && k in s.pending && |s.pending[k]| <= s.memory.max
    ensures Enters(s, k) <==> BytesNotCompleted(s.memory.index) + |s.pending[k]| <= s.memory.max
  {
    Accounting(s);
    hide MemorySize, BytesNotCompleted, Possible;
    NotifiedCounted(s.memory, k in s.waiting);
    MakesRoomIff(Notified(s.memory, k in s.waiting), |s.pending[k]|);
  }

  /** The oldest completed elements go first. */
  ghost predicate OldestFirst(index: Index<Copy>, kept: Index<Copy>) {
    forall i, j | 0 <= i < j < |index| && index[i].item.alsoOnDisk == index[j].item.alsoOnDisk == Completed ::
      index[i].key in Keys(kept) ==> index[j].key in Keys(kept)
  }

  lemma EvictOldest(m: Memory, kept: Index<Copy>)
    requires MemorySound(m) && FirstIn(m.index, Completed) < |m.index|
    requires OldestFirst(Evict(m, FirstIn(m.index, Completed)).index, kept)
    requires m.index[FirstIn(m.index, Completed)].key !in Keys(kept)
    ensures OldestFirst(m.index, kept)
  {
    hide Keys;
    var f := FirstIn(m.index, Completed);
    var rest := Evict(m, f).index;
    ElementsKept(m.index, f);
    forall i, j | 0 <= i < j < |m.index| && m.index[i].item.alsoOnDisk == m.index[j].item.alsoOnDisk == Completed && m.index[i].key in Keys(kept)
      ensures m.index[j].key in Keys(kept)
    {
      assert i > f;
      assert rest[i - 1] == m.index[i] && rest[j - 1] == m.index[j];
    }
  }

  lemma {:induction false} RoomOldestFirst(m: Memory, required: nat)
    requires MemorySound(m) && required <= m.max
    ensures OldestFirst(m.index, MakeRoom(m, required).index)
    decreases |m.index|
  {
    hide OldestFirst, View, Keys, Distinct;
    MakeRoomStep(m, required);
    var i := FirstIn(m.index, Completed);
    if !HasSpace(m.max, m.usage, required) && i < |m.index| {
      EvictEffect(m, i);
      RoomOldestFirst(Evict(m, i), required);
      MakeRoomEffect(Evict(m, i), required, m.index[i].key);
      EvictOldest(m, MakeRoom(m, required).index);
    } else {
      AllKept(m.index);
    }
  }

  lemma AllKept(index: Index<Copy>)
    ensures OldestFirst(index, index)
  {
  }

  /** The element was evicted, and every completed one after it was kept. */
  ghost predicate LastEvicted(index: Index<Copy>, i: nat, kept: Index<Copy>) {
    && i < |index| && index[i].key !in Keys(kept)
    && forall j | i < j < |index| && index[j].item.alsoOnDisk == Completed :: index[j].key in Keys(kept)
  }

  lemma {:induction false} NoneEvicted(m: Memory, required: nat)
    requires MemorySound(m) && required <= m.max
    requires forall i | 0 <= i < |m.index| && m.index[i].item.alsoOnDisk == Completed :: m.index[i].key in Keys(MakeRoom(m, required).index)
    ensures MakeRoom(m, required) == m
  {
    hide View, Keys, Distinct;
    MakeRoomStep(m, required);
    var i := FirstIn(m.index, Completed);
    if !HasSpace(m.max, m.usage, required) && i < |m.index| {
      EvictEffect(m, i);
      MakeRoomEffect(Evict(m, i), required, m.index[i].key);
    }
  }

  lemma EvictedFromRest(m: Memory, f: nat, i: nat, kept: Index<Copy>)
    requires f < |m.index| && LastEvicted(m.index, i, kept) && forall j | 0 <= j < f :: m.index[j].item.alsoOnDisk != Completed
    ensures i != f ==> LastEvicted(Evict(m, f).index, if i < f then i else i - 1, kept)
    ensures i != f ==> Evict(m, f).index[if i < f then i else i - 1] == m.index[i]
    ensures i == f ==> forall j | 0 <= j < |Evict(m, f).index| && Evict(m, f).index[j].item.alsoOnDisk == Completed :: Evict(m, f).index[j].key in Keys(kept)
  {
    hide Keys;
    ElementsKept(m.index, f);
  }

  lemma {:induction false} RoomNoMore(m: Memory, required: nat, i: nat)
    requires MemorySound(m) && required <= m.max && LastEvicted(m.index, i, MakeRoom(m, required).index)
    ensures MakeRoom(m, required).usage + |m.index[i].item.value| + required > m.max
    decreases |m.index|
  {
    MakeRoomStep(m, required);
    var f := FirstIn(m.index, Completed);
    assert m.index[i].key in Keys(m.index);
    hide View, Keys, Distinct, LastEvicted, MakeRoom;
    assert MakeRoom(m, required).index != m.index by {
      SomeGone(m.index, i, MakeRoom(m, required).index);
    }
    EvictEffect(m, f);
    EvictedFromRest(m, f, i, MakeRoom(m, required).index);
    if i == f {
      NoneEvicted(Evict(m, f), required);
    } else {
      RoomNoMore(Evict(m, f), required, if i < f then i else i - 1);
    }
  }

  lemma SomeGone(index: Index<Copy>, i: nat, kept: Index<Copy>)
    requires LastEvicted(index, i, kept)
    ensures i < |index| && kept != index
  {
  }

  lemma NotifiedRoom(m: Memory, woken: bool)
    requires MemorySound(m)
    ensures Notified(m, woken) == m || (woken && FirstIn(m.index, Completed) < |m.index| && Notified(m, woken) == Evict(m, FirstIn(m.index, Completed)))
    ensures MemorySound(Notified(m, woken))
  {
    if FirstIn(m.index, Completed) < |m.index| {
      EvictEffect(m, FirstIn(m.index, Completed));
    }
  }

  lemma {:induction false} StoreOldestFirst(m: Memory, v: Value, woken: bool)
    requires MemorySound(m) && |v| <= m.max
    ensures OldestFirst(m.index, MakeRoom(Notified(m, woken), |v|).index)
  {
    hide OldestFirst, View, Keys, Distinct, Notified, MakeRoom;
    NotifiedRoom(m, woken);
    RoomOldestFirst(Notified(m, woken), |v|);
    if Notified(m, woken) != m {
      var i := FirstIn(m.index, Completed);
      EvictEffect(m, i);
      MakeRoomEffect(Evict(m, i), |v|, m.index[i].key);
      EvictOldest(m, MakeRoom(Evict(m, i), |v|).index);
    }
  }

  lemma WithNew(index: Index<Copy>, r: Index<Copy>, k: Key, copy: Copy)
    requires k !in Keys(index)
    ensures OldestFirst(index, r) ==> OldestFirst(index, r + [Element(k, copy)])
    ensures forall i: nat :: LastEvicted(index, i, r + [Element(k, copy)]) ==> LastEvicted(index, i, r)
  {
    KeysOfJoined(r, [Element(k, copy)]);
    assert forall i | 0 <= i < |index| :: index[i].key in Keys(index) && index[i].key != k;
    hide Keys;
  }

  /** A store evicts the oldest completed elements first, those that stay being the newest. */
  lemma EvictsOldestFirst(s: State, k: Key, woken: bool)
    requires Reachable(s) && k in s.pending && |s.pending[k]| <= s.memory.max
    ensures var index, kept := s.memory.index, StoreInMemory(s.memory, k, s.pending[k], woken).index;
            forall i, j | 0 <= i < j < |index| && index[i].item.alsoOnDisk == index[j].item.alsoOnDisk == Completed ::
              index[i].key in Keys(kept) ==> index[j].key in Keys(kept)
  {
    ReachableInv(s);
    PendingGone(s, k);
    hide View, Keys, Distinct, Inv;
    StoreOldestFirst(s.memory, s.pending[k], woken);
    WithNew(s.memory.index, MakeRoom(Notified(s.memory, woken), |s.pending[k]|).index, k, Copy(s.pending[k], NotStarted));
  }

  lemma PendingGone(s: State, k: Key)
    requires Inv(s) && k in s.pending
    ensures MemorySound(s.memory) && k !in Keys(s.memory.index)
  {
    assert KeyOk(s, k);
  }

  /** A store which was not notified and enters its value evicts no more than it must: the value would not fit beside the last one evicted. */
  lemma EvictsNoMore(s: State, k: Key, i: nat)
    requires Reachable(s) && Enabled(s, EnterStore(k)) && |s.pending[k]| <= s.memory.max && k !in s.waiting && Enters(s, k)
    requires i < |s.memory.index| && s.memory.index[i].key !in Keys(Next(s, EnterStore(k)).memory.index)
    requires forall j | i < j < |s.memory.index| && s.memory.index[j].item.alsoOnDisk == Completed ::
               s.memory.index[j].key in Keys(Next(s, EnterStore(k)).memory.index)
    ensures MemorySize(Next(s, EnterStore(k)).memory.index) + |s.memory.index[i].item.value| > s.memory.max
  {
    ReachableInv(s);
    ReachablePossible(s);
    Accounting(s);
    PendingGone(s, k);
    assert Next(s, EnterStore(k)).memory == StoreInMemory(s.memory, k, s.pending[k], false);
    hide View, Keys, Distinct, Inv, Reachable, MemorySize, Next, Enabled;
    BesideLastEvicted(s.memory, k, s.pending[k], i);
  }

  lemma BesideLastEvicted(m: Memory, k: Key, v: Value, i: nat)
    requires MemorySound(m) && MemoryCounted(m) && |v| <= m.max && k !in Keys(m.index) && EntersMemory(m, v, false)
    requires LastEvicted(m.index, i, StoreInMemory(m, k, v, false).index)
    ensures MemorySize(StoreInMemory(m, k, v, false).index) + |m.index[i].item.value| > m.max
  {
    hide View, Keys, Distinct, MemorySize, MakeRoom, LastEvicted;
    var r := MakeRoom(m, |v|);
    WithNew(m.index, r.index, k, Copy(v, NotStarted));
    assert LastEvicted(m.index, i, r.index);
    RoomNoMore(m, |v|, i);
    StoreInMemoryCounted(m, k, v, false);
  }

  // ---------------------------------------------------------------- disk

  /** The bytes which count as used on disk: those of all files, and of those that were written over. */
  ghost function BytesOnDisk(s: State): nat {
    FileSize(s.disk.files) + s.disk.overwritten
  }

  lemma WaitsIff(d: Disk, k: Key, v: Value)
    requires |v| <= d.max && Distinct(d.index)
    ensures StoreOnDisk(d, k, v, false).Waits? <==> d.usage + |v| > d.max && k in View(d.index) && View(d.index)[k] != Cancelled
    ensures StoreOnDisk(d, k, v, false).Room? <==> d.usage + |v| <= d.max
    ensures StoreOnDisk(d, k, v, false).Waits? ==> StoreOnDisk(d, k, v, false).disk == d.(moving := d.moving[k := v])
    ensures !StoreOnDisk(d, k, v, false).Waits? ==> StoreOnDisk(d, k, v, false).disk.moving == d.moving
  {
  }

  /**
   Without a pop functor a store that enters the disk waits if and only if its value does not fit
   beside the bytes there, whether it comes from the worker or from a client.
   */
  lemma EnteringWaitsIff(s: State, k: Key)
    requires Reachable(s) && !s.hasPop
    ensures Enabled(s, EnterCopy) ==>
              (Next(s, EnterCopy).worker.Copying? <==> BytesOnDisk(s) + |s.worker.value| > s.disk.max)
    ensures Enabled(s, EnterStore(k)) && Orderly(s, EnterStore(k)) && s.memory.max < |s.pending[k]| <= s.disk.max ==>
              (k in Next(s, EnterStore(k)).disk.moving <==> BytesOnDisk(s) + |s.pending[k]| > s.disk.max)
  {
    ReachableInv(s);
    ReachablePossible(s);
    Accounting(s);
    hide Reachable, Possible, StoreOnDisk, FileSize, MemorySize, PendingDelete, OthersPopped, PoppedOf;
    if Enabled(s, EnterCopy) {
      InvSays(s, s.worker.key);
      EnterEffect(s.disk, s.worker.key);
      WaitsIff(EnterDisk(s.disk, s.worker.key), s.worker.key, s.worker.value);
    }
    if Enabled(s, EnterStore(k)) && Orderly(s, EnterStore(k)) && s.memory.max < |s.pending[k]| <= s.disk.max {
      InvSays(s, k);
      EnterEffect(Renewed(s.disk, k), k);
      WaitsIff(EnterDisk(Renewed(s.disk, k), k), k, s.pending[k]);
    }
  }

  /** A store which is woken goes on waiting if and only if its value still does not fit and no Delete has taken or cancelled its element. */
  lemma WokenWaitsIff(s: State, k: Key)
    requires Reachable(s) && !s.hasPop
    ensures Enabled(s, WakeCopy) ==>
              (Next(s, WakeCopy).worker.Copying? <==>
               BytesOnDisk(s) + |s.worker.value| > s.disk.max && Element(s.worker.key, Started) in s.disk.index)
    ensures Enabled(s, WakeStore(k)) ==>
              (k in Next(s, WakeStore(k)).disk.moving <==>
               BytesOnDisk(s) + |s.disk.moving[k]| > s.disk.max && Element(k, Started) in s.disk.index)
  {
    ReachableInv(s);
    ReachablePossible(s);
    Accounting(s);
    hide Reachable, Possible, StoreOnDisk, FileSize, MemorySize;
    if Enabled(s, WakeCopy) {
      InvSays(s, s.worker.key);
      WaitingElement(s, s.worker.key);
      WaitsIff(Wake(s.disk, s.worker.key), s.worker.key, s.worker.value);
    }
    if Enabled(s, WakeStore(k)) {
      InvSays(s, k);
      WaitingElement(s, k);
      WaitsIff(Wake(s.disk, k), k, s.disk.moving[k]);
    }
  }

  lemma WaitingElement(s: State, k: Key)
    requires Inv(s) && k in s.disk.moving
    ensures Element(k, Started) in s.disk.index <==> k in View(s.disk.index) && View(s.disk.index)[k] != Cancelled
  {
    InvSays(s, k);
    if k in View(s.disk.index) {
      assert s.disk.index[Find(s.disk.index, k)] in s.disk.index;
    }
    if Element(k, Started) in s.disk.index {
      var i :| 0 <= i < |s.disk.index| && s.disk.index[i] == Element(k, Started);
      ViewAt(s.disk.index, i);
    }
  }
}
