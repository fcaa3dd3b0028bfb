/** What the sections of a data buffer change, key by key. */
module BufferEffects {
  import opened Indexes
  import opened BufferSections

  ghost function PoppedKeys(popped: seq<(Key, Value)>): set<Key> {
    set p | p in popped :: p.0
  }

  ghost predicate MemorySound(m: Memory) {
    Distinct(m.index)
  }

  ghost predicate DiskSound(d: Disk) {
    Distinct(d.index)
  }

  // ---------------------------------------------------------------- memory

  lemma EvictEffect(m: Memory, i: nat)
    requires MemorySound(m) && i < |m.index|
    ensures MemorySound(Evict(m, i)) && View(Evict(m, i).index) == View(m.index) - {m.index[i].key}
  {
    Removed(m.index, i);
  }

  /** Making room takes only completed elements, and no more than needed. */
  lemma {:induction false} MakeRoomEffect(m: Memory, required: nat, k: Key)
    requires MemorySound(m) && required <= m.max
    ensures var r := MakeRoom(m, required);
            && MemorySound(r)
            && (k in View(r.index) ==> k in View(m.index) && View(r.index)[k] == View(m.index)[k])
            && (k in View(m.index) && k !in View(r.index) ==> View(m.index)[k].alsoOnDisk == Completed)
    decreases |m.index|
  {
    var i := FirstIn(m.index, Completed);
    if !HasSpace(m.max, m.usage, required) && i < |m.index| {
      EvictEffect(m, i);
      ViewAt(m.index, i);
      MakeRoomEffect(Evict(m, i), required, k);
    }
  }

  lemma NotifiedEffect(m: Memory, woken: bool, x: Key)
    requires MemorySound(m)
    ensures var r := Notified(m, woken);
            && MemorySound(r) && r.max == m.max
            && (x in View(r.index) ==> x in View(m.index) && View(r.index)[x] == View(m.index)[x])
            && (x in View(m.index) && x !in View(r.index) ==> View(m.index)[x].alsoOnDisk == Completed)
  {
    var i := FirstIn(m.index, Completed);
    if i < |m.index| {
      EvictEffect(m, i);
      ViewAt(m.index, i);
    }
  }

  lemma StoreInMemoryEffect(m: Memory, k: Key, v: Value, woken: bool, x: Key)
    requires MemorySound(m) && |v| <= m.max && k !in View(m.index)
    ensures var r := StoreInMemory(m, k, v, woken);
            && MemorySound(r) && r.max == m.max
            && (x == k ==> if EntersMemory(m, v, woken) then x in View(r.index) && View(r.index)[x] == Copy(v, NotStarted) else x !in View(r.index))
            && (x != k && x in View(r.index) ==> x in View(m.index) && View(r.index)[x] == View(m.index)[x])
            && (x != k && x in View(m.index) && x !in View(r.index) ==> View(m.index)[x].alsoOnDisk == Completed)
  {
    hide View, Keys, MemorySize, Notified, MakeRoom;
    var n := Notified(m, woken);
    NotifiedEffect(m, woken, x);
    NotifiedEffect(m, woken, k);
    var r := MakeRoom(n, |v|);
    MakeRoomEffect(n, |v|, x);
    MakeRoomEffect(n, |v|, k);
    EnterMemoryEffect(r, k, v);
  }

  lemma EnterMemoryEffect(m: Memory, k: Key, v: Value)
    requires MemorySound(m) && k !in View(m.index)
    ensures var r := m.(usage := m.usage + |v|, index := m.index + [Element(k, Copy(v, NotStarted))]);
            MemorySound(r) && View(r.index) == View(m.index)[k := Copy(v, NotStarted)]
  {
    Added(m.index, k, Copy(v, NotStarted));
  }

  lemma MarkEffect(m: Memory, i: nat, state: StoringState)
    requires MemorySound(m) && i < |m.index|
    ensures MemorySound(Mark(m, i, state))
    ensures m.index[i].key in View(m.index) && View(m.index)[m.index[i].key] == m.index[i].item
    ensures View(Mark(m, i, state).index) == View(m.index)[m.index[i].key := m.index[i].item.(alsoOnDisk := state)]
  {
    ViewAt(m.index, i);
    Replaced(m.index, i, m.index[i].item.(alsoOnDisk := state));
  }

  lemma MarkCompletedEffect(m: Memory, k: Key)
    requires MemorySound(m)
    ensures var r := MarkCompleted(m, k);
            && MemorySound(r) && r.max == m.max
            && View(r.index) == if k in View(m.index) then View(m.index)[k := View(m.index)[k].(alsoOnDisk := Completed)] else View(m.index)
  {
    var i := Find(m.index, k);
    if i < |m.index| {
      MarkEffect(m, i, Completed);
    }
  }

  lemma DeleteFromMemoryEffect(m: Memory, k: Key)
    requires MemorySound(m)
    ensures var r := DeleteFromMemory(m, k);
            && MemorySound(r) && r.max == m.max
            && View(r.index) == View(m.index) - {k}
            && AlsoOnDisk(m, k) == if k in View(m.index) then View(m.index)[k].alsoOnDisk else Completed
  {
    var i := Find(m.index, k);
    if i < |m.index| {
      EvictEffect(m, i);
    }
  }

  lemma DeleteAllFromMemoryEffect(m: Memory, keys: set<Key>)
    requires MemorySound(m)
    ensures var r := DeleteAllFromMemory(m, keys);
            && MemorySound(r) && r.max == m.max
            && View(r.index) == View(m.index) - keys
  {
    Filtered(m.index, keys);
  }

  // ---------------------------------------------------------------- disk

  /** What the disk holds for key x: its state, its file, and whether it was popped. */
  ghost predicate SameAt(d: Disk, e: Disk, x: Key) {
    && (x in View(d.index) <==> x in View(e.index))
    && (x in View(d.index) ==> View(d.index)[x] == View(e.index)[x])
    && (x in d.files <==> x in e.files) && (x in d.files ==> d.files[x] == e.files[x])
    && (x in PoppedKeys(d.popped) <==> x in PoppedKeys(e.popped))
  }

  ghost predicate PoppedAt(d: Disk, e: Disk, x: Key) {
    && x in View(d.index) && View(d.index)[x] == Completed && x in d.files
    && x !in View(e.index) && x !in e.files && x in PoppedKeys(e.popped)
  }

  /** Whatever was handed to the pop functor was the file of a completed element. */
  ghost predicate PopsFiles(d: Disk, e: Disk) {
    forall p | p in e.popped ::
      p in d.popped || (p.0 in View(d.index) && View(d.index)[p.0] == Completed && p.0 in d.files && p.1 == d.files[p.0])
  }

  lemma PopOldestEffect(d: Disk, x: Key)
    requires DiskSound(d) && CanPop(d)
    ensures var e := PopOldest(d);
            && DiskSound(e) && e.max == d.max && e.moving == d.moving && PopsFiles(d, e)
            && View(e.index) == View(d.index) - {d.index[0].key} && e.files == d.files - {d.index[0].key}
            && if x == d.index[0].key then PoppedAt(d, e, x) else SameAt(d, e, x)
  {
    Removed(d.index, 0);
    ViewAt(d.index, 0);
    assert RemoveAt(d.index, 0) == d.index[1..];
    var e := PopOldest(d);
    var p := (d.index[0].key, d.files[d.index[0].key]);
    assert p in e.popped;
    assert forall q :: q in e.popped <==> q in d.popped || q == p;
  }

  /** Making room on disk: some completed elements have been popped and the others are as before. */
  lemma {:induction false} RoomEffect(d: Disk, k: Key, v: Value, hasPop: bool, x: Key)
    requires DiskSound(d) && |v| <= d.max && WaitForSpaceOnDisk(d, k, v, hasPop).Room?
    ensures var e := WaitForSpaceOnDisk(d, k, v, hasPop).disk;
            && DiskSound(e) && e.max == d.max && e.moving == d.moving && PopsFiles(d, e)
            && (SameAt(d, e, x) || (hasPop && PoppedAt(d, e, x)))
    decreases |d.index|
  {
    if !HasSpace(d.max, d.usage, |v|) {
      PopOldestEffect(d, x);
      RoomEffect(PopOldest(d), k, v, hasPop, x);
    }
  }

  lemma {:induction false} StartedIsFound(index: Index<StoringState>, k: Key)
    requires Distinct(index)
    ensures FindStarted(index, k) < |index| <==> k in View(index) && View(index)[k] == Started
    ensures FindStarted(index, k) < |index| ==> FindStarted(index, k) == Find(index, k)
  {
    var i := FindStarted(index, k);
    if i < |index| {
      ViewAt(index, i);
    }
    if k in View(index) && View(index)[k] == Started {
      assert index[Find(index, k)] == Element(k, Started);
    }
  }

  lemma WriteEffect(d: Disk, k: Key, v: Value, x: Key)
    requires DiskSound(d)
    ensures var e := WriteToDisk(d, k, v);
            && DiskSound(e) && e.files == d.files[k := v]
            && View(e.index) ==
               if k in View(d.index) && View(d.index)[k] == Started then View(d.index)[k := Completed] else View(d.index)
  {
    StartedIsFound(d.index, k);
    var i := FindStarted(d.index, k);
    if i < |d.index| {
      Replaced(d.index, i, Completed);
    }
  }

  lemma EnterEffect(d: Disk, k: Key)
    requires DiskSound(d) && k !in View(d.index)
    ensures DiskSound(EnterDisk(d, k)) && View(EnterDisk(d, k).index) == View(d.index)[k := Started]
  {
    Added(d.index, k, Started);
  }

  /** A store which had to give up leaves no element of its key. */
  lemma {:induction false} DroppedEffect(d: Disk, k: Key, v: Value)
    requires DiskSound(d) && |v| <= d.max && WaitForSpaceOnDisk(d, k, v, false).Dropped?
    ensures var e := WaitForSpaceOnDisk(d, k, v, false).disk;
            && DiskSound(e) && e == d.(index := e.index) && View(e.index) == View(d.index) - {k}
            && (k in View(d.index) ==> View(d.index)[k] == Cancelled)
  {
    var i := Find(d.index, k);
    if i < |d.index| {
      Removed(d.index, i);
      ViewAt(d.index, i);
    }
  }

  lemma DeleteFromDiskEffect(d: Disk, k: Key)
    requires DiskSound(d) && Removable(d, k)
    ensures var e := DeleteFromDisk(d, k);
            var v := View(d.index);
            && DiskSound(e) && e.max == d.max && e.moving == d.moving && e.popped == d.popped && e.overwritten == d.overwritten
            && (k !in v || v[k] == Cancelled || v[k] == NotStarted ==> e == d)
            && (k in v && v[k] == Started ==> e.files == d.files && View(e.index) == v[k := Cancelled])
            && (k in v && v[k] == Completed ==> e.files == d.files - {k} && View(e.index) == v - {k})
  {
    var i := Find(d.index, k);
    if i < |d.index| {
      ViewAt(d.index, i);
      Removed(d.index, i);
      Replaced(d.index, i, Cancelled);
    }
  }

  // ---------------------------------------------------------------- storing on disk

  /** A disk a store of k can go on with: it holds k's element, if any, as started or cancelled. */
  ghost predicate ReadyFor(d: Disk, k: Key, hasPop: bool) {
    && DiskSound(d) && k !in d.moving && k !in PoppedKeys(d.popped)
    && (k in View(d.index) ==> View(d.index)[k] in {Started, Cancelled})
    && (hasPop ==> k in View(d.index) && View(d.index)[k] == Started)
  }

  lemma {:induction false} NeverDroppedWhenPopping(d: Disk, k: Key, v: Value)
    requires ReadyFor(d, k, true) && |v| <= d.max
    ensures WaitForSpaceOnDisk(d, k, v, true).Room? || WaitForSpaceOnDisk(d, k, v, true).Stuck?
    decreases |d.index|
  {
    ViewAt(d.index, Find(d.index, k));
    if CanPop(d) {
      ViewAt(d.index, 0);
      PopOldestEffect(d, k);
      NeverDroppedWhenPopping(PopOldest(d), k, v);
    }
  }

  /** What a store does at its own key. */
  ghost predicate StoredAt(d: Disk, r: Search, k: Key, v: Value) {
    match r
    case Stuck => false
    case Room(e) =>
      && e.files == e.files[k := v] && k !in PoppedKeys(e.popped) && e.moving == d.moving
      && (k in View(e.index) <==> k in View(d.index))
      && (k in View(d.index) ==> View(e.index)[k] == if View(d.index)[k] == Started then Completed else View(d.index)[k])
    case Waits(e) => e == d.(moving := d.moving[k := v]) && k in View(d.index) && View(d.index)[k] == Started
    case Dropped(e) =>
      e == d.(index := e.index) && View(e.index) == View(d.index) - {k} && (k in View(d.index) ==> View(d.index)[k] == Cancelled)
  }

  lemma {:induction false} WriteOwn(d: Disk, k: Key, v: Value, hasPop: bool)
    requires ReadyFor(d, k, hasPop) && |v| <= d.max && WaitForSpaceOnDisk(d, k, v, hasPop).Room?
    ensures StoredAt(d, Room(WriteToDisk(WaitForSpaceOnDisk(d, k, v, hasPop).disk, k, v)), k, v)
  {
    hide WaitForSpaceOnDisk, View, Keys, PoppedKeys, FileSize, Distinct;
    RoomEffect(d, k, v, hasPop, k);
    WriteEffect(WaitForSpaceOnDisk(d, k, v, hasPop).disk, k, v, k);
  }

  lemma {:induction false} WriteElse(d: Disk, k: Key, v: Value, hasPop: bool, x: Key)
    requires ReadyFor(d, k, hasPop) && |v| <= d.max && WaitForSpaceOnDisk(d, k, v, hasPop).Room? && x != k
    ensures var e := WriteToDisk(WaitForSpaceOnDisk(d, k, v, hasPop).disk, k, v);
            && DiskSound(e) && e.max == d.max && PopsFiles(d, e) && e.moving == d.moving
            && (SameAt(d, e, x) || (hasPop && PoppedAt(d, e, x)))
  {
    hide WaitForSpaceOnDisk, View, Keys, PoppedKeys, FileSize, Distinct;
    RoomEffect(d, k, v, hasPop, k);
    RoomEffect(d, k, v, hasPop, x);
    WriteEffect(WaitForSpaceOnDisk(d, k, v, hasPop).disk, k, v, k);
  }

  lemma StoreOnDiskOwn(d: Disk, k: Key, v: Value, hasPop: bool)
    requires ReadyFor(d, k, hasPop) && |v| <= d.max && !StoreOnDisk(d, k, v, hasPop).Stuck?
    ensures StoredAt(d, StoreOnDisk(d, k, v, hasPop), k, v)
    ensures StoreOnDisk(d, k, v, hasPop).Room? || !hasPop
  {
    var s := WaitForSpaceOnDisk(d, k, v, hasPop);
    if hasPop {
      NeverDroppedWhenPopping(d, k, v);
    }
    hide View, Keys, DiskSound, WriteToDisk;
    if s.Room? {
      WriteOwn(d, k, v, hasPop);
    } else if s.Dropped? {
      DroppedEffect(d, k, v);
    } else {
      ViewAt(d.index, Find(d.index, k));
    }
  }

  /** What a store does at another key x: nothing, or it pops x. */
  lemma StoreOnDiskElse(d: Disk, k: Key, v: Value, hasPop: bool, x: Key)
    requires ReadyFor(d, k, hasPop) && |v| <= d.max && !StoreOnDisk(d, k, v, hasPop).Stuck? && x != k
    ensures var e := StoreOnDisk(d, k, v, hasPop).disk;
            && DiskSound(e) && e.max == d.max && PopsFiles(d, e)
            && (SameAt(d, e, x) || (hasPop && PoppedAt(d, e, x)))
            && (x in e.moving <==> x in d.moving) && (x in d.moving ==> e.moving[x] == d.moving[x])
  {
    hide View, Keys, WriteToDisk, FileSize, Distinct, PoppedKeys;
    var s := WaitForSpaceOnDisk(d, k, v, hasPop);
    if hasPop {
      NeverDroppedWhenPopping(d, k, v);
    }
    if s.Room? {
      WriteElse(d, k, v, hasPop, x);
    } else if s.Dropped? {
      DroppedEffect(d, k, v);
    }
  }
}
