/**
 What a data buffer does while it holds one of its two locks.  Every function here is one lock-held
 section, from taking the lock to releasing it or to waiting for a notification.
 */
module BufferSections {
  import opened Indexes

  datatype StoringState = NotStarted | Started | Cancelled | Completed

  datatype Copy = Copy(value: Value, alsoOnDisk: StoringState)

  datatype Memory = Memory(max: nat, usage: int, index: Index<Copy>)

  /**
   The disk index, the files and the values of waiting stores; and, for the record, the calls made of
   the pop functor and the number of bytes in files that were written over.
   */
  datatype Disk = Disk(max: nat, usage: int, index: Index<StoringState>, files: map<Key, Value>,
                       moving: map<Key, Value>, popped: seq<(Key, Value)>, overwritten: nat)

  predicate HasSpace(max: nat, usage: int, required: nat)
    requires required <= max
  {
    usage <= max - required
  }

  // ---------------------------------------------------------------- sizes

  function MemorySize(index: Index<Copy>): nat {
    if index == [] then 0 else MemorySize(index[..|index| - 1]) + |index[|index| - 1].item.value|
  }

  ghost function FileSize(files: map<Key, Value>): nat {
    if files == map[] then 0
    else
      var k :| k in files;
      |files[k]| + FileSize(files - {k})
  }

  lemma {:induction false} FileSizeWithout(files: map<Key, Value>, k: Key)
    requires k in files
    ensures FileSize(files) == |files[k]| + FileSize(files - {k})
    decreases |files|
  {
    var x :| x in files && FileSize(files) == |files[x]| + FileSize(files - {x});
    if x != k {
      FileSizeWithout(files - {x}, k);
      FileSizeWithout(files - {k}, x);
      assert files - {x} - {k} == files - {k} - {x};
    }
  }

  lemma FileSizeWith(files: map<Key, Value>, k: Key, v: Value)
    requires k !in files
    ensures FileSize(files[k := v]) == FileSize(files) + |v|
  {
    FileSizeWithout(files[k := v], k);
    assert files[k := v] - {k} == files;
  }

  lemma {:induction false} MemorySizeWithout(index: Index<Copy>, i: nat)
    requires i < |index|
    ensures MemorySize(index) == |index[i].item.value| + MemorySize(RemoveAt(index, i))
    decreases |index|
  {
    var last := |index| - 1;
    if i == last {
      assert RemoveAt(index, i) == index[..last];
    } else {
      MemorySizeWithout(index[..last], i);
      var r := RemoveAt(index, i);
      assert r[..|r| - 1] == RemoveAt(index[..last], i);
    }
  }

  lemma {:induction false} MemorySizeSame(a: Index<Copy>, b: Index<Copy>)
    requires |a| == |b| && forall i | 0 <= i < |a| :: a[i].item.value == b[i].item.value
    ensures MemorySize(a) == MemorySize(b)
    decreases |a|
  {
    if a != [] {
      MemorySizeSame(a[..|a| - 1], b[..|b| - 1]);
    }
  }

  // ---------------------------------------------------------------- memory sections

  /** The position of the first element in the given state, or the length. */
  function FirstIn(index: Index<Copy>, state: StoringState): (i: nat)
    ensures i <= |index| && (i < |index| ==> index[i].item.alsoOnDisk == state)
    ensures forall j :: 0 <= j < i ==> index[j].item.alsoOnDisk != state
  {
    if index == [] || index[0].item.alsoOnDisk == state then 0 else 1 + FirstIn(index[1..], state)
  }

  function Evict(m: Memory, i: nat): Memory
    requires i < |m.index|
  {
    m.(usage := m.usage - |m.index[i].item.value|, index := RemoveAt(m.index, i))
  }

  /** Evicts completed elements, oldest first, until there is room or none is left. */
  function MakeRoom(m: Memory, required: nat): (r: Memory)
    requires required <= m.max
    ensures r.max == m.max
    ensures HasSpace(r.max, r.usage, required) || forall j | 0 <= j < |r.index| :: r.index[j].item.alsoOnDisk != Completed
    decreases |m.index|
  {
    var i := FirstIn(m.index, Completed);
    if HasSpace(m.max, m.usage, required) || i == |m.index| then m else MakeRoom(Evict(m, i), required)
  }

  lemma {:induction false} MakeRoomStep(m: Memory, required: nat)
    requires required <= m.max
    ensures var i := FirstIn(m.index, Completed);
            MakeRoom(m, required) == if HasSpace(m.max, m.usage, required) || i == |m.index| then m else MakeRoom(Evict(m, i), required)
    ensures !HasSpace(m.max, m.usage, required) && FirstIn(m.index, Completed) < |m.index| ==>
              |Evict(m, FirstIn(m.index, Completed)).index| == |m.index| - 1
  {
  }

  /** A store which was notified takes a completed element, if there is one, before it looks for room again. */
  function Notified(m: Memory, woken: bool): Memory {
    var i := FirstIn(m.index, Completed);
    if woken && i < |m.index| then Evict(m, i) else m
  }

  predicate EntersMemory(m: Memory, v: Value, woken: bool)
    requires |v| <= m.max
  {
    HasSpace(m.max, MakeRoom(Notified(m, woken), |v|).usage, |v|)
  }

  /** A store either enters its value or, having evicted all it can, waits. */
  function StoreInMemory(m: Memory, k: Key, v: Value, woken: bool): Memory
    requires |v| <= m.max
  {
    var r := MakeRoom(Notified(m, woken), |v|);
    if EntersMemory(m, v, woken) then r.(usage := r.usage + |v|, index := r.index + [Element(k, Copy(v, NotStarted))]) else r
  }

  function Mark(m: Memory, i: nat, state: StoringState): Memory
    requires i < |m.index|
  {
    m.(index := m.index[i := Element(m.index[i].key, m.index[i].item.(alsoOnDisk := state))])
  }

  /** The worker has copied k, if it is still there. */
  function MarkCompleted(m: Memory, k: Key): Memory {
    var i := Find(m.index, k);
    if i < |m.index| then Mark(m, i, Completed) else m
  }

  function DeleteFromMemory(m: Memory, k: Key): Memory {
    var i := Find(m.index, k);
    if i < |m.index| then Evict(m, i) else m
  }

  /** Where a deleted key may be besides; a key not in memory is taken to be on disk. */
  function AlsoOnDisk(m: Memory, k: Key): StoringState {
    var i := Find(m.index, k);
    if i < |m.index| then m.index[i].item.alsoOnDisk else Completed
  }

  function DeleteAllFromMemory(m: Memory, keys: set<Key>): Memory {
    var kept := Without(m.index, keys);
    m.(usage := m.usage - (MemorySize(m.index) - MemorySize(kept)), index := kept)
  }

  // ---------------------------------------------------------------- disk sections

  /** How a store on disk gets on: room has been made, the key was deleted meanwhile, it waits, or it cannot go on. */
  datatype Search = Room(disk: Disk) | Dropped(disk: Disk) | Waits(disk: Disk) | Stuck

  /** Reads and removes the file of the oldest element and hands it to the pop functor. */
  function PopOldest(d: Disk): Disk
    requires d.index != [] && d.index[0].key in d.files
  {
    var k := d.index[0].key;
    d.(usage := d.usage - |d.files[k]|, files := d.files - {k}, index := d.index[1..], popped := d.popped + [(k, d.files[k])])
  }

  predicate CanPop(d: Disk) {
    d.index != [] && d.index[0].item == Completed && d.index[0].key in d.files
  }

  function WaitForSpaceOnDisk(d: Disk, k: Key, v: Value, hasPop: bool): Search
    requires |v| <= d.max
    decreases |d.index|
  {
    var i := Find(d.index, k);
    if HasSpace(d.max, d.usage, |v|) then Room(d)
    else if i == |d.index| then Dropped(d)
    else if d.index[i].item == Cancelled then Dropped(d.(index := RemoveAt(d.index, i)))
    else if !hasPop then Waits(d.(moving := d.moving[k := v]))
    else if CanPop(d) then WaitForSpaceOnDisk(PopOldest(d), k, v, hasPop)
    else Stuck
  }

  lemma {:induction false} WaitStep(d: Disk, k: Key, v: Value, hasPop: bool)
    requires |v| <= d.max
    ensures HasSpace(d.max, d.usage, |v|) ==> WaitForSpaceOnDisk(d, k, v, hasPop) == Room(d)
    ensures !HasSpace(d.max, d.usage, |v|) ==>
              var i := Find(d.index, k);
              if i == |d.index| then WaitForSpaceOnDisk(d, k, v, hasPop) == Dropped(d)
              else if d.index[i].item == Cancelled then WaitForSpaceOnDisk(d, k, v, hasPop) == Dropped(d.(index := RemoveAt(d.index, i)))
              else if !hasPop then WaitForSpaceOnDisk(d, k, v, hasPop) == Waits(d.(moving := d.moving[k := v]))
              else !WaitForSpaceOnDisk(d, k, v, hasPop).Stuck? ==>
                     CanPop(d) && WaitForSpaceOnDisk(d, k, v, hasPop) == WaitForSpaceOnDisk(PopOldest(d), k, v, hasPop)
  {
  }

  /** The position of the first element with key k that has been started, or the length. */
  function FindStarted(index: Index<StoringState>, k: Key): (i: nat)
    ensures i <= |index| && (i < |index| ==> index[i] == Element(k, Started))
    ensures forall j :: 0 <= j < i ==> index[j] != Element(k, Started)
  {
    if index == [] || index[0] == Element(k, Started) then 0 else 1 + FindStarted(index[1..], k)
  }

  /** Writes the file; the element is completed unless it was deleted or cancelled. */
  function WriteToDisk(d: Disk, k: Key, v: Value): Disk {
    var i := FindStarted(d.index, k);
    d.(files := d.files[k := v],
       index := if i < |d.index| then d.index[i := Element(k, Completed)] else d.index,
       usage := d.usage + |v|, overwritten := d.overwritten + if k in d.files then |d.files[k]| else 0)
  }

  /** A store on disk from where it has the lock: either just after it entered its key, or when woken. */
  function StoreOnDisk(d: Disk, k: Key, v: Value, hasPop: bool): Search
    requires |v| <= d.max
  {
    var s := WaitForSpaceOnDisk(d, k, v, hasPop);
    if s.Room? then Room(WriteToDisk(s.disk, k, v)) else s
  }

  function EnterDisk(d: Disk, k: Key): Disk {
    d.(index := d.index + [Element(k, Started)])
  }

  function Wake(d: Disk, k: Key): Disk {
    d.(moving := d.moving - {k})
  }

  /** The file of a completed element can be removed. */
  predicate Removable(d: Disk, k: Key) {
    var i := Find(d.index, k);
    i < |d.index| && d.index[i].item == Completed ==> k in d.files
  }

  /** Deleting a key which is in the disk index. */
  function DeleteFromDisk(d: Disk, k: Key): Disk
    requires Removable(d, k)
  {
    var i := Find(d.index, k);
    if i == |d.index| then d
    else if d.index[i].item == Started then d.(index := d.index[i := Element(k, Cancelled)])
    else if d.index[i].item == Completed then
      d.(usage := d.usage - |d.files[k]|, files := d.files - {k}, index := RemoveAt(d.index, i))
    else d
  }

  function DeleteAllFromDisk(d: Disk, keys: set<Key>): Disk {
    d.(index := Without(d.index, keys))
  }

  datatype Reading = NoSuchElement | Read(value: Value) | MustWait | CannotRead

  function GetFromDisk(d: Disk, k: Key): Reading {
    var i := Find(d.index, k);
    if i == |d.index| || d.index[i].item == Cancelled then NoSuchElement
    else if d.index[i].item == Started then
      if k in d.moving then Read(d.moving[k]) else MustWait
    else if k in d.files then Read(d.files[k])
    else CannotRead
  }
}
