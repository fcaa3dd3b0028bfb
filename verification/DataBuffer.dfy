/**
 The data buffer itself.  Each method is what one thread does while it holds one of the two locks;
 where the program waits for a notification the method returns and says so.  The pop functor is
 modelled by the list of the calls made to it, a file system by a map from keys to contents.
 */
module DataBuffer {
  import opened Options
  import opened Indexes
  import opened BufferSections
  import B = BufferSections

  datatype Progress = Done | Cancelled | Waiting

  class DataBuffer {
    const maxMemory: nat
    const maxDisk: nat
    const hasPop: bool
    var memoryUsage: int
    var memoryIndex: Index<Copy>
    var diskUsage: int
    var diskIndex: Index<StoringState>
    var files: map<Key, Value>
    var moving: map<Key, Value>
    var popped: seq<(Key, Value)>
    ghost var overwritten: nat

    ghost function MemoryStore(): Memory
      reads this
    {
      Memory(maxMemory, memoryUsage, memoryIndex)
    }

    ghost function DiskStore(): Disk
      reads this
    {
      Disk(maxDisk, diskUsage, diskIndex, files, moving, popped, overwritten)
    }

    constructor (maxMemory: nat, maxDisk: nat, hasPop: bool)
      ensures this.maxMemory == maxMemory && this.maxDisk == maxDisk && this.hasPop == hasPop
      ensures MemoryStore() == Memory(maxMemory, 0, []) && DiskStore() == Disk(maxDisk, 0, [], map[], map[], [], 0)
    {
      this.maxMemory, this.maxDisk, this.hasPop := maxMemory, maxDisk, hasPop;
      memoryUsage, memoryIndex := 0, [];
      diskUsage, diskIndex, files, moving, popped, overwritten := 0, [], map[], map[], [], 0;
    }

    /** A buffer whose memory may hold more than its disk is refused. */
    static method Create(maxMemory: nat, maxDisk: nat, hasPop: bool) returns (r: Option<DataBuffer>)
      ensures r.Some? <==> maxMemory <= maxDisk
      ensures r.Some? ==> fresh(r.value) && r.value.hasPop == hasPop
      ensures r.Some? ==> r.value.MemoryStore() == Memory(maxMemory, 0, []) && r.value.DiskStore() == Disk(maxDisk, 0, [], map[], map[], [], 0)
    {
      if maxMemory > maxDisk {
        return None;
      }
      var buffer := new DataBuffer(maxMemory, maxDisk, hasPop);
      return Some(buffer);
    }

    // -------------------------------------------------------------- memory

    method EvictFirstCompleted() returns (evicted: bool)
      modifies this`memoryUsage, this`memoryIndex
      ensures MemoryStore() == Notified(old(MemoryStore()), true)
      ensures evicted ==> |memoryIndex| < |old(memoryIndex)|
      ensures evicted <==> FirstIn(old(memoryIndex), Completed) < |old(memoryIndex)|
    {
      var i := FirstIn(memoryIndex, Completed);
      if i == |memoryIndex| {
        return false;
      }
      memoryUsage := memoryUsage - |memoryIndex[i].item.value|;
      memoryIndex := RemoveAt(memoryIndex, i);
      return true;
    }

    /**
     Evicts completed elements, oldest first; false if there is still no room and the thread waits.
     A thread that was woken up evicts one before it looks for room.
     */
    method WaitForSpaceInMemory(required: nat, woken: bool) returns (room: bool)
      requires required <= maxMemory
      modifies this`memoryUsage, this`memoryIndex
      ensures MemoryStore() == MakeRoom(Notified(old(MemoryStore()), woken), required)
      ensures room <==> HasSpace(maxMemory, memoryUsage, required)
    {
      hide MakeRoom;
      if woken {
        var _ := EvictFirstCompleted();
      }
      while !HasSpace(maxMemory, memoryUsage, required)
        invariant MakeRoom(MemoryStore(), required) == MakeRoom(Notified(old(MemoryStore()), woken), required)
        decreases |memoryIndex|
      {
        MakeRoomStep(MemoryStore(), required);
        var evicted := EvictFirstCompleted();
        if !evicted {
          return false;
        }
      }
      MakeRoomStep(MemoryStore(), required);
      return true;
    }

    method StoreInMemory(key: Key, value: Value, woken: bool) returns (p: Progress)
      requires |value| <= maxMemory
      modifies this`memoryUsage, this`memoryIndex
      ensures MemoryStore() == B.StoreInMemory(old(MemoryStore()), key, value, woken)
      ensures p == if EntersMemory(old(MemoryStore()), value, woken) then Done else Waiting
    {
      var room := WaitForSpaceInMemory(|value|, woken);
      if !room {
        return Waiting;
      }
      memoryUsage := memoryUsage + |value|;
      memoryIndex := memoryIndex + [Element(key, Copy(value, NotStarted))];
      return Done;
    }

    /** The worker takes the oldest value it has not begun to copy. */
    method TakeOldest() returns (taken: Option<(Key, Value)>)
      modifies this`memoryIndex
      ensures var m := old(MemoryStore());
              var i := FirstIn(m.index, NotStarted);
              if i < |m.index| then taken == Some((m.index[i].key, m.index[i].item.value)) && MemoryStore() == Mark(m, i, Started)
              else taken == None && MemoryStore() == m
    {
      var i := FirstIn(memoryIndex, NotStarted);
      if i == |memoryIndex| {
        return None;
      }
      var e := memoryIndex[i];
      memoryIndex := memoryIndex[i := Element(e.key, e.item.(alsoOnDisk := Started))];
      return Some((e.key, e.item.value));
    }

    method FinishCopy(key: Key)
      modifies this`memoryIndex
      ensures MemoryStore() == MarkCompleted(old(MemoryStore()), key)
    {
      var i := Find(memoryIndex, key);
      if i < |memoryIndex| {
        memoryIndex := memoryIndex[i := Element(memoryIndex[i].key, memoryIndex[i].item.(alsoOnDisk := Completed))];
      }
    }

    method DeleteFromMemory(key: Key) returns (alsoOnDisk: StoringState)
      modifies this`memoryUsage, this`memoryIndex
      ensures MemoryStore() == B.DeleteFromMemory(old(MemoryStore()), key)
      ensures alsoOnDisk == AlsoOnDisk(old(MemoryStore()), key)
    {
      var i := Find(memoryIndex, key);
      if i == |memoryIndex| {
        // A key that is not here may have been evicted.
        return Completed;
      }
      alsoOnDisk := memoryIndex[i].item.alsoOnDisk;
      memoryUsage := memoryUsage - |memoryIndex[i].item.value|;
      memoryIndex := RemoveAt(memoryIndex, i);
    }

    method DeleteAllFromMemory(keys: set<Key>)
      modifies this`memoryUsage, this`memoryIndex
      ensures MemoryStore() == B.DeleteAllFromMemory(old(MemoryStore()), keys)
    {
      var kept: Index<Copy> := [];
      var i := 0;
      while i < |memoryIndex|
        invariant 0 <= i <= |memoryIndex| && memoryIndex == old(memoryIndex)
        invariant kept == Without(memoryIndex[..i], keys)
        invariant memoryUsage == old(memoryUsage) - (MemorySize(memoryIndex[..i]) - MemorySize(kept))
      {
        assert memoryIndex[..i + 1][..i] == memoryIndex[..i];
        if memoryIndex[i].key in keys {
          memoryUsage := memoryUsage - |memoryIndex[i].item.value|;
        } else {
          assert (kept + [memoryIndex[i]])[..|kept|] == kept;
          kept := kept + [memoryIndex[i]];
        }
        i := i + 1;
      }
      assert memoryIndex[..i] == memoryIndex;
      memoryIndex := kept;
    }

    method GetFromMemory(key: Key) returns (value: Option<Value>)
      ensures value.Some? <==> key in Keys(memoryIndex)
      ensures value.Some? ==> value.value == memoryIndex[Find(memoryIndex, key)].item.value
    {
      var i := Find(memoryIndex, key);
      return if i < |memoryIndex| then Some(memoryIndex[i].item.value) else None;
    }

    // -------------------------------------------------------------- disk

    /** Reads a file and removes it. */
    method RemoveFile(key: Key) returns (value: Value)
      requires key in files
      modifies this`files, this`diskUsage
      ensures value == old(files)[key] && files == old(files) - {key} && diskUsage == old(diskUsage) - |value|
    {
      value := files[key];
      files := files - {key};
      diskUsage := diskUsage - |value|;
    }

    /** Pops until there is room; Waiting and Cancelled as in the program. */
    method WaitForSpaceOnDisk(key: Key, value: Value) returns (p: Progress)
      requires |value| <= maxDisk && !B.WaitForSpaceOnDisk(DiskStore(), key, value, hasPop).Stuck?
      modifies this`diskUsage, this`diskIndex, this`files, this`moving, this`popped
      ensures var r := B.WaitForSpaceOnDisk(old(DiskStore()), key, value, hasPop);
              && DiskStore() == r.disk
              && p == match r case Dropped(_) => Progress.Cancelled case Waits(_) => Waiting case _ => Done
    {
      hide B.WaitForSpaceOnDisk;
      ghost var whole := B.WaitForSpaceOnDisk(DiskStore(), key, value, hasPop);
      while !HasSpace(maxDisk, diskUsage, |value|)
        invariant B.WaitForSpaceOnDisk(DiskStore(), key, value, hasPop) == whole
        decreases |diskIndex|
      {
        WaitStep(DiskStore(), key, value, hasPop);
        var i := Find(diskIndex, key);
        if i == |diskIndex| {
          return Progress.Cancelled;
        }
        if diskIndex[i].item == StoringState.Cancelled {
          diskIndex := RemoveAt(diskIndex, i);
          return Progress.Cancelled;
        }
        if !hasPop {
          // A Get reads the value from here meanwhile.
          moving := moving[key := value];
          return Waiting;
        }
        var oldestKey := diskIndex[0].key;
        var oldestValue := RemoveFile(oldestKey);
        diskIndex := diskIndex[1..];
        popped := popped + [(oldestKey, oldestValue)];
      }
      WaitStep(DiskStore(), key, value, hasPop);
      return Done;
    }

    /** Goes on with a store for which the key has been entered. */
    method GoOnStoring(key: Key, value: Value) returns (p: Progress)
      requires |value| <= maxDisk && !B.StoreOnDisk(DiskStore(), key, value, hasPop).Stuck?
      modifies this`diskUsage, this`diskIndex, this`files, this`moving, this`popped, this`overwritten
      ensures var r := B.StoreOnDisk(old(DiskStore()), key, value, hasPop);
              && DiskStore() == r.disk
              && p == match r case Dropped(_) => Progress.Cancelled case Waits(_) => Waiting case _ => Done
    {
      p := WaitForSpaceOnDisk(key, value);
      if p == Done {
        overwritten := overwritten + if key in files then |files[key]| else 0;
        files := files[key := value];
        var i := FindStarted(diskIndex, key);
        if i < |diskIndex| {
          diskIndex := diskIndex[i := Element(key, Completed)];
        }
        diskUsage := diskUsage + |value|;
      }
    }

    method StoreOnDisk(key: Key, value: Value) returns (p: Progress)
      requires |value| <= maxDisk && !B.StoreOnDisk(EnterDisk(DiskStore(), key), key, value, hasPop).Stuck?
      modifies this`diskUsage, this`diskIndex, this`files, this`moving, this`popped, this`overwritten
      ensures DiskStore() == B.StoreOnDisk(EnterDisk(old(DiskStore()), key), key, value, hasPop).disk
      ensures p == Done <==> B.StoreOnDisk(EnterDisk(old(DiskStore()), key), key, value, hasPop).Room?
    {
      diskIndex := diskIndex + [Element(key, Started)];
      assert DiskStore() == EnterDisk(old(DiskStore()), key);
      p := GoOnStoring(key, value);
    }

    /** The same thread again, once it has been notified. */
    method WakeStore(key: Key, value: Value) returns (p: Progress)
      requires |value| <= maxDisk && !B.StoreOnDisk(Wake(DiskStore(), key), key, value, hasPop).Stuck?
      modifies this`diskUsage, this`diskIndex, this`files, this`moving, this`popped, this`overwritten
      ensures DiskStore() == B.StoreOnDisk(Wake(old(DiskStore()), key), key, value, hasPop).disk
      ensures p == Waiting <==> B.StoreOnDisk(Wake(old(DiskStore()), key), key, value, hasPop).Waits?
    {
      moving := moving - {key};
      assert DiskStore() == Wake(old(DiskStore()), key);
      p := GoOnStoring(key, value);
    }

    /** False if there is no such element, which is an error. */
    method DeleteFromDisk(key: Key) returns (found: bool)
      requires Removable(DiskStore(), key)
      modifies this`diskUsage, this`diskIndex, this`files
      ensures DiskStore() == B.DeleteFromDisk(old(DiskStore()), key)
      ensures found <==> key in Keys(old(diskIndex))
    {
      var i := Find(diskIndex, key);
      if i == |diskIndex| {
        return false;
      }
      if diskIndex[i].item == Started {
        diskIndex := diskIndex[i := Element(key, StoringState.Cancelled)];
      } else if diskIndex[i].item == Completed {
        var _ := RemoveFile(key);
        diskIndex := RemoveAt(diskIndex, i);
      }
      return true;
    }

    method DeleteAllFromDisk(keys: set<Key>)
      modifies this`diskIndex
      ensures DiskStore() == B.DeleteAllFromDisk(old(DiskStore()), keys)
    {
      var kept: Index<StoringState> := [];
      var i := 0;
      while i < |diskIndex|
        invariant 0 <= i <= |diskIndex| && diskIndex == old(diskIndex)
        invariant kept == Without(diskIndex[..i], keys)
      {
        assert diskIndex[..i + 1][..i] == diskIndex[..i];
        if diskIndex[i].key !in keys {
          kept := kept + [diskIndex[i]];
        }
        i := i + 1;
      }
      assert diskIndex[..i] == diskIndex;
      diskIndex := kept;
    }

    method ReadFromDisk(key: Key) returns (r: Reading)
      ensures r == GetFromDisk(DiskStore(), key)
    {
      var i := Find(diskIndex, key);
      if i == |diskIndex| || diskIndex[i].item == StoringState.Cancelled {
        return NoSuchElement;
      }
      if diskIndex[i].item == Started {
        return if key in moving then Read(moving[key]) else MustWait;
      }
      return if key in files then Read(files[key]) else CannotRead;
    }
  }
}
