/** The two counters of a data buffer in every interleaving, whatever keys are stored and deleted when. */
module BufferCounters {
  import opened Indexes
  import opened BufferSections
  import opened BufferRuns

  ghost predicate MemoryCounted(m: Memory) {
    m.usage == MemorySize(m.index) <= m.max
  }

  /** The counter is the bytes in files and those of the files that were written over since. */
  ghost predicate DiskCounted(d: Disk) {
    d.usage == FileSize(d.files) + d.overwritten <= d.max
  }

  // ---------------------------------------------------------------- memory

  lemma EvictCounted(m: Memory, i: nat)
    requires MemoryCounted(m) && i < |m.index|
    ensures MemoryCounted(Evict(m, i))
  {
    MemorySizeWithout(m.index, i);
  }

  lemma {:induction false} MakeRoomCounted(m: Memory, required: nat)
    requires MemoryCounted(m) && required <= m.max
    ensures MemoryCounted(MakeRoom(m, required))
    decreases |m.index|
  {
    var i := FirstIn(m.index, Completed);
    if !HasSpace(m.max, m.usage, required) && i < |m.index| {
      EvictCounted(m, i);
      MakeRoomCounted(Evict(m, i), required);
    }
  }

  lemma StoreInMemoryCounted(m: Memory, k: Key, v: Value, woken: bool)
    requires MemoryCounted(m) && |v| <= m.max
    ensures MemoryCounted(StoreInMemory(m, k, v, woken))
  {
    if woken && FirstIn(m.index, Completed) < |m.index| {
      EvictCounted(m, FirstIn(m.index, Completed));
    }
    var r := MakeRoom(Notified(m, woken), |v|);
    MakeRoomCounted(Notified(m, woken), |v|);
    var index := r.index + [Element(k, Copy(v, NotStarted))];
    assert index[..|index| - 1] == r.index;
  }

  lemma MarkCounted(m: Memory, i: nat, state: StoringState)
    requires MemoryCounted(m) && i < |m.index|
    ensures MemoryCounted(Mark(m, i, state))
  {
    MemorySizeSame(m.index, Mark(m, i, state).index);
  }

  lemma {:induction false} KeptIsSmaller(index: Index<Copy>, keys: set<Key>)
    ensures MemorySize(Without(index, keys)) <= MemorySize(index)
    decreases |index|
  {
    if index != [] {
      var last := |index| - 1;
      KeptIsSmaller(index[..last], keys);
      var rest := Without(index[..last], keys);
      assert (rest + [index[last]])[..|rest|] == rest;
    }
  }

  // ---------------------------------------------------------------- disk

  lemma PopCounted(d: Disk)
    requires DiskCounted(d) && CanPop(d)
    ensures DiskCounted(PopOldest(d))
  {
    FileSizeWithout(d.files, d.index[0].key);
  }

  lemma {:induction false} WaitCounted(d: Disk, k: Key, v: Value, hasPop: bool)
    requires DiskCounted(d) && |v| <= d.max && !WaitForSpaceOnDisk(d, k, v, hasPop).Stuck?
    ensures var r := WaitForSpaceOnDisk(d, k, v, hasPop);
            DiskCounted(r.disk) && r.disk.max == d.max && (r.Room? ==> HasSpace(d.max, r.disk.usage, |v|))
    decreases |d.index|
  {
    if !HasSpace(d.max, d.usage, |v|) && hasPop && CanPop(d) {
      PopCounted(d);
      WaitCounted(PopOldest(d), k, v, hasPop);
    }
  }

  lemma WriteCounted(d: Disk, k: Key, v: Value)
    requires DiskCounted(d) && |v| <= d.max && HasSpace(d.max, d.usage, |v|)
    ensures DiskCounted(WriteToDisk(d, k, v))
  {
    if k in d.files {
      FileSizeWithout(d.files, k);
      FileSizeWithout(d.files[k := v], k);
      assert d.files[k := v] - {k} == d.files - {k};
    } else {
      FileSizeWith(d.files, k, v);
    }
  }

  lemma StoreCounted(d: Disk, k: Key, v: Value, hasPop: bool)
    requires DiskCounted(d) && |v| <= d.max && !StoreOnDisk(d, k, v, hasPop).Stuck?
    ensures DiskCounted(StoreOnDisk(d, k, v, hasPop).disk)
  {
    hide WaitForSpaceOnDisk, WriteToDisk, DiskCounted;
    WaitCounted(d, k, v, hasPop);
    var r := WaitForSpaceOnDisk(d, k, v, hasPop);
    if r.Room? {
      WriteCounted(r.disk, k, v);
    }
  }

  /** Writing leaves the counter exact if and only if it was, and no file is replaced but an empty one. */
  lemma WriteKeepsAccountingIff(d: Disk, k: Key, v: Value)
    requires DiskCounted(d) && |v| <= d.max && HasSpace(d.max, d.usage, |v|)
    ensures var e := WriteToDisk(d, k, v);
            e.usage == FileSize(e.files) <==> d.usage == FileSize(d.files) && (k in d.files ==> d.files[k] == [])
  {
    WriteCounted(d, k, v);
  }

  lemma DeleteCounted(d: Disk, k: Key)
    requires DiskCounted(d) && Removable(d, k)
    ensures DiskCounted(DeleteFromDisk(d, k))
  {
    var i := Find(d.index, k);
    if i < |d.index| && d.index[i].item == Completed {
      FileSizeWithout(d.files, k);
    }
  }

  // ---------------------------------------------------------------- every run

  ghost predicate Counted(s: State) {
    MemoryCounted(s.memory) && DiskCounted(s.disk)
  }

  lemma EnterStoreCounts(s: State, k: Key)
    requires Counted(s) && Enabled(s, EnterStore(k))
    ensures Counted(EnterStoreState(s, k))
  {
    hide MemorySize, FileSize, StoreOnDisk, StoreInMemory, EntersMemory, OthersPopped, PoppedOf, PendingDelete;
    var v := s.pending[k];
    if |v| <= s.memory.max {
      StoreInMemoryCounted(s.memory, k, v, k in s.waiting);
    } else if |v| <= s.disk.max {
      StoreCounted(EnterDisk(Renewed(s.disk, k), k), k, v, s.hasPop);
    }
  }

  lemma MemoryStepCounts(s: State, a: Step)
    requires Counted(s) && Enabled(s, a) && (a.Take? || a.FinishCopy? || a.BeginDelete? || a.BeginDeleteAll?)
    ensures Counted(Next(s, a))
  {
    match a
    case Take => MarkCounted(s.memory, FirstIn(s.memory.index, NotStarted), Started);
    case FinishCopy =>
      if Find(s.memory.index, s.worker.key) < |s.memory.index| {
        MarkCounted(s.memory, Find(s.memory.index, s.worker.key), Completed);
      }
    case BeginDelete(_, k) =>
      if Find(s.memory.index, k) < |s.memory.index| {
        EvictCounted(s.memory, Find(s.memory.index, k));
      }
    case BeginDeleteAll(_, keys) => KeptIsSmaller(s.memory.index, keys);
  }

  lemma StepCounts(s: State, a: Step)
    requires Counted(s) && Enabled(s, a)
    ensures Counted(Next(s, a))
  {
    hide MemorySize, FileSize, StoreOnDisk, DeleteFromDisk, Removable, Keys, GetFromDisk;
    match a
    case EnterStore(k) => EnterStoreCounts(s, k);
    case WakeStore(k) => StoreCounted(Wake(s.disk, k), k, s.disk.moving[k], s.hasPop);
    case EnterCopy => StoreCounted(EnterDisk(s.disk, s.worker.key), s.worker.key, s.worker.value, s.hasPop);
    case WakeCopy => StoreCounted(Wake(s.disk, s.worker.key), s.worker.key, s.worker.value, s.hasPop);
    case EndDelete(c) => DeleteCounted(s.disk, s.calls[c].key);
    case _ =>
      if a.Take? || a.FinishCopy? || a.BeginDelete? || a.BeginDeleteAll? {
        MemoryStepCounts(s, a);
      }
  }

  /** Both counters are right, and within their limits, after any steps. */
  lemma {:induction false} RunCounts(s: State, steps: seq<Step>)
    requires Counted(s) && IsRun(s, steps)
    ensures Counted(After(s, steps))
    decreases |steps|
  {
    hide Counted, Enabled, Next;
    if steps != [] {
      StepCounts(s, steps[0]);
      RunCounts(Next(s, steps[0]), steps[1..]);
    }
  }
}
