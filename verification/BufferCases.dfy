/** Runs of a data buffer in which it does not do what its documentation promises. */
module BufferCases {
  import opened Indexes
  import opened BufferSections
  import opened BufferEffects
  import opened BufferRuns
  import opened BufferInvariant
  import opened BufferProperties
  import opened BufferRemains

  // ---------------------------------------------------------------- runs step by step

  lemma {:induction false} RunExtended(s: State, steps: seq<Step>, a: Step)
    requires IsRun(s, steps) && Enabled(After(s, steps), a)
    ensures IsRun(s, steps + [a]) && After(s, steps + [a]) == Next(After(s, steps), a)
    ensures IsOrderly(s, steps) && Orderly(After(s, steps), a) ==> IsOrderly(s, steps + [a])
    decreases |steps|
  {
    hide Enabled, Next, Orderly;
    if steps == [] {
      assert ([] + [a])[1..] == [];
      assert IsRun(Next(s, a), []) && IsOrderly(Next(s, a), []);
    } else {
      assert (steps + [a])[1..] == steps[1..] + [a];
      RunExtended(Next(s, steps[0]), steps[1..], a);
    }
  }

  lemma ReachableNext(s: State, a: Step)
    requires Reachable(s) && Enabled(s, a) && Orderly(s, a)
    ensures Reachable(Next(s, a))
  {
    hide Enabled, Next, Orderly;
    var maxMemory: nat, maxDisk: nat, hasPop: bool, steps: seq<Step> {:trigger IsRun(Initial(maxMemory, maxDisk, hasPop), steps)} :|
      && maxMemory <= maxDisk && IsRun(Initial(maxMemory, maxDisk, hasPop), steps) && IsOrderly(Initial(maxMemory, maxDisk, hasPop), steps)
      && s == After(Initial(maxMemory, maxDisk, hasPop), steps);
    RunExtended(Initial(maxMemory, maxDisk, hasPop), steps, a);
    assert IsRun(Initial(maxMemory, maxDisk, hasPop), steps + [a]);
  }

  lemma PossibleNext(s: State, a: Step)
    requires Possible(s) && Enabled(s, a)
    ensures Possible(Next(s, a))
  {
    hide Enabled, Next;
    var maxMemory: nat, maxDisk: nat, hasPop: bool, steps: seq<Step> {:trigger IsRun(Initial(maxMemory, maxDisk, hasPop), steps)} :|
      && maxMemory <= maxDisk && IsRun(Initial(maxMemory, maxDisk, hasPop), steps)
      && s == After(Initial(maxMemory, maxDisk, hasPop), steps);
    RunExtended(Initial(maxMemory, maxDisk, hasPop), steps, a);
    assert IsRun(Initial(maxMemory, maxDisk, hasPop), steps + [a]);
  }

  lemma InitialReachable(maxMemory: nat, maxDisk: nat, hasPop: bool)
    requires maxMemory <= maxDisk
    ensures Reachable(Initial(maxMemory, maxDisk, hasPop))
  {
    var s := Initial(maxMemory, maxDisk, hasPop);
    assert IsRun(s, []) && IsOrderly(s, []) && After(s, []) == s;
  }

  // ---------------------------------------------------------------- one value on its way

  /** Nothing is in memory or has been popped, and no Store is under way. */
  ghost predicate Idle(s: State) {
    && s.running && s.memory.usage == 0 && s.memory.index == [] && s.disk.index == [] && s.disk.moving == map[]
    && s.disk.popped == [] && s.replaced == [] && s.pending == map[] && s.waiting == {} && DiskFree(s)
  }

  /** The buffer holds k alone in memory. */
  function Holding(s: State, k: Key, v: Value, state: StoringState): State {
    s.(memory := Memory(s.memory.max, |v|, [Element(k, Copy(v, state))]))
  }

  function Storing(s: State, k: Key, v: Value): State {
    Holding(s, k, v, NotStarted).(stored := s.stored[k := v], deleted := if PendingDelete(s, k) then s.deleted + {k} else s.deleted - {k},
                                  gone := s.gone - {k}, calls := map c | c in s.calls :: Forget(s.calls[c], k))
  }

  lemma BeginIdle(s: State, k: Key, v: Value)
    requires Idle(s)
    ensures Enabled(s, BeginStore(k, v)) && Orderly(s, BeginStore(k, v)) && Next(s, BeginStore(k, v)) == s.(pending := map[k := v])
  {
  }

  lemma EnterIdle(s: State, k: Key, v: Value)
    requires Idle(s) && |v| <= s.memory.max
    ensures var t := s.(pending := map[k := v]);
            && Enabled(t, EnterStore(k)) && Next(t, EnterStore(k)) == Storing(s, k, v)
            && (Fresh(s, k) ==> Orderly(t, EnterStore(k)))
  {
    var t := s.(pending := map[k := v]);
    assert PendingDelete(t, k) == PendingDelete(s, k);
    assert t.pending - {k} == s.pending;
    assert t.disk == Renewed(t.disk, k);
  }

  lemma TakeHeld(s: State, k: Key, v: Value)
    requires s.running && s.worker == Resting && s == Holding(s, k, v, NotStarted)
    ensures Enabled(s, Take) && Orderly(s, Take) && Next(s, Take) == Holding(s, k, v, Started).(worker := Entering(k, v))
  {
  }

  /** The disk with the file of k as its only element. */
  function Written(d: Disk, k: Key, v: Value): Disk {
    d.(index := [Element(k, Completed)], files := d.files[k := v], usage := d.usage + |v|,
       overwritten := d.overwritten + if k in d.files then |d.files[k]| else 0)
  }

  lemma CopyHeld(s: State, k: Key, v: Value)
    requires s.running && s.worker == Entering(k, v) && s.disk.index == [] && 0 <= s.disk.usage <= s.disk.max - |v|
    ensures Enabled(s, EnterCopy) && Orderly(s, EnterCopy)
    ensures Next(s, EnterCopy) == s.(disk := Written(s.disk, k, v), worker := Finishing(k))
  {
    assert EnterDisk(s.disk, k).index == [Element(k, Started)];
    assert [Element(k, Started)][0 := Element(k, Completed)] == [Element(k, Completed)];
  }

  lemma FinishHeld(s: State, k: Key, v: Value, state: StoringState)
    requires s.running && s.worker == Finishing(k) && s == Holding(s, k, v, state)
    ensures Enabled(s, FinishCopy) && Orderly(s, FinishCopy)
    ensures Next(s, FinishCopy) == Holding(s, k, v, Completed).(worker := Resting)
  {
    assert s.memory.index[0].key == k;
    assert Find(s.memory.index, k) == 0;
  }

  /** The first value, stored and written to its file; the worker has yet to mark it. */
  function Copied(s: State, k: Key, v: Value): State {
    Holding(Storing(s, k, v), k, v, Started).(disk := Written(s.disk, k, v), worker := Finishing(k))
  }

  lemma CopiedRun(s: State, k: Key, v: Value)
    requires Reachable(s) && Idle(s) && s.worker == Resting && Fresh(s, k) && |v| <= s.memory.max && 0 <= s.disk.usage <= s.disk.max - |v|
    ensures Reachable(Copied(s, k, v))
  {
    hide Reachable, Enabled, Next, Orderly, PendingDelete, Fresh;
    BeginIdle(s, k, v);
    ReachableNext(s, BeginStore(k, v));
    EnterIdle(s, k, v);
    ReachableNext(s.(pending := map[k := v]), EnterStore(k));
    var t := Storing(s, k, v);
    TakeHeld(t, k, v);
    ReachableNext(t, Take);
    var u := Holding(t, k, v, Started).(worker := Entering(k, v));
    CopyHeld(u, k, v);
    ReachableNext(u, EnterCopy);
  }

  // ---------------------------------------------------------------- a Delete that overlaps a Store

  /** A Delete of k has done its section on memory before anything was stored. */
  function DeletingFirst(k: Key, max: nat): State {
    Initial(max, max, false).(deleted := {k}, calls := map[0 := Deleting(k, false)])
  }

  lemma DeletingFirstRun(k: Key, max: nat)
    ensures Reachable(DeletingFirst(k, max))
  {
    var s := Initial(max, max, false);
    InitialReachable(max, max, false);
    hide Reachable;
    assert Enabled(s, BeginDelete(0, k)) && Next(s, BeginDelete(0, k)) == DeletingFirst(k, max);
    ReachableNext(s, BeginDelete(0, k));
  }

  /**
   A Delete that overlaps the Store may return and leave the value readable: its section on memory
   comes before the value is entered, its section on disk after the value has been copied.
   */
  lemma OverlappingDeleteLeavesValue(k: Key, v: Value) returns (s: State)
    ensures Reachable(s) && Enabled(s, EndDelete(0)) && s.calls[0] == Deleting(k, false) && k in Keys(s.disk.index)
    ensures !Unreadable(Next(s, EndDelete(0)), k)
  {
    var s0 := DeletingFirst(k, |v|);
    s := Copied(s0, k, v);
    DeletingFirstRun(k, |v|);
    CopiedRun(s0, k, v);
    hide Reachable;
    assert s.disk.index[0].key == k && s.memory.index[0].key == k;
    assert Find(s.disk.index, k) == 0;
    assert Enabled(s, EndDelete(0));
    assert Next(s, EndDelete(0)).memory == s.memory;
  }

  // ---------------------------------------------------------------- storing again during the copy

  /** The first value was written and deleted again; the worker has yet to mark it as copied. */
  function DeletedBeforeMark(k: Key, v: Value, max: nat): State {
    Initial(max, max, false).(worker := Finishing(k), stored := map[k := v], deleted := {k}, gone := {k})
  }

  lemma BeginDeleteHeld(s: State, k: Key, v: Value)
    requires s.running && s.calls == map[] && k in s.stored && s == Holding(s, k, v, Started)
    ensures Enabled(s, BeginDelete(0, k))
    ensures Next(s, BeginDelete(0, k)) ==
            s.(memory := Memory(s.memory.max, 0, []), deleted := s.deleted + {k}, calls := map[0 := Deleting(k, true)])
  {
    assert s.memory.index[0].key == k;
    assert Find(s.memory.index, k) == 0;
    assert RemoveAt(s.memory.index, 0) == [];
  }

  lemma EndDeleteWritten(s: State, d: Disk, k: Key, v: Value)
    requires s.running && DiskFree(s) && s.calls == map[0 := Deleting(k, true)] && k !in Keys(s.memory.index)
    requires s.disk == Written(d, k, v) && d.index == [] && k !in d.files
    ensures Enabled(s, EndDelete(0))
    ensures Next(s, EndDelete(0)) == s.(disk := d, gone := s.gone + {k}, calls := map[])
  {
    assert s.disk.index[0].key == k;
    assert Find(s.disk.index, k) == 0;
    assert RemoveAt(s.disk.index, 0) == [] && s.disk.files - {k} == d.files;
    assert s.calls - {0} == map[];
  }

  lemma DeletedBeforeMarkRun(k: Key, v: Value, max: nat)
    requires |v| <= max
    ensures Reachable(DeletedBeforeMark(k, v, max))
  {
    var s0 := Initial(max, max, false);
    InitialReachable(max, max, false);
    CopiedRun(s0, k, v);
    hide Reachable, Enabled, Next;
    var s := Copied(s0, k, v);
    BeginDeleteHeld(s, k, v);
    ReachableNext(s, BeginDelete(0, k));
    var t := s.(memory := Memory(max, 0, []), deleted := {k}, calls := map[0 := Deleting(k, true)]);
    EndDeleteWritten(t, s0.disk, k, v);
    ReachableNext(t, EndDelete(0));
  }

  /** The second value is marked as copied. */
  function WronglyMarked(k: Key, second: Value, max: nat): State {
    Holding(Initial(max, max, false), k, second, Completed).(stored := map[k := second])
  }

  lemma StoredIs(k: Key, first: Value, second: Value, max: nat)
    ensures Holding(Storing(DeletedBeforeMark(k, first, max), k, second), k, second, Completed).(worker := Resting) == WronglyMarked(k, second, max)
  {
    assert !PendingDelete(DeletedBeforeMark(k, first, max), k);
  }

  lemma WronglyMarkedRun(k: Key, first: Value, second: Value, max: nat)
    requires |first| <= max && |second| <= max
    ensures Possible(WronglyMarked(k, second, max))
  {
    var s := DeletedBeforeMark(k, first, max);
    DeletedBeforeMarkRun(k, first, max);
    ReachablePossible(s);
    hide Possible, Reachable, Enabled, Next, Orderly, PendingDelete, Renewed, Fresh, Forget;
    BeginIdle(s, k, second);
    PossibleNext(s, BeginStore(k, second));
    EnterIdle(s, k, second);
    PossibleNext(s.(pending := map[k := second]), EnterStore(k));
    var t := Storing(s, k, second);
    FinishHeld(t, k, second, NotStarted);
    PossibleNext(t, FinishCopy);
    StoredIs(k, first, second, max);
  }

  lemma {:induction false} EvictsHeld(m: Memory, j: Key, w: Value, required: nat)
    requires m.index == [Element(j, Copy(w, Completed))] && m.usage == |w| <= m.max && required <= m.max < |w| + required
    ensures MakeRoom(m, required) == Memory(m.max, 0, [])
  {
    assert FirstIn(m.index, Completed) == 0 && RemoveAt(m.index, 0) == [];
    assert Evict(m, 0) == Memory(m.max, 0, []);
  }

  /** A store which has to evict the only value in memory. */
  lemma EnterOverHeld(s: State, j: Key, w: Value, k: Key, v: Value)
    requires s.running && s == Holding(s, j, w, Completed) && s.pending == map[] && s.waiting == {} && DiskFree(s)
    requires k != j && k !in s.disk.moving && GetFromDisk(s.disk, k) == NoSuchElement && s.disk.popped == [] && s.replaced == []
    requires |w| <= s.memory.max && |v| <= s.memory.max < |w| + |v|
    ensures Enabled(s, BeginStore(k, v)) && Orderly(s, BeginStore(k, v)) && Next(s, BeginStore(k, v)) == s.(pending := map[k := v])
    ensures var t := s.(pending := map[k := v]);
            && Enabled(t, EnterStore(k)) && Next(t, EnterStore(k)) == Storing(s, k, v)
            && (Fresh(s, k) ==> Orderly(t, EnterStore(k)))
  {
    var t := s.(pending := map[k := v]);
    OneKey(s.memory.index, j, Copy(w, Completed));
    EvictsHeld(s.memory, j, w, |v|);
    hide MakeRoom;
    assert PendingDelete(t, k) == PendingDelete(s, k);
    assert t.pending - {k} == s.pending;
    assert t.disk == Renewed(t.disk, k);
  }

  /**
   Storing a key again while the worker has still to mark the copy of its first value: the second
   value is marked as copied although it is only in memory, evicted by the next Store, and lost.
   */
  lemma StoringAgainLosesValue(k: Key, first: Value, second: Value, j: Key, third: Value, max: nat) returns (s: State)
    requires k != j && |first| <= max && |second| <= max && |third| <= max < |second| + |third|
    ensures Possible(s) && Returned(s, k) && s.stored[k] == second && k !in s.deleted && k !in s.pending
    ensures k !in Keys(s.memory.index) && k !in s.disk.files && k !in s.disk.moving && k !in PoppedKeys(s.disk.popped + s.replaced)
  {
    WronglyMarkedRun(k, first, second, max);
    var m := WronglyMarked(k, second, max);
    EnterOverHeld(m, k, second, j, third);
    s := Storing(m, j, third);
    assert s.memory.index[0].key == j && Keys(s.memory.index) == {j} && !PendingDelete(m, j);
    hide Possible, Enabled, Next;
    PossibleNext(m, BeginStore(j, third));
    PossibleNext(m.(pending := map[j := third]), EnterStore(j));
  }

  // ---------------------------------------------------------------- files left by a predicate Delete

  /** A predicate Delete has removed k from both indexes, but not its file. */
  function LeftBehind(k: Key, v: Value, maxDisk: nat): State
    requires |v| <= maxDisk
  {
    var s := Initial(|v|, maxDisk, true);
    s.(disk := s.disk.(files := map[k := v], usage := |v|), stored := map[k := v], deleted := {k}, gone := {k})
  }

  lemma BeginDeleteAllHeld(s: State, k: Key, v: Value)
    requires s.running && s.calls == map[] && k in s.stored && s == Holding(s, k, v, Completed)
    ensures Enabled(s, BeginDeleteAll(0, {k}))
    ensures Next(s, BeginDeleteAll(0, {k})) ==
            s.(memory := Memory(s.memory.max, 0, []), deleted := s.deleted + {k}, calls := map[0 := DeletingAll({k}, {k})])
  {
    assert Without(s.memory.index, {k}) == [];
    assert Next(s, BeginDeleteAll(0, {k})).calls[0].before == {k};
    assert s.memory.index[..0] == [];
    assert MemorySize(s.memory.index) == MemorySize([]) + |v|;
  }

  lemma EndDeleteAllWritten(s: State, k: Key)
    requires s.running && DiskFree(s) && s.calls == map[0 := DeletingAll({k}, {k})] && s.memory.index == []
    requires s.disk.index == [Element(k, Completed)]
    ensures Enabled(s, EndDeleteAll(0))
    ensures Next(s, EndDeleteAll(0)) == s.(disk := s.disk.(index := []), gone := s.gone + {k}, calls := map[])
  {
    assert Without(s.disk.index, {k}) == [];
    assert s.calls - {0} == map[] && Keys(s.memory.index) == {};
  }

  lemma LeftBehindRun(k: Key, v: Value, maxDisk: nat)
    requires |v| <= maxDisk
    ensures Reachable(LeftBehind(k, v, maxDisk))
  {
    var s0 := Initial(|v|, maxDisk, true);
    InitialReachable(|v|, maxDisk, true);
    CopiedRun(s0, k, v);
    hide Reachable, Enabled, Next;
    var s := Copied(s0, k, v);
    FinishHeld(s, k, v, Started);
    ReachableNext(s, FinishCopy);
    var t := Holding(s, k, v, Completed).(worker := Resting);
    BeginDeleteAllHeld(t, k, v);
    ReachableNext(t, BeginDeleteAll(0, {k}));
    var u := t.(memory := Memory(|v|, 0, []), deleted := {k}, calls := map[0 := DeletingAll({k}, {k})]);
    EndDeleteAllWritten(u, k);
    ReachableNext(u, EndDeleteAll(0));
  }

  /** The worker waits for room for a value while the only other file belongs to no element. */
  function NoRoomLeft(k: Key, v: Value, j: Key, w: Value, maxDisk: nat): State
    requires |v| <= maxDisk
  {
    Holding(Storing(LeftBehind(k, v, maxDisk), j, w), j, w, Started).(worker := Entering(j, w))
  }

  /** No element is left to be popped, and the files which no element accounts for leave no room. */
  ghost predicate NoRoom(s: State) {
    && s.worker.Entering? && s.hasPop && s.disk.index == []
    && |s.worker.value| <= s.disk.max < s.disk.usage + |s.worker.value|
  }

  lemma NoRoomStops(s: State)
    requires NoRoom(s)
    ensures !Enabled(s, EnterCopy)
  {
    var d := EnterDisk(s.disk, s.worker.key);
    assert d.index == [Element(s.worker.key, Started)];
    assert !CanPop(d);
  }

  /** The worker never goes on, whatever the clients do. */
  lemma {:induction false} StopsForGood(s: State, steps: seq<Step>)
    requires NoRoom(s) && IsRun(s, steps)
    ensures After(s, steps).worker == s.worker && NoRoom(After(s, steps))
    decreases |steps|
  {
    NoRoomStops(s);
    if steps != [] {
      StopsForGood(Next(s, steps[0]), steps[1..]);
    }
  }

  /**
   With a pop functor, a file left by a predicate Delete can use up the disk: the worker then meets
   its own element while it looks for one to pop, and the buffer copies nothing any more.
   */
  lemma LeftFileStopsCopying(k: Key, v: Value, j: Key, w: Value, maxDisk: nat) returns (s: State)
    requires k != j && |w| <= |v| <= maxDisk < |v| + |w|
    ensures Reachable(s) && s.running && s.hasPop && s.worker == Entering(j, w) && !Enabled(s, EnterCopy)
    ensures forall steps :: IsRun(s, steps) ==> After(s, steps).worker == s.worker
  {
    var f := LeftBehind(k, v, maxDisk);
    LeftBehindRun(k, v, maxDisk);
    s := NoRoomLeft(k, v, j, w, maxDisk);
    HoldNext(f, j, w);
    hide Reachable, Enabled, Next;
    NoRoomStops(s);
    forall steps | IsRun(s, steps) ensures After(s, steps).worker == s.worker {
      StopsForGood(s, steps);
    }
  }

  lemma HoldNext(s: State, k: Key, v: Value)
    requires Reachable(s) && Idle(s) && s.worker == Resting && Fresh(s, k) && |v| <= s.memory.max
    ensures Reachable(Holding(Storing(s, k, v), k, v, Started).(worker := Entering(k, v)))
  {
    hide Reachable, Enabled, Next, Orderly, PendingDelete, Fresh;
    BeginIdle(s, k, v);
    ReachableNext(s, BeginStore(k, v));
    EnterIdle(s, k, v);
    ReachableNext(s.(pending := map[k := v]), EnterStore(k));
    TakeHeld(Storing(s, k, v), k, v);
    ReachableNext(Storing(s, k, v), Take);
  }

  /** Storing the key of a file which a predicate Delete left counts the file twice. */
  lemma LeftFileIsCountedTwice(k: Key, v: Value, maxDisk: nat) returns (s: State)
    requires 0 < |v| && |v| + |v| <= maxDisk
    ensures Reachable(s) && s.disk.files == map[k := v] && s.disk.usage == |v| + |v|
  {
    var f := LeftBehind(k, v, maxDisk);
    LeftBehindRun(k, v, maxDisk);
    CopiedRun(f, k, v);
    s := Copied(f, k, v);
  }

  // ---------------------------------------------------------------- an element left by a cancelled store

  /** The copy of k waits for space, which the file of j takes up. */
  function Waiting(k: Key, first: Value, j: Key, other: Value, max: nat): State {
    Initial(max, max, false).(memory := Memory(max, |first|, [Element(k, Copy(first, Started))]),
                              disk := Disk(max, |other|, [Element(j, Completed), Element(k, Started)], map[j := other], map[k := first], [], 0),
                              worker := Copying(k, first), stored := map[j := other, k := first])
  }

  lemma CopyWaits(s: State, k: Key, v: Value)
    requires s.running && !s.hasPop && s.worker == Entering(k, v) && |v| <= s.disk.max < s.disk.usage + |v| && k !in Keys(s.disk.index)
    ensures Enabled(s, EnterCopy) && Orderly(s, EnterCopy)
    ensures Next(s, EnterCopy) ==
            s.(disk := EnterDisk(s.disk, k).(moving := s.disk.moving[k := v]), worker := Copying(k, v))
  {
    FoundLast(s.disk.index, k);
  }

  /** j has been stored and copied, and evicted for k. */
  function OneCopied(k: Key, first: Value, j: Key, other: Value, max: nat): State {
    Storing(Holding(Copied(Initial(max, max, false), j, other), j, other, Completed).(worker := Resting), k, first)
  }

  lemma OneKey<T>(index: Index<T>, j: Key, item: T)
    requires index == [Element(j, item)]
    ensures Keys(index) == {j}
  {
    assert index[0].key == j;
  }

  lemma OneCopiedRun(k: Key, first: Value, j: Key, other: Value, max: nat)
    requires k != j && |first| <= max && |other| <= max < |first| + |other|
    ensures Reachable(OneCopied(k, first, j, other, max))
  {
    var s0 := Initial(max, max, false);
    InitialReachable(max, max, false);
    CopiedRun(s0, j, other);
    var s1 := Copied(s0, j, other);
    hide Reachable, Enabled, Next, Orderly, PendingDelete;
    FinishHeld(s1, j, other, Started);
    ReachableNext(s1, FinishCopy);
    var s2 := Holding(s1, j, other, Completed).(worker := Resting);
    OneKey(s2.memory.index, j, Copy(other, Completed));
    OneKey(s2.disk.index, j, Completed);
    EnterOverHeld(s2, j, other, k, first);
    ReachableNext(s2, BeginStore(k, first));
    ReachableNext(s2.(pending := map[k := first]), EnterStore(k));
  }

  lemma WaitingRun(k: Key, first: Value, j: Key, other: Value, max: nat)
    requires k != j && |first| <= max && |other| <= max < |first| + |other|
    ensures Reachable(Waiting(k, first, j, other, max))
  {
    var s3 := OneCopied(k, first, j, other, max);
    OneCopiedRun(k, first, j, other, max);
    OneKey(s3.disk.index, j, Completed);
    hide Reachable, Enabled, Next, Orderly, PendingDelete;
    TakeHeld(s3, k, first);
    ReachableNext(s3, Take);
    var s4 := Holding(s3, k, first, Started).(worker := Entering(k, first));
    CopyWaits(s4, k, first);
    ReachableNext(s4, EnterCopy);
    WaitingIs(s4, k, first, j, other, max);
  }

  lemma WaitingIs(s: State, k: Key, first: Value, j: Key, other: Value, max: nat)
    requires k != j
    requires s == Holding(OneCopied(k, first, j, other, max), k, first, Started).(worker := Entering(k, first))
    ensures s.(disk := EnterDisk(s.disk, k).(moving := s.disk.moving[k := first]), worker := Copying(k, first))
            == Waiting(k, first, j, other, max)
  {
    assert EnterDisk(s.disk, k).index == [Element(j, Completed), Element(k, Started)];
  }

  /** Both keys have been deleted; the element of k is cancelled. */
  function BothDeleted(k: Key, first: Value, j: Key, other: Value, max: nat): State {
    Initial(max, max, false).(disk := Disk(max, 0, [Element(k, Cancelled)], map[], map[k := first], [], 0),
                              worker := Copying(k, first), stored := map[j := other, k := first], deleted := {j, k}, gone := {j, k})
  }

  lemma FirstDeleted(k: Key, first: Value, j: Key, other: Value, max: nat)
    requires k != j
    ensures var s := Waiting(k, first, j, other, max);
            var t := s.(memory := Memory(max, 0, []), deleted := {k}, calls := map[0 := Deleting(k, true)]);
            && Enabled(s, BeginDelete(0, k)) && Next(s, BeginDelete(0, k)) == t && Enabled(t, EndDelete(0))
            && Next(t, EndDelete(0)) == t.(disk := s.disk.(index := [Element(j, Completed), Element(k, Cancelled)]), calls := map[], gone := {k})
  {
    var s := Waiting(k, first, j, other, max);
    BeginDeleteHeld(s, k, first);
    var t := s.(memory := Memory(max, 0, []), deleted := {k}, calls := map[0 := Deleting(k, true)]);
    assert t.disk.index[0].key == j && t.disk.index[1] == Element(k, Started);
    assert Find(t.disk.index, k) == 1 && t.calls - {0} == map[];
  }

  lemma SecondDeleted(s: State, k: Key, first: Value, j: Key, other: Value, max: nat)
    requires k != j
    requires s == Waiting(k, first, j, other, max).(memory := Memory(max, 0, []), deleted := {k}, gone := {k},
                  disk := Disk(max, |other|, [Element(j, Completed), Element(k, Cancelled)], map[j := other], map[k := first], [], 0))
    ensures var t := s.(deleted := {j, k}, calls := map[0 := Deleting(j, true)]);
            && Enabled(s, BeginDelete(0, j)) && Next(s, BeginDelete(0, j)) == t && Enabled(t, EndDelete(0))
            && Next(t, EndDelete(0)) == BothDeleted(k, first, j, other, max)
  {
    var t := s.(deleted := {j, k}, calls := map[0 := Deleting(j, true)]);
    assert Next(s, BeginDelete(0, j)).calls == t.calls;
    assert t.disk.index[0].key == j && Find(t.disk.index, j) == 0;
    assert RemoveAt(t.disk.index, 0) == [Element(k, Cancelled)] && t.disk.files - {j} == map[] && t.calls - {0} == map[];
  }

  /** No call is under way and the worker rests; the cancelled copy has found room and left its element behind. */
  function CancelledLeft(k: Key, first: Value, j: Key, other: Value, max: nat): State {
    BothDeleted(k, first, j, other, max).(disk := Disk(max, |first|, [Element(k, Cancelled)], map[k := first], map[], [], 0), worker := Resting)
  }

  lemma CancelledFindsRoom(k: Key, first: Value, j: Key, other: Value, max: nat)
    requires k != j && |first| <= max
    ensures var s := BothDeleted(k, first, j, other, max);
            var t := CancelledLeft(k, first, j, other, max).(worker := Finishing(k));
            && Enabled(s, WakeCopy) && Next(s, WakeCopy) == t
            && Enabled(t, FinishCopy) && Next(t, FinishCopy) == CancelledLeft(k, first, j, other, max)
  {
    var s := BothDeleted(k, first, j, other, max);
    assert s.disk.moving - {k} == map[];
    assert FindStarted(s.disk.index, k) == 1;
  }

  lemma CancelledLeftRun(k: Key, first: Value, j: Key, other: Value, max: nat)
    requires k != j && |first| <= max && |other| <= max < |first| + |other|
    ensures Reachable(CancelledLeft(k, first, j, other, max))
  {
    WaitingRun(k, first, j, other, max);
    hide Reachable, Enabled, Next;
    var s := Waiting(k, first, j, other, max);
    FirstDeleted(k, first, j, other, max);
    ReachableNext(s, BeginDelete(0, k));
    var t := s.(memory := Memory(max, 0, []), deleted := {k}, calls := map[0 := Deleting(k, true)]);
    ReachableNext(t, EndDelete(0));
    var u := t.(disk := s.disk.(index := [Element(j, Completed), Element(k, Cancelled)]), calls := map[], gone := {k});
    SecondDeleted(u, k, first, j, other, max);
    ReachableNext(u, BeginDelete(0, j));
    ReachableNext(u.(deleted := {j, k}, calls := map[0 := Deleting(j, true)]), EndDelete(0));
    CancelledFindsRoom(k, first, j, other, max);
    ReachableNext(BothDeleted(k, first, j, other, max), WakeCopy);
    ReachableNext(CancelledLeft(k, first, j, other, max).(worker := Finishing(k)), FinishCopy);
  }

  /**
   A Delete cancels the waiting copy of k, which finds room before it looks: it writes its file and
   leaves its element.  With nothing under way, a value then stored for k is marked as copied in
   some continuation although its element comes behind and it cannot be read.  Nothing has been
   written over by then.
   */
  lemma CancelledElementHidesValue(k: Key, first: Value, j: Key, other: Value, second: Value, max: nat) returns (s: State)
    requires k != j && |first| <= max && |other| <= max < |first| + |other| && |second| <= max
    ensures Reachable(s) && s.pending == map[k := second] && s.calls == map[] && s.worker.Resting? && s.disk.overwritten == 0
    ensures Enabled(s, EnterStore(k)) && Enters(s, k)
    ensures exists steps :: Continues(Next(s, EnterStore(k)), steps, k) && MarkedUnreadable(After(Next(s, EnterStore(k)), steps), k)
  {
    var t := CancelledLeft(k, first, j, other, max);
    CancelledLeftRun(k, first, j, other, max);
    hide Reachable;
    assert t.disk.index[0].key == k && Find(t.disk.index, k) == 0;
    ReachableNext(t, BeginStore(k, second));
    s := Next(t, BeginStore(k, second));
    assert s == t.(pending := map[k := second]);
    assert k in Keys(s.disk.index) && !PendingDelete(s, k);
    MarkedUnreadableIff(s, k);
  }

  /** The file of the cancelled copy stays, whatever is deleted, until k is stored again. */
  lemma {:induction false} CancelledFileStays(k: Key, first: Value, j: Key, other: Value, max: nat, steps: seq<Step>)
    requires k != j && |first| <= max && |other| <= max < |first| + |other|
    requires IsRun(CancelledLeft(k, first, j, other, max), steps) && StoresNone(steps, k)
    ensures Reachable(CancelledLeft(k, first, j, other, max))
    ensures var s := After(CancelledLeft(k, first, j, other, max), steps); k in s.disk.files && s.disk.files[k] == first
  {
    CancelledLeftRun(k, first, j, other, max);
    LeftFileStays(CancelledLeft(k, first, j, other, max), steps, k);
  }
}
