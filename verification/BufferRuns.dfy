/**
 A data buffer used by any number of clients beside its worker.  A step is one lock-held section of
 one thread; a run is any sequence of enabled steps, so it covers every interleaving.

 A Store begins with a Delete of its key, whose sections are those of any other Delete; BeginStore
 is the moment when it has ended.  A key may be stored any number of times, one Store after another.
 */
module BufferRuns {
  import opened Indexes
  import opened BufferSections

  /** The worker: looking for work, holding the disk lock, waiting for space, or about to mark its copy. */
  datatype Worker = Resting | Entering(key: Key, value: Value) | Copying(key: Key, value: Value) | Finishing(key: Key) {
    predicate IsAbout(k: Key) {
      !Resting? && key == k
    }
  }

  /** A call which has done its section on memory and has yet to do the one on disk. */
  datatype Call =
    | Deleting(key: Key, after: bool)
    | DeletingAll(keys: set<Key>, before: set<Key>)
    | Getting(key: Key, held: bool, gone: bool)

  /**
   The two stores and the threads.  `pending` holds the Store calls which have not entered their
   value, `waiting` those of them which have waited for memory; a Store waiting for space on disk is
   known by its value in disk.moving.

   The other fields record the past: the value last entered for each key, the keys for which a
   Delete overlapped or followed that, those for which such a Delete left nothing, and the calls of
   the pop functor for values entered before the last one of their key.
   */
  datatype State = State(memory: Memory, disk: Disk, hasPop: bool, running: bool, worker: Worker,
                         pending: map<Key, Value>, waiting: set<Key>, calls: map<nat, Call>,
                         stored: map<Key, Value>, deleted: set<Key>, gone: set<Key>, replaced: seq<(Key, Value)>)

  function Initial(maxMemory: nat, maxDisk: nat, hasPop: bool): State {
    State(Memory(maxMemory, 0, []), Disk(maxDisk, 0, [], map[], map[], [], 0), hasPop, true, Resting,
          map[], {}, map[], map[], {}, {}, [])
  }

  datatype Step =
    | BeginStore(key: Key, value: Value)
    | EnterStore(key: Key)
    | WakeStore(key: Key)
    | Take
    | EnterCopy
    | WakeCopy
    | FinishCopy
    | BeginDelete(call: nat, key: Key)
    | EndDelete(call: nat)
    | BeginDeleteAll(call: nat, keys: set<Key>)
    | EndDeleteAll(call: nat)
    | BeginGet(call: nat, key: Key)
    | EndGet(call: nat)

  /** The last Store of k which entered its value has returned: it does not wait for space on disk. */
  predicate Returned(s: State, k: Key) {
    k in s.stored && (k in s.disk.moving ==> s.worker.Copying? && s.worker.key == k)
  }

  predicate DiskFree(s: State) {
    !s.worker.Entering?
  }

  predicate PendingDelete(s: State, k: Key) {
    exists c | c in s.calls ::
      match s.calls[c]
      case Deleting(key, _) => key == k
      case DeletingAll(keys, _) => k in keys
      case Getting(_, _, _) => false
  }

  /** A Store of k has begun and has not returned. */
  predicate UnderWay(s: State, k: Key) {
    k in s.pending || (k in s.disk.moving && !s.worker.IsAbout(k))
  }

  /** What the Delete with which a Store begins leaves: the key is nowhere to be read, nor on its way to the disk lock. */
  predicate Deleted(s: State, k: Key) {
    && k !in Keys(s.memory.index) && GetFromDisk(s.disk, k) == NoSuchElement
    && !(s.worker.Entering? && s.worker.key == k)
  }

  /** The section a waiting store or the worker does on the disk, when the thread can go on at all. */
  predicate GoesOn(d: Disk, k: Key, v: Value, hasPop: bool) {
    |v| <= d.max && !StoreOnDisk(d, k, v, hasPop).Stuck?
  }

  predicate Enabled(s: State, a: Step) {
    s.running &&
    match a
    case BeginStore(k, v) => !UnderWay(s, k) && Deleted(s, k)
    case EnterStore(k) =>
      && k in s.pending
      && (|s.pending[k]| > s.memory.max ==>
            DiskFree(s) && (|s.pending[k]| <= s.disk.max ==> GoesOn(EnterDisk(Renewed(s.disk, k), k), k, s.pending[k], s.hasPop)))
    case WakeStore(k) =>
      DiskFree(s) && k in s.disk.moving && !s.worker.IsAbout(k) && GoesOn(Wake(s.disk, k), k, s.disk.moving[k], s.hasPop)
    case Take => s.worker == Resting && FirstIn(s.memory.index, NotStarted) < |s.memory.index|
    case EnterCopy => s.worker.Entering? && GoesOn(EnterDisk(s.disk, s.worker.key), s.worker.key, s.worker.value, s.hasPop)
    case WakeCopy => s.worker.Copying? && GoesOn(Wake(s.disk, s.worker.key), s.worker.key, s.worker.value, s.hasPop)
    case FinishCopy => s.worker.Finishing?
    case BeginDelete(c, k) => c !in s.calls
    case EndDelete(c) => DiskFree(s) && c in s.calls && s.calls[c].Deleting? && Removable(s.disk, s.calls[c].key)
    case BeginDeleteAll(c, keys) => c !in s.calls
    case EndDeleteAll(c) => DiskFree(s) && c in s.calls && s.calls[c].DeletingAll?
    case BeginGet(c, k) => c !in s.calls
    case EndGet(c) => DiskFree(s) && c in s.calls && s.calls[c].Getting? && !GetFromDisk(s.disk, s.calls[c].key).MustWait?
  }

  /** The worker after its section on the disk. */
  function AfterSection(s: State, k: Key, v: Value, r: Search): State
    requires !r.Stuck?
  {
    s.(disk := r.disk, worker := if r.Waits? then Copying(k, v) else Finishing(k))
  }

  /** The store of k enters its value, rather than waiting for memory or failing. */
  predicate Enters(s: State, k: Key) {
    && k in s.pending
    && if |s.pending[k]| <= s.memory.max then EntersMemory(s.memory, s.pending[k], k in s.waiting) else |s.pending[k]| <= s.disk.max
  }

  function OthersPopped(popped: seq<(Key, Value)>, k: Key): seq<(Key, Value)> {
    if popped == [] then []
    else
      var rest := OthersPopped(popped[..|popped| - 1], k);
      if popped[|popped| - 1].0 == k then rest else rest + [popped[|popped| - 1]]
  }

  /** Forgets the calls of the pop functor for k. */
  function Renewed(d: Disk, k: Key): Disk {
    d.(popped := OthersPopped(d.popped, k))
  }

  function PoppedOf(popped: seq<(Key, Value)>, k: Key): seq<(Key, Value)> {
    if popped == [] then []
    else
      var rest := PoppedOf(popped[..|popped| - 1], k);
      if popped[|popped| - 1].0 == k then rest + [popped[|popped| - 1]] else rest
  }

  /** What a call knows of k belongs to a value that was entered before. */
  function Forget(c: Call, k: Key): Call {
    match c
    case Deleting(key, after) => Deleting(key, after && key != k)
    case DeletingAll(keys, before) => DeletingAll(keys, before - {k})
    case Getting(key, held, gone) => Getting(key, held && key != k, gone && key != k)
  }

  /** The record of a value of k being entered; from now on it is about this value. */
  function Recorded(s: State, k: Key): State
    requires k in s.pending
  {
    s.(pending := s.pending - {k}, waiting := s.waiting - {k}, stored := s.stored[k := s.pending[k]],
       deleted := if PendingDelete(s, k) then s.deleted + {k} else s.deleted - {k}, gone := s.gone - {k},
       calls := map c | c in s.calls :: Forget(s.calls[c], k),
       disk := Renewed(s.disk, k), replaced := s.replaced + PoppedOf(s.disk.popped, k))
  }

  function EnterStoreState(s: State, k: Key): State
    requires Enabled(s, EnterStore(k))
  {
    var v := s.pending[k];
    if |v| <= s.memory.max then
      var t := if EntersMemory(s.memory, v, k in s.waiting) then Recorded(s, k) else s.(waiting := s.waiting + {k});
      t.(memory := StoreInMemory(s.memory, k, v, k in s.waiting))
    else if |v| > s.disk.max then s.(running := false)
    else
      var t := Recorded(s, k);
      t.(disk := StoreOnDisk(EnterDisk(t.disk, k), k, v, s.hasPop).disk)
  }

  function BeginDeleteState(s: State, c: nat, k: Key): State {
    var t := s.(memory := DeleteFromMemory(s.memory, k), deleted := s.deleted + {k});
    if AlsoOnDisk(s.memory, k) == NotStarted then t.(gone := s.gone + {k})
    else t.(calls := s.calls[c := Deleting(k, k in s.stored)])
  }

  /** The element, if there is one, is deleted or cancelled; an error of the Delete is no difference. */
  function EndDeleteState(s: State, c: nat): State
    requires Enabled(s, EndDelete(c))
  {
    var k := s.calls[c].key;
    s.(disk := DeleteFromDisk(s.disk, k), calls := s.calls - {c},
       gone := if k in Keys(s.memory.index) then s.gone else s.gone + {k})
  }

  ghost function Next(s: State, a: Step): State
    requires Enabled(s, a)
  {
    match a
    case BeginStore(k, v) => s.(pending := s.pending[k := v])
    case EnterStore(k) => EnterStoreState(s, k)
    case WakeStore(k) => s.(disk := StoreOnDisk(Wake(s.disk, k), k, s.disk.moving[k], s.hasPop).disk)
    case Take =>
      var i := FirstIn(s.memory.index, NotStarted);
      s.(memory := Mark(s.memory, i, Started), worker := Entering(s.memory.index[i].key, s.memory.index[i].item.value))
    case EnterCopy =>
      AfterSection(s, s.worker.key, s.worker.value, StoreOnDisk(EnterDisk(s.disk, s.worker.key), s.worker.key, s.worker.value, s.hasPop))
    case WakeCopy =>
      AfterSection(s, s.worker.key, s.worker.value, StoreOnDisk(Wake(s.disk, s.worker.key), s.worker.key, s.worker.value, s.hasPop))
    case FinishCopy => s.(memory := MarkCompleted(s.memory, s.worker.key), worker := Resting)
    case BeginDelete(c, k) => BeginDeleteState(s, c, k)
    case EndDelete(c) => EndDeleteState(s, c)
    case BeginDeleteAll(c, keys) =>
      s.(memory := DeleteAllFromMemory(s.memory, keys), deleted := s.deleted + keys,
         calls := s.calls[c := DeletingAll(keys, set k | k in keys && k in s.stored)])
    case EndDeleteAll(c) =>
      s.(disk := DeleteAllFromDisk(s.disk, s.calls[c].keys), calls := s.calls - {c},
         gone := s.gone + (s.calls[c].keys - Keys(s.memory.index)))
    case BeginGet(c, k) =>
      if k in Keys(s.memory.index) then s
      else s.(calls := s.calls[c := Getting(k, Returned(s, k) && k !in s.deleted, k in s.gone)])
    case EndGet(c) => s.(calls := s.calls - {c})
  }

  ghost predicate IsRun(s: State, steps: seq<Step>)
    decreases |steps|
  {
    steps == [] || (Enabled(s, steps[0]) && IsRun(Next(s, steps[0]), steps[1..]))
  }

  /** No element is left of a value of k, and the worker does not hold it. */
  ghost predicate Fresh(s: State, k: Key) {
    k !in Keys(s.memory.index) && k !in Keys(s.disk.index) && k !in s.disk.moving && !s.worker.IsAbout(k)
  }

  /** A value is entered only when no element is left of the one before, nor has the worker to do with it. */
  ghost predicate Orderly(s: State, a: Step) {
    a.EnterStore? && Enters(s, a.key) ==> Fresh(s, a.key)
  }

  ghost predicate IsOrderly(s: State, steps: seq<Step>)
    requires IsRun(s, steps)
    decreases |steps|
  {
    steps == [] || (Orderly(s, steps[0]) && IsOrderly(Next(s, steps[0]), steps[1..]))
  }

  ghost function After(s: State, steps: seq<Step>): State
    requires IsRun(s, steps)
    decreases |steps|
  {
    if steps == [] then s else After(Next(s, steps[0]), steps[1..])
  }
}
