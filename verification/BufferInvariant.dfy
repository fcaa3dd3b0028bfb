/** What holds whenever no thread is inside a section, and why every section keeps it. */
module BufferInvariant {
  import opened Indexes
  import opened BufferSections
  import opened BufferEffects
  import opened BufferRuns

  ghost predicate Stored(s: State, k: Key, v: Value) {
    k in s.stored && s.stored[k] == v
  }

  ghost predicate OnDisk(d: Disk, k: Key) {
    (k in View(d.index) && View(d.index)[k] == Completed) || k in PoppedKeys(d.popped)
  }

  /** Nothing is known of k but, perhaps, that a Store of it has begun. */
  ghost predicate Untouched(s: State, k: Key) {
    Fresh(s, k) && k !in PoppedKeys(s.disk.popped)
  }

  ghost predicate StoreOk(s: State, k: Key) {
    k !in s.stored ==> Untouched(s, k)
  }

  /** While a Store waits to enter its value, only the worker may still be busy with the value before. */
  ghost predicate PendingOk(s: State, k: Key) {
    k in s.pending ==>
      && k !in View(s.memory.index) && (k in View(s.disk.index) ==> View(s.disk.index)[k] == Cancelled)
      && (s.worker.IsAbout(k) ==> !s.worker.Entering?) && (k in s.disk.moving ==> s.worker.Copying? && s.worker.key == k)
  }

  ghost predicate MemoryOk(s: State, k: Key) {
    k in View(s.memory.index) ==>
      var copy := View(s.memory.index)[k];
      && Stored(s, k, copy.value) && |copy.value| <= s.memory.max
      && (match copy.alsoOnDisk
          case NotStarted => k !in View(s.disk.index) && k !in s.disk.moving && k !in PoppedKeys(s.disk.popped)
                             && !s.worker.IsAbout(k)
          case Started => s.worker.IsAbout(k)
          case Completed => !s.worker.IsAbout(k) && k !in s.disk.moving && (OnDisk(s.disk, k) || k in s.deleted)
          case Cancelled => false)
  }

  ghost predicate MovingOk(s: State, k: Key) {
    k in s.disk.moving ==>
      && Stored(s, k, s.disk.moving[k]) && |s.disk.moving[k]| <= s.disk.max && !s.hasPop
      && k !in PoppedKeys(s.disk.popped)
      && (if k in View(s.disk.index) then View(s.disk.index)[k] in {Started, Cancelled} else k in s.deleted)
      && (s.worker.IsAbout(k) ==> s.worker.Copying?)
  }

  ghost predicate DiskOk(s: State, k: Key) {
    k in View(s.disk.index) ==>
      match View(s.disk.index)[k]
      case NotStarted => false
      case Started => k in s.disk.moving
      case Cancelled => !s.hasPop && k in s.deleted
      case Completed => k in s.disk.files && Stored(s, k, s.disk.files[k])
  }

  ghost predicate PoppedOk(s: State, k: Key) {
    k in PoppedKeys(s.disk.popped) ==> k !in View(s.disk.index) && (s.worker.IsAbout(k) ==> s.worker.Finishing?)
  }

  ghost predicate WorkerOk(s: State, k: Key) {
    s.worker.IsAbout(k) ==>
      match s.worker
      case Entering(_, v) => Stored(s, k, v) && |v| <= s.memory.max && k !in View(s.disk.index) && (k in View(s.memory.index) || k in s.deleted)
      case Copying(_, v) => Stored(s, k, v) && k in s.disk.moving && (k in View(s.memory.index) || k in s.deleted)
      case Finishing(_) => OnDisk(s.disk, k) || k in s.deleted
      case Resting => true
  }

  ghost predicate GoneOk(s: State, k: Key) {
    k in s.gone ==>
      && k !in View(s.memory.index) && k in s.deleted && (s.worker.IsAbout(k) ==> !s.worker.Entering?)
      && (k in View(s.disk.index) ==> View(s.disk.index)[k] == Cancelled)
  }

  /** A value whose Store returned is in memory or on disk, or was popped, unless a Delete was called. */
  ghost predicate Kept(s: State, k: Key) {
    Returned(s, k) && k !in s.deleted ==> k in View(s.memory.index) || OnDisk(s.disk, k)
  }

  ghost predicate Consistent(s: State, k: Key) {
    && StoreOk(s, k) && PendingOk(s, k) && MemoryOk(s, k) && MovingOk(s, k) && DiskOk(s, k) && PoppedOk(s, k)
    && WorkerOk(s, k) && GoneOk(s, k)
  }

  ghost predicate KeyOk(s: State, k: Key) {
    Consistent(s, k) && Kept(s, k)
  }

  ghost predicate CallOk(s: State, c: Call) {
    match c
    case Deleting(k, after) => k in s.deleted && (after ==> k in s.stored && k !in View(s.memory.index))
    case DeletingAll(keys, before) => keys <= s.deleted && before <= keys && forall k | k in before :: k in s.stored && k !in View(s.memory.index)
    case Getting(k, held, gone) =>
      && (gone ==> k in s.gone)
      && (held ==> k in s.stored && (k in s.deleted || OnDisk(s.disk, k)))
  }

  ghost predicate StoresSound(s: State) {
    && MemorySound(s.memory) && DiskSound(s.disk) && s.memory.max <= s.disk.max
    && forall p | p in s.disk.popped :: Stored(s, p.0, p.1)
  }

  ghost predicate Inv(s: State) {
    && StoresSound(s)
    && (forall k {:trigger KeyOk(s, k)} :: KeyOk(s, k))
    && (forall c | c in s.calls :: CallOk(s, s.calls[c]))
  }

  /** The invariant, except that the value recorded for k need not have a place yet. */
  ghost predicate InvBut(s: State, k: Key) {
    && StoresSound(s)
    && (forall x {:trigger KeyOk(s, x)} :: x != k ==> KeyOk(s, x)) && Consistent(s, k)
    && (forall c | c in s.calls :: CallOk(s, s.calls[c]))
  }

  lemma InvSays(s: State, k: Key)
    requires Inv(s)
    ensures StoresSound(s) && KeyOk(s, k) && Consistent(s, k)
  {
    assert KeyOk(s, k);
  }

  // ---------------------------------------------------------------- memory steps

  lemma BeginStoreKey(s: State, k: Key, v: Value, x: Key)
    requires Enabled(s, BeginStore(k, v)) && KeyOk(s, x)
    ensures KeyOk(Next(s, BeginStore(k, v)), x)
  {
    DiskSays(s.disk, k);
    hide PoppedKeys, View, Keys, GetFromDisk;
  }

  lemma BeginStoreKeeps(s: State, k: Key, v: Value)
    requires Inv(s) && Enabled(s, BeginStore(k, v))
    ensures Inv(Next(s, BeginStore(k, v)))
  {
    hide PoppedKeys, View, Keys, KeyOk, GetFromDisk, FileSize, MemorySize, Distinct;
    var t := Next(s, BeginStore(k, v));
    forall x ensures KeyOk(t, x) {
      assert KeyOk(s, x);
      BeginStoreKey(s, k, v, x);
    }
    forall c | c in t.calls ensures CallOk(t, t.calls[c]) {
      assert CallOk(s, s.calls[c]);
    }
  }

  lemma DiskSays(d: Disk, k: Key)
    ensures GetFromDisk(d, k) == NoSuchElement <==> k !in View(d.index) || View(d.index)[k] == Cancelled
  {
  }

  lemma TakeKey(s: State, x: Key)
    requires MemorySound(s.memory) && Enabled(s, Take) && KeyOk(s, x)
    ensures KeyOk(Next(s, Take), x)
  {
    hide View, Keys, PoppedKeys;
    MarkEffect(s.memory, FirstIn(s.memory.index, NotStarted), Started);
  }

  lemma TakeKeeps(s: State)
    requires Inv(s) && Enabled(s, Take)
    ensures Inv(Next(s, Take))
  {
    hide KeyOk, View, Keys;
    var t := Next(s, Take);
    MarkEffect(s.memory, FirstIn(s.memory.index, NotStarted), Started);
    forall x ensures KeyOk(t, x) {
      TakeKey(s, x);
    }
    forall c | c in t.calls ensures CallOk(t, t.calls[c]) {
      assert CallOk(s, s.calls[c]);
    }
  }

  lemma FinishCopyKey(s: State, x: Key)
    requires MemorySound(s.memory) && Enabled(s, FinishCopy) && KeyOk(s, x)
    ensures KeyOk(Next(s, FinishCopy), x)
  {
    hide View, Keys, PoppedKeys, MarkCompleted;
    MarkCompletedEffect(s.memory, s.worker.key);
  }

  lemma FinishCopyKeeps(s: State)
    requires Inv(s) && Enabled(s, FinishCopy)
    ensures Inv(Next(s, FinishCopy))
  {
    hide KeyOk, View, Keys, MarkCompleted;
    var t := Next(s, FinishCopy);
    MarkCompletedEffect(s.memory, s.worker.key);
    forall x ensures KeyOk(t, x) {
      FinishCopyKey(s, x);
    }
    forall c | c in t.calls ensures CallOk(t, t.calls[c]) {
      assert CallOk(s, s.calls[c]);
    }
  }

  // ---------------------------------------------------------------- entering a value

  lemma {:induction false} OthersPoppedAre(popped: seq<(Key, Value)>, k: Key)
    ensures forall p :: p in OthersPopped(popped, k) <==> p in popped && p.0 != k
    ensures PoppedKeys(OthersPopped(popped, k)) == PoppedKeys(popped) - {k}
    decreases |popped|
  {
    if popped != [] {
      var last := |popped| - 1;
      OthersPoppedAre(popped[..last], k);
      assert popped == popped[..last] + [popped[last]];
    }
  }

  lemma RecordedKey(s: State, k: Key, x: Key)
    requires k in s.pending && Fresh(s, k) && KeyOk(s, x)
    ensures if x == k then Consistent(Recorded(s, k), k) else KeyOk(Recorded(s, k), x)
  {
    OthersPoppedAre(s.disk.popped, k);
    hide PoppedKeys, OthersPopped, PoppedOf, View, Keys, PendingDelete;
  }

  lemma RecordedCall(s: State, k: Key, c: nat)
    requires k in s.pending && c in s.calls && CallOk(s, s.calls[c])
    ensures CallOk(Recorded(s, k), Forget(s.calls[c], k))
  {
    OthersPoppedAre(s.disk.popped, k);
    hide PoppedKeys, OthersPopped, PoppedOf, View, Keys;
  }

  lemma RecordedKeeps(s: State, k: Key)
    requires Inv(s) && k in s.pending && Fresh(s, k)
    ensures InvBut(Recorded(s, k), k) && k !in PoppedKeys(Recorded(s, k).disk.popped)
  {
    var t := Recorded(s, k);
    OthersPoppedAre(s.disk.popped, k);
    hide PoppedKeys, OthersPopped, PoppedOf, View, KeyOk, Consistent, CallOk, FileSize, MemorySize, PendingDelete;
    forall x | x != k ensures KeyOk(t, x) {
      assert KeyOk(s, x);
      RecordedKey(s, k, x);
    }
    assert KeyOk(s, k);
    RecordedKey(s, k, k);
    forall c | c in t.calls ensures CallOk(t, t.calls[c]) {
      RecordedCall(s, k, c);
    }
  }

  lemma RecordedIs(s: State, k: Key)
    requires k in s.pending && Fresh(s, k)
    ensures var t := Recorded(s, k);
            && Fresh(t, k) && Stored(t, k, s.pending[k]) && k !in t.gone && k !in t.pending
            && (forall c | c in t.calls :: Forget(t.calls[c], k) == t.calls[c])
            && t.memory == s.memory && t.hasPop == s.hasPop && t.disk == Renewed(s.disk, k)
  {
    hide PendingDelete, OthersPopped, PoppedOf;
  }

  /** A store of k does its section on memory: having recorded its value if it enters it, and otherwise not. */
  ghost predicate StoresInMemory(s: State, t: State, k: Key, v: Value, woken: bool) {
    && |v| <= s.memory.max && k !in View(s.memory.index)
    && t == s.(memory := StoreInMemory(s.memory, k, v, woken), waiting := t.waiting)
    && (EntersMemory(s.memory, v, woken) ==>
          Fresh(s, k) && Stored(s, k, v) && k !in PoppedKeys(s.disk.popped) && k !in s.gone && k !in s.pending)
  }

  lemma StoredInMemoryKey(s: State, t: State, k: Key, v: Value, woken: bool, x: Key)
    requires StoresSound(s) && StoresInMemory(s, t, k, v, woken)
    requires if x == k && EntersMemory(s.memory, v, woken) then Consistent(s, k) else KeyOk(s, x)
    ensures KeyOk(t, x)
  {
    hide StoreInMemory, EntersMemory, View, PoppedKeys, MemorySize, FileSize, Distinct;
    StoreInMemoryEffect(s.memory, k, v, woken, x);
  }

  lemma StoredInMemoryCall(s: State, t: State, k: Key, v: Value, woken: bool, c: Call)
    requires StoresSound(s) && StoresInMemory(s, t, k, v, woken) && CallOk(s, c)
    requires EntersMemory(s.memory, v, woken) ==> Forget(c, k) == c
    ensures CallOk(t, c)
  {
    forall x | x !in View(s.memory.index) && (x == k ==> !EntersMemory(s.memory, v, woken)) ensures x !in View(t.memory.index) {
      StoreInMemoryEffect(s.memory, k, v, woken, x);
    }
    hide StoreInMemory, EntersMemory, View, PoppedKeys, MemorySize, FileSize, Distinct;
    if c.DeletingAll? && EntersMemory(s.memory, v, woken) {
      assert k !in c.before by {
        assert c.before == c.before - {k};
      }
    }
  }

  lemma StoredInMemoryKeeps(s: State, t: State, k: Key, v: Value, woken: bool)
    requires StoresInMemory(s, t, k, v, woken)
    requires if EntersMemory(s.memory, v, woken) then InvBut(s, k) && forall c | c in s.calls :: Forget(s.calls[c], k) == s.calls[c]
             else Inv(s)
    ensures Inv(t)
  {
    hide StoreInMemory, View, Keys, KeyOk, Consistent, PoppedKeys, MemorySize, FileSize, CallOk;
    forall x ensures KeyOk(t, x) {
      assert x != k ==> KeyOk(s, x);
      assert !EntersMemory(s.memory, v, woken) ==> KeyOk(s, k);
      StoredInMemoryKey(s, t, k, v, woken, x);
    }
    StoreInMemoryEffect(s.memory, k, v, woken, k);
    forall c | c in t.calls ensures CallOk(t, t.calls[c]) {
      assert CallOk(s, s.calls[c]);
      StoredInMemoryCall(s, t, k, v, woken, s.calls[c]);
    }
  }

  lemma EnterMemoryKeeps(s: State, k: Key)
    requires Inv(s) && Enabled(s, EnterStore(k)) && Orderly(s, EnterStore(k)) && |s.pending[k]| <= s.memory.max
    ensures Inv(EnterStoreState(s, k))
  {
    hide InvBut, KeyOk, Fresh, Recorded, StoreInMemory, EntersMemory, View, Keys, PoppedKeys, MemorySize, FileSize, CallOk;
    var v, t := s.pending[k], EnterStoreState(s, k);
    assert KeyOk(s, k);
    KeyOkSays(s, k);
    if Enters(s, k) {
      RecordedKeeps(s, k);
      RecordedIs(s, k);
      StoredInMemoryKeeps(Recorded(s, k), t, k, v, k in s.waiting);
    } else {
      StoredInMemoryKeeps(s, t, k, v, k in s.waiting);
    }
  }

  // ---------------------------------------------------------------- other memory steps

  lemma BeginDeleteKey(s: State, c: nat, k: Key, x: Key)
    requires MemorySound(s.memory) && KeyOk(s, x) && Enabled(s, BeginDelete(c, k))
    ensures KeyOk(Next(s, BeginDelete(c, k)), x)
  {
    hide DeleteFromMemory, AlsoOnDisk, MemorySound, View, Keys, PoppedKeys;
    DeleteFromMemoryEffect(s.memory, k);
  }

  lemma BeginDeleteCall(s: State, c: nat, k: Key, call: Call)
    requires MemorySound(s.memory) && Enabled(s, BeginDelete(c, k)) && CallOk(s, call)
    ensures CallOk(Next(s, BeginDelete(c, k)), call)
  {
    hide DeleteFromMemory, AlsoOnDisk, MemorySound, View, Keys, PoppedKeys;
    DeleteFromMemoryEffect(s.memory, k);
  }

  lemma BeginDeleteKeeps(s: State, c: nat, k: Key)
    requires Inv(s) && Enabled(s, BeginDelete(c, k))
    ensures Inv(Next(s, BeginDelete(c, k)))
  {
    hide KeyOk, View, Keys;
    var t := Next(s, BeginDelete(c, k));
    DeleteFromMemoryEffect(s.memory, k);
    forall x ensures KeyOk(t, x) {
      BeginDeleteKey(s, c, k, x);
    }
    forall c' | c' in t.calls ensures CallOk(t, t.calls[c']) {
      if c' in s.calls {
        BeginDeleteCall(s, c, k, s.calls[c']);
      }
    }
  }

  lemma BeginDeleteAllKey(s: State, c: nat, keys: set<Key>, x: Key)
    requires MemorySound(s.memory) && KeyOk(s, x) && Enabled(s, BeginDeleteAll(c, keys))
    ensures KeyOk(Next(s, BeginDeleteAll(c, keys)), x)
  {
    hide View, Keys, PoppedKeys, DeleteAllFromMemory;
    DeleteAllFromMemoryEffect(s.memory, keys);
  }

  lemma BeginDeleteAllKeeps(s: State, c: nat, keys: set<Key>)
    requires Inv(s) && Enabled(s, BeginDeleteAll(c, keys))
    ensures Inv(Next(s, BeginDeleteAll(c, keys)))
  {
    hide KeyOk, View, Keys, DeleteAllFromMemory;
    var t := Next(s, BeginDeleteAll(c, keys));
    DeleteAllFromMemoryEffect(s.memory, keys);
    forall x ensures KeyOk(t, x) {
      BeginDeleteAllKey(s, c, keys, x);
    }
    forall c | c in t.calls ensures CallOk(t, t.calls[c]) {
      if c in s.calls {
        assert CallOk(s, s.calls[c]);
      }
    }
  }

  lemma BeginGetCall(s: State, k: Key)
    requires KeyOk(s, k) && k !in Keys(s.memory.index)
    ensures CallOk(s, Getting(k, Returned(s, k) && k !in s.deleted, k in s.gone))
  {
    hide PoppedKeys, View, Keys;
  }

  lemma BeginGetKeeps(s: State, c: nat, k: Key)
    requires Inv(s) && Enabled(s, BeginGet(c, k))
    ensures Inv(Next(s, BeginGet(c, k)))
  {
    hide KeyOk, View, Keys, PoppedKeys, FileSize, MemorySize, Distinct;
    var t := Next(s, BeginGet(c, k));
    forall x ensures KeyOk(t, x) {
      assert KeyOk(s, x);
      CallsAside(s, t, x);
    }
    assert KeyOk(s, k);
    forall c | c in t.calls ensures CallOk(t, t.calls[c]) {
      if c in s.calls {
        assert CallOk(s, s.calls[c]);
      } else {
        BeginGetCall(s, k);
      }
    }
  }

  /** The calls in progress do not matter to a key. */
  lemma CallsAside(s: State, t: State, x: Key)
    requires KeyOk(s, x) && t == s.(calls := t.calls, running := t.running)
    ensures KeyOk(t, x)
  {
    hide PoppedKeys, View, Keys;
  }

  // ---------------------------------------------------------------- disk steps

  lemma SameAtKept(s: State, t: State, x: Key)
    requires KeyOk(s, x) && t == s.(disk := t.disk, calls := t.calls, gone := t.gone) && (x in t.gone <==> x in s.gone)
    requires SameAt(s.disk, t.disk, x) && t.disk.moving == s.disk.moving && t.disk.max == s.disk.max
    ensures KeyOk(t, x)
  {
    hide View, Keys, PoppedKeys;
  }

  /** What a Delete leaves on disk of its own key. */
  ghost predicate DeletedAt(d: Disk, e: Disk, k: Key) {
    && e == d.(index := e.index, files := e.files, usage := e.usage)
    && (k in e.files <==> k in d.files && !(k in View(d.index) && View(d.index)[k] == Completed))
    && (k in e.files ==> e.files[k] == d.files[k])
    && (k in View(e.index) <==> k in View(d.index) && View(d.index)[k] != Completed)
    && (k in View(e.index) ==> View(e.index)[k] == Cancelled)
  }

  lemma DeletedAtKept(s: State, t: State, k: Key)
    requires KeyOk(s, k) && k in s.deleted && t == s.(disk := t.disk, calls := t.calls, gone := t.gone)
    requires DeletedAt(s.disk, t.disk, k) && (k in t.gone ==> k in s.gone || k !in View(s.memory.index)) && DiskFree(s)
    ensures KeyOk(t, k)
  {
    hide View, Keys, PoppedKeys;
  }

  lemma EndDeleteKey(s: State, c: nat, x: Key)
    requires DiskSound(s.disk) && Enabled(s, EndDelete(c)) && CallOk(s, s.calls[c]) && KeyOk(s, x)
    ensures KeyOk(Next(s, EndDelete(c)), x)
  {
    hide DeleteFromDisk, DiskSound, Removable, View, Keys, PoppedKeys, KeyOk;
    var k, t := s.calls[c].key, Next(s, EndDelete(c));
    DeleteFromDiskEffect(s.disk, k);
    if x == k {
      assert DeletedAt(s.disk, t.disk, k) by {
        assert DiskOk(s, k) by {
          KeyOkSays(s, k);
        }
      }
      DeletedAtKept(s, t, k);
    } else {
      SameAtKept(s, t, x);
    }
  }

  lemma KeyOkSays(s: State, k: Key)
    requires KeyOk(s, k)
    ensures DiskOk(s, k) && PendingOk(s, k)
  {
  }

  lemma EndDeleteCall(s: State, c: nat, call: Call)
    requires DiskSound(s.disk) && Enabled(s, EndDelete(c)) && CallOk(s, s.calls[c]) && CallOk(s, call)
    ensures CallOk(Next(s, EndDelete(c)), call)
  {
    hide DeleteFromDisk, DiskSound, Removable, View, Keys, PoppedKeys;
    DeleteFromDiskEffect(s.disk, s.calls[c].key);
  }

  lemma EndDeleteKeeps(s: State, c: nat)
    requires Inv(s) && Enabled(s, EndDelete(c))
    ensures Inv(Next(s, EndDelete(c)))
  {
    hide KeyOk, View, Keys;
    var t := Next(s, EndDelete(c));
    DeleteFromDiskEffect(s.disk, s.calls[c].key);
    forall x ensures KeyOk(t, x) {
      EndDeleteKey(s, c, x);
    }
    forall c' | c' in t.calls ensures CallOk(t, t.calls[c']) {
      EndDeleteCall(s, c, s.calls[c']);
    }
  }

  lemma EndDeleteAllKey(s: State, c: nat, x: Key)
    requires DiskSound(s.disk) && Enabled(s, EndDeleteAll(c)) && CallOk(s, s.calls[c]) && KeyOk(s, x)
    ensures KeyOk(Next(s, EndDeleteAll(c)), x)
  {
    hide View, Keys, PoppedKeys, Without;
    Filtered(s.disk.index, s.calls[c].keys);
  }

  lemma EndDeleteAllKeeps(s: State, c: nat)
    requires Inv(s) && Enabled(s, EndDeleteAll(c))
    ensures Inv(Next(s, EndDeleteAll(c)))
  {
    hide KeyOk, View, Keys, Without;
    var t := Next(s, EndDeleteAll(c));
    assert CallOk(s, s.calls[c]);
    Filtered(s.disk.index, s.calls[c].keys);
    forall x ensures KeyOk(t, x) {
      EndDeleteAllKey(s, c, x);
    }
    forall c | c in t.calls ensures CallOk(t, t.calls[c]) {
      assert CallOk(s, s.calls[c]);
    }
  }

  // ---------------------------------------------------------------- storing on disk

  /** Only the disk and the worker's progress with k differ. */
  ghost predicate StoresOnly(s: State, t: State, k: Key) {
    && t.memory == s.memory && t.hasPop == s.hasPop && t.calls == s.calls
    && t.stored == s.stored && t.deleted == s.deleted && t.gone == s.gone
    && t.pending == s.pending
    && (t.worker == s.worker || (s.worker.IsAbout(k) && t.worker.IsAbout(k)))
  }

  ghost predicate OtherAt(s: State, t: State, x: Key) {
    && (SameAt(s.disk, t.disk, x) || (s.hasPop && PoppedAt(s.disk, t.disk, x)))
    && (x in t.disk.moving <==> x in s.disk.moving) && (x in s.disk.moving ==> t.disk.moving[x] == s.disk.moving[x])
    && t.disk.max == s.disk.max
  }

  lemma OtherKeyKept(s: State, t: State, k: Key, x: Key)
    requires KeyOk(s, x) && x != k && StoresOnly(s, t, k) && OtherAt(s, t, x)
    ensures KeyOk(t, x)
  {
    hide View, Keys, PoppedKeys;
  }

  lemma CallKept(s: State, t: State, k: Key, c: Call)
    requires CallOk(s, c) && StoresOnly(s, t, k)
    requires c.Getting? && c.held ==> (c.key in s.deleted || OnDisk(t.disk, c.key))
    ensures CallOk(t, c)
  {
  }

  lemma OtherOnDisk(s: State, t: State, x: Key)
    requires OtherAt(s, t, x) && OnDisk(s.disk, x)
    ensures OnDisk(t.disk, x)
  {
  }

  /** The section of a store of k which starts from disk d keeps the invariant if k itself is left in order. */
  lemma SectionKeeps(s: State, d: Disk, k: Key, v: Value, t: State)
    requires InvBut(s, k) && ReadyFor(d, k, s.hasPop) && |v| <= d.max && !StoreOnDisk(d, k, v, s.hasPop).Stuck?
    requires t.disk == StoreOnDisk(d, k, v, s.hasPop).disk && StoresOnly(s, t, k)
    requires d.max == s.disk.max && d.files == s.disk.files && d.popped == s.disk.popped
    requires forall x | x != k :: (x in View(d.index) <==> x in View(s.disk.index)) && (x in View(d.index) ==> View(d.index)[x] == View(s.disk.index)[x])
    requires forall x | x != k :: (x in d.moving <==> x in s.disk.moving) && (x in d.moving ==> d.moving[x] == s.disk.moving[x])
    requires KeyOk(t, k) && (OnDisk(s.disk, k) ==> OnDisk(t.disk, k))
    ensures Inv(t)
  {
    hide View, Keys, PoppedKeys, StoreOnDisk, KeyOk, FileSize, MemorySize;
    forall x | x != k ensures OtherAt(s, t, x) {
      StoreOnDiskElse(d, k, v, s.hasPop, x);
    }
    forall x ensures KeyOk(t, x) {
      if x != k {
        assert KeyOk(s, x);
        OtherKeyKept(s, t, k, x);
      }
    }
    forall c | c in t.calls ensures CallOk(t, t.calls[c]) {
      assert CallOk(s, s.calls[c]);
      if s.calls[c].Getting? && s.calls[c].key != k && OnDisk(s.disk, s.calls[c].key) {
        OtherOnDisk(s, t, s.calls[c].key);
      }
      CallKept(s, t, k, s.calls[c]);
    }
    SectionUsage(s, d, k, v);
  }

  lemma SectionUsage(s: State, d: Disk, k: Key, v: Value)
    requires InvBut(s, k) && ReadyFor(d, k, s.hasPop) && |v| <= d.max && !StoreOnDisk(d, k, v, s.hasPop).Stuck?
    requires d.max == s.disk.max && d.files == s.disk.files && d.popped == s.disk.popped
    requires forall x | x != k :: (x in View(d.index) <==> x in View(s.disk.index)) && (x in View(d.index) ==> View(d.index)[x] == View(s.disk.index)[x])
    ensures var e := StoreOnDisk(d, k, v, s.hasPop).disk;
            && DiskSound(e) && e.max == s.disk.max
            && forall p | p in e.popped :: Stored(s, p.0, p.1)
  {
    hide View, Keys, PoppedKeys, StoreOnDisk, FileSize, MemorySize;
    var x := k.(typeId := k.typeId + 1);
    StoreOnDiskElse(d, k, v, s.hasPop, x);
    var e := StoreOnDisk(d, k, v, s.hasPop).disk;
    forall p | p in e.popped ensures Stored(s, p.0, p.1) {
      if p !in d.popped {
        assert p.0 in d.files;
        assert KeyOk(s, p.0);
      }
    }
  }

  /** What a store that enters the disk, or goes on there, finds. */
  lemma Ready(s: State, k: Key)
    requires StoresSound(s) && Consistent(s, k)
    ensures (Fresh(s, k) && k !in PoppedKeys(s.disk.popped)) || (s.worker.Entering? && s.worker.key == k) ==>
              ReadyFor(EnterDisk(s.disk, k), k, s.hasPop) && View(EnterDisk(s.disk, k).index) == View(s.disk.index)[k := Started]
    ensures k in s.disk.moving ==> ReadyFor(Wake(s.disk, k), k, s.hasPop)
  {
    if (Fresh(s, k) && k !in PoppedKeys(s.disk.popped)) || (s.worker.Entering? && s.worker.key == k) {
      EnterEffect(s.disk, k);
    }
  }

  /** What a store finds of its own key. */
  ghost predicate OwnStart(s: State, d: Disk, k: Key, v: Value) {
    && ReadyFor(d, k, s.hasPop) && Stored(s, k, v) && |v| <= d.max && d.max == s.disk.max
    && (if k in View(d.index) then View(d.index)[k] == Cancelled ==> k in s.deleted && !s.hasPop else k in s.deleted)
    && (k in s.gone ==> k in s.deleted && k !in View(s.memory.index) && (k in View(d.index) ==> View(d.index)[k] == Cancelled))
    && (k in s.pending && k in View(d.index) ==> View(d.index)[k] == Cancelled)
  }

  lemma OwnKept(s: State, d: Disk, k: Key, v: Value, t: State)
    requires OwnStart(s, d, k, v) && Consistent(s, k) && !StoreOnDisk(d, k, v, s.hasPop).Stuck?
    requires t == s.(disk := StoreOnDisk(d, k, v, s.hasPop).disk, worker := t.worker)
    requires if s.worker.IsAbout(k) then !s.worker.Finishing? && t.worker == AfterSection(s, k, v, StoreOnDisk(d, k, v, s.hasPop)).worker
             else t.worker == s.worker && k !in View(s.memory.index) && k !in s.pending
    ensures KeyOk(t, k) && (OnDisk(d, k) ==> OnDisk(t.disk, k))
  {
    hide View, Keys, PoppedKeys, StoreOnDisk, FileSize, Distinct;
    StoreOnDiskOwn(d, k, v, s.hasPop);
    OwnOutcome(s, d, k, v, StoreOnDisk(d, k, v, s.hasPop), t);
  }

  lemma OwnOutcome(s: State, d: Disk, k: Key, v: Value, r: Search, t: State)
    requires OwnStart(s, d, k, v) && Consistent(s, k) && !r.Stuck? && StoredAt(d, r, k, v) && (r.Room? || !s.hasPop)
    requires t == s.(disk := r.disk, worker := t.worker)
    requires if s.worker.IsAbout(k) then !s.worker.Finishing? && t.worker == AfterSection(s, k, v, r).worker
             else t.worker == s.worker && k !in View(s.memory.index) && k !in s.pending
    ensures KeyOk(t, k) && (OnDisk(d, k) ==> OnDisk(t.disk, k))
  {
    hide View, Keys, PoppedKeys, FileSize, Distinct;
    if r.Waits? {
      assert t.disk.moving[k] == v;
    }
  }

  lemma FreshEntersDisk(s: State, k: Key, v: Value, t: State)
    requires InvBut(s, k) && Fresh(s, k) && k !in PoppedKeys(s.disk.popped) && k !in s.pending && k !in s.gone
    requires Stored(s, k, v) && |v| <= s.disk.max && !StoreOnDisk(EnterDisk(s.disk, k), k, v, s.hasPop).Stuck?
    requires t == s.(disk := StoreOnDisk(EnterDisk(s.disk, k), k, v, s.hasPop).disk)
    ensures Inv(t)
  {
    var d := EnterDisk(s.disk, k);
    Ready(s, k);
    hide StoreOnDisk, View, Keys, PoppedKeys;
    OwnKept(s, d, k, v, t);
    SectionKeeps(s, d, k, v, t);
  }

  lemma StoppedKeeps(s: State)
    requires Inv(s)
    ensures Inv(s.(running := false))
  {
    hide KeyOk, View, Keys, PoppedKeys, FileSize, MemorySize, Distinct;
    var t := s.(running := false);
    forall x ensures KeyOk(t, x) {
      assert KeyOk(s, x);
      CallsAside(s, t, x);
    }
    forall c | c in t.calls ensures CallOk(t, t.calls[c]) {
      assert CallOk(s, s.calls[c]);
    }
  }

  lemma EnterDiskKeeps(s: State, k: Key)
    requires Inv(s) && Enabled(s, EnterStore(k)) && Orderly(s, EnterStore(k)) && |s.pending[k]| > s.memory.max
    ensures Inv(EnterStoreState(s, k))
  {
    hide Inv, InvBut, Fresh, Recorded, StoreOnDisk, View, Keys, PoppedKeys;
    if |s.pending[k]| <= s.disk.max {
      RecordedKeeps(s, k);
      RecordedIs(s, k);
      FreshEntersDisk(Recorded(s, k), k, s.pending[k], EnterStoreState(s, k));
    } else {
      StoppedKeeps(s);
    }
  }

  lemma WakeStoreKeeps(s: State, k: Key)
    requires Inv(s) && Enabled(s, WakeStore(k))
    ensures Inv(Next(s, WakeStore(k)))
  {
    var d, v, t := Wake(s.disk, k), s.disk.moving[k], Next(s, WakeStore(k));
    assert KeyOk(s, k);
    Ready(s, k);
    hide StoreOnDisk, View, Keys;
    OwnKept(s, d, k, v, t);
    SectionKeeps(s, d, k, v, t);
  }

  lemma EnterCopyKeeps(s: State)
    requires Inv(s) && Enabled(s, EnterCopy)
    ensures Inv(Next(s, EnterCopy))
  {
    var k, v, t := s.worker.key, s.worker.value, Next(s, EnterCopy);
    var d := EnterDisk(s.disk, k);
    assert KeyOk(s, k);
    Ready(s, k);
    hide StoreOnDisk, View, Keys;
    OwnKept(s, d, k, v, t);
    SectionKeeps(s, d, k, v, t);
  }

  lemma WakeCopyKeeps(s: State)
    requires Inv(s) && Enabled(s, WakeCopy)
    ensures Inv(Next(s, WakeCopy))
  {
    var k, v, t := s.worker.key, s.worker.value, Next(s, WakeCopy);
    var d := Wake(s.disk, k);
    assert KeyOk(s, k);
    Ready(s, k);
    hide StoreOnDisk, View, Keys;
    OwnKept(s, d, k, v, t);
    SectionKeeps(s, d, k, v, t);
  }

  lemma EndGetKeeps(s: State, c: nat)
    requires Inv(s) && Enabled(s, EndGet(c))
    ensures Inv(Next(s, EndGet(c)))
  {
    hide KeyOk, View, Keys, PoppedKeys, FileSize, MemorySize, Distinct;
    var t := Next(s, EndGet(c));
    forall x ensures KeyOk(t, x) {
      assert KeyOk(s, x);
      CallsAside(s, t, x);
    }
    forall c' | c' in t.calls ensures CallOk(t, t.calls[c']) {
      assert CallOk(s, s.calls[c']);
    }
  }

  // ---------------------------------------------------------------- every run

  lemma InitialInv(maxMemory: nat, maxDisk: nat, hasPop: bool)
    requires maxMemory <= maxDisk
    ensures Inv(Initial(maxMemory, maxDisk, hasPop))
  {
    NoView(Initial(maxMemory, maxDisk, hasPop).memory.index);
    NoView(Initial(maxMemory, maxDisk, hasPop).disk.index);
  }

  lemma StepKeeps(s: State, a: Step)
    requires Inv(s) && Enabled(s, a) && Orderly(s, a)
    ensures Inv(Next(s, a))
  {
    hide Inv, Enabled, Next, Orderly;
    match a
    case BeginStore(k, v) => BeginStoreKeeps(s, k, v);
    case EnterStore(k) => EnterStoreKeeps(s, k);
    case WakeStore(k) => WakeStoreKeeps(s, k);
    case Take => TakeKeeps(s);
    case EnterCopy => EnterCopyKeeps(s);
    case WakeCopy => WakeCopyKeeps(s);
    case FinishCopy => FinishCopyKeeps(s);
    case BeginDelete(c, k) => BeginDeleteKeeps(s, c, k);
    case EndDelete(c) => EndDeleteKeeps(s, c);
    case BeginDeleteAll(c, keys) => BeginDeleteAllKeeps(s, c, keys);
    case EndDeleteAll(c) => EndDeleteAllKeeps(s, c);
    case BeginGet(c, k) => BeginGetKeeps(s, c, k);
    case EndGet(c) => EndGetKeeps(s, c);
  }

  lemma EnterStoreKeeps(s: State, k: Key)
    requires Inv(s) && Enabled(s, EnterStore(k)) && Orderly(s, EnterStore(k))
    ensures Inv(Next(s, EnterStore(k)))
  {
    hide Inv, Orderly;
    if |s.pending[k]| <= s.memory.max {
      EnterMemoryKeeps(s, k);
    } else {
      EnterDiskKeeps(s, k);
    }
  }

  lemma {:induction false} RunKeeps(s: State, steps: seq<Step>)
    requires Inv(s) && IsRun(s, steps) && IsOrderly(s, steps)
    ensures Inv(After(s, steps))
    decreases |steps|
  {
    hide Inv, Orderly, Enabled, Next;
    if steps != [] {
      StepKeeps(s, steps[0]);
      RunKeeps(Next(s, steps[0]), steps[1..]);
    }
  }
}
