/** What a data buffer promises, in every interleaving of its clients and its worker. */
module BufferProperties {
  import opened Indexes
  import opened BufferSections
  import opened BufferEffects
  import opened BufferRuns
  import opened BufferInvariant
  import opened BufferCounters

  /** A state which some run from an empty buffer reaches. */
  ghost predicate Possible(s: State) {
    exists maxMemory: nat, maxDisk: nat, hasPop: bool, steps: seq<Step> {:trigger IsRun(Initial(maxMemory, maxDisk, hasPop), steps)} ::
      && maxMemory <= maxDisk && IsRun(Initial(maxMemory, maxDisk, hasPop), steps)
      && s == After(Initial(maxMemory, maxDisk, hasPop), steps)
  }

  /** A state which some orderly run reaches. */
  ghost predicate Reachable(s: State) {
    exists maxMemory: nat, maxDisk: nat, hasPop: bool, steps: seq<Step> {:trigger IsRun(Initial(maxMemory, maxDisk, hasPop), steps)} ::
      && maxMemory <= maxDisk && IsRun(Initial(maxMemory, maxDisk, hasPop), steps) && IsOrderly(Initial(maxMemory, maxDisk, hasPop), steps)
      && s == After(Initial(maxMemory, maxDisk, hasPop), steps)
  }

  lemma ReachablePossible(s: State)
    requires Reachable(s)
    ensures Possible(s)
  {
  }

  lemma ReachableInv(s: State)
    requires Reachable(s)
    ensures Inv(s)
  {
    var maxMemory: nat, maxDisk: nat, hasPop: bool, steps: seq<Step> {:trigger IsRun(Initial(maxMemory, maxDisk, hasPop), steps)} :|
      && maxMemory <= maxDisk && IsRun(Initial(maxMemory, maxDisk, hasPop), steps) && IsOrderly(Initial(maxMemory, maxDisk, hasPop), steps)
      && s == After(Initial(maxMemory, maxDisk, hasPop), steps);
    InitialInv(maxMemory, maxDisk, hasPop);
    RunKeeps(Initial(maxMemory, maxDisk, hasPop), steps);
  }

  // ---------------------------------------------------------------- nothing is lost

  ghost predicate InMemory(s: State, k: Key, v: Value) {
    exists e | e in s.memory.index :: e.key == k && e.item.value == v
  }

  ghost predicate InFile(s: State, k: Key, v: Value) {
    Element(k, Completed) in s.disk.index && k in s.disk.files && s.disk.files[k] == v
  }

  /** The last value whose Store returned is in memory, in a completed file or popped, unless deleted. */
  lemma NothingLost(s: State, k: Key)
    requires Reachable(s) && Returned(s, k) && k !in s.deleted
    ensures var v := s.stored[k];
            InMemory(s, k, v) || InFile(s, k, v) || (k, v) in s.disk.popped
  {
    ReachableInv(s);
    assert KeyOk(s, k);
    var m, d := s.memory.index, s.disk.index;
    if k in View(m) {
      assert m[Find(m, k)] in m;
    } else if k in View(d) {
      assert d[Find(d, k)] in d;
    } else {
      var p :| p in s.disk.popped && p.0 == k;
    }
  }

  /**
   In every run both counters are within their limits.  The one of the memory is exact; the one of
   the disk counts the bytes of all files, in the index or not, and those that were written over.
   */
  lemma Accounting(s: State)
    requires Possible(s)
    ensures s.memory.usage == MemorySize(s.memory.index) <= s.memory.max
    ensures s.disk.usage == FileSize(s.disk.files) + s.disk.overwritten <= s.disk.max
  {
    var maxMemory: nat, maxDisk: nat, hasPop: bool, steps: seq<Step> {:trigger IsRun(Initial(maxMemory, maxDisk, hasPop), steps)} :|
      && maxMemory <= maxDisk && IsRun(Initial(maxMemory, maxDisk, hasPop), steps)
      && s == After(Initial(maxMemory, maxDisk, hasPop), steps);
    RunCounts(Initial(maxMemory, maxDisk, hasPop), steps);
  }

  /** A store that has to make room, whether notified or not, evicts only elements marked completed. */
  lemma EvictsOnlyCompleted(s: State, k: Key, x: Key, woken: bool)
    requires Reachable(s) && k in s.pending && |s.pending[k]| <= s.memory.max
    requires x in Keys(s.memory.index) && x !in Keys(StoreInMemory(s.memory, k, s.pending[k], woken).index)
    ensures x in s.stored && Element(x, Copy(s.stored[x], Completed)) in s.memory.index
    ensures x in s.deleted || InFile(s, x, s.stored[x]) || (x, s.stored[x]) in s.disk.popped
  {
    ReachableInv(s);
    assert KeyOk(s, k) && KeyOk(s, x);
    StoreInMemoryEffect(s.memory, k, s.pending[k], woken, x);
    hide StoreInMemory, FileSize, MemorySize;
    var m, d := s.memory.index, s.disk.index;
    assert m[Find(m, x)] in m;
    if x !in s.deleted {
      if x in View(d) {
        assert d[Find(d, x)] in d;
      } else {
        var p :| p in s.disk.popped && p.0 == x;
      }
    }
  }

  // ---------------------------------------------------------------- no section fails

  /** The file of a completed element can always be removed. */
  lemma DeleteNeverFails(s: State, k: Key)
    requires Reachable(s)
    ensures Removable(s.disk, k)
  {
    ReachableInv(s);
    assert KeyOk(s, k);
  }

  lemma NotStuckWithoutPops(d: Disk, k: Key, v: Value)
    requires |v| <= d.max
    ensures GoesOn(d, k, v, false)
  {
  }

  /** Without a pop functor no store is ever stuck: it goes on, waits, or finds that it was cancelled. */
  lemma NeverStuckWithoutPops(s: State, k: Key)
    requires Reachable(s) && !s.hasPop && s.running
    ensures DiskFree(s) && k in s.pending ==> Enabled(s, EnterStore(k))
    ensures DiskFree(s) && k in s.disk.moving && !s.worker.IsAbout(k) ==> Enabled(s, WakeStore(k))
    ensures s.worker.Entering? ==> Enabled(s, EnterCopy)
    ensures s.worker.Copying? ==> Enabled(s, WakeCopy)
  {
    ReachableInv(s);
    assert KeyOk(s, k);
    if !s.worker.Resting? {
      assert KeyOk(s, s.worker.key);
    }
    hide View, Keys, StoreOnDisk, FileSize, MemorySize, KeyOk;
    forall d: Disk, x: Key, v: Value | |v| <= d.max ensures GoesOn(d, x, v, false) {
      NotStuckWithoutPops(d, x, v);
    }
  }

  // ---------------------------------------------------------------- storing again

  /** The Delete with which the first Store of a key begins finds nothing, and its value enters in order. */
  lemma FirstStoreIsOrderly(s: State, k: Key)
    requires Reachable(s) && k !in s.stored
    ensures DeleteFromMemory(s.memory, k) == s.memory && AlsoOnDisk(s.memory, k) != NotStarted
    ensures k !in Keys(s.disk.index) && Removable(s.disk, k) && DeleteFromDisk(s.disk, k) == s.disk
    ensures Orderly(s, EnterStore(k))
  {
    ReachableInv(s);
    assert KeyOk(s, k);
  }

  /** Only the worker, or an element left on disk by a cancelled store, can stand in the way of order. */
  lemma OrderlyIff(s: State, k: Key)
    requires Reachable(s) && k in s.pending
    ensures Fresh(s, k) <==> !s.worker.IsAbout(k) && k !in Keys(s.disk.index)
  {
    ReachableInv(s);
    assert KeyOk(s, k);
  }

  ghost predicate StoresNone(steps: seq<Step>, k: Key) {
    forall a | a in steps :: !(a.EnterStore? && a.key == k)
  }

  /** The rest of a run in which k is not stored again. */
  ghost predicate Continues(s: State, steps: seq<Step>, k: Key) {
    IsRun(s, steps) && IsOrderly(s, steps) && StoresNone(steps, k)
  }

  // ---------------------------------------------------------------- reading

  /** With the disk lock free, Get neither waits nor fails to read, and it yields only what was stored. */
  lemma GetNeverWaits(s: State, k: Key)
    requires Reachable(s) && DiskFree(s)
    ensures var r := GetFromDisk(s.disk, k);
            r == NoSuchElement || (k in s.stored && r == Read(s.stored[k]))
    ensures forall e | e in s.memory.index :: e.key in s.stored && e.item.value == s.stored[e.key]
  {
    ReachableInv(s);
    assert KeyOk(s, k);
    forall e | e in s.memory.index ensures e.key in s.stored && e.item.value == s.stored[e.key] {
      var i :| 0 <= i < |s.memory.index| && s.memory.index[i] == e;
      ViewAt(s.memory.index, i);
      assert KeyOk(s, e.key);
    }
  }

  /** A Get which missed a stored value in memory finds it on disk, unless it was deleted, popped or replaced since. */
  lemma GetFindsStored(s: State, c: nat)
    requires Reachable(s) && c in s.calls && s.calls[c].Getting? && s.calls[c].held
    requires s.calls[c].key !in s.deleted && s.calls[c].key !in PoppedKeys(s.disk.popped)
    ensures s.calls[c].key in s.stored && GetFromDisk(s.disk, s.calls[c].key) == Read(s.stored[s.calls[c].key])
  {
    ReachableInv(s);
    var k := s.calls[c].key;
    assert CallOk(s, s.calls[c]) && KeyOk(s, k);
  }

  // ---------------------------------------------------------------- deleting

  ghost predicate Unreadable(s: State, k: Key) {
    k !in Keys(s.memory.index) && GetFromDisk(s.disk, k) == NoSuchElement
  }

  /** The step with which a Delete of k returns; a value that was only in memory needs no section on disk. */
  ghost predicate DeleteReturns(s: State, a: Step, k: Key) {
    Enabled(s, a) &&
    match a
    case BeginDelete(_, key) => key == k && AlsoOnDisk(s.memory, k) == NotStarted
    case EndDelete(c) => s.calls[c].key == k
    case EndDeleteAll(c) => k in s.calls[c].keys
    case _ => false
  }

  /** The Delete began after the Store of k had entered its value. */
  ghost predicate BeganAfter(s: State, a: Step, k: Key)
    requires DeleteReturns(s, a, k)
  {
    match a
    case BeginDelete(_, _) => true
    case EndDelete(c) => s.calls[c].after
    case EndDeleteAll(c) => k in s.calls[c].before
  }

  lemma {:induction false} GoneStays(s: State, steps: seq<Step>, k: Key)
    requires Continues(s, steps, k) && k in s.gone
    ensures k in After(s, steps).gone
    decreases |steps|
  {
    if steps != [] {
      assert k in Next(s, steps[0]).gone by {
        assert steps[0] in steps;
      }
      GoneStays(Next(s, steps[0]), steps[1..], k);
    }
  }

  lemma GoneUnreadable(s: State, k: Key)
    requires Inv(s) && k in s.gone
    ensures Unreadable(s, k)
  {
    assert KeyOk(s, k);
  }

  lemma ReturnsGone(s: State, a: Step, k: Key)
    requires Inv(s) && DeleteReturns(s, a, k)
    ensures k !in Keys(Next(s, a).memory.index) ==> k in Next(s, a).gone
    ensures BeganAfter(s, a, k) ==> k !in Keys(Next(s, a).memory.index)
  {
    match a
    case BeginDelete(_, _) => DeleteFromMemoryEffect(s.memory, k);
    case EndDelete(c) => assert CallOk(s, s.calls[c]);
    case EndDeleteAll(c) => assert CallOk(s, s.calls[c]);
  }

  /**
   When a Delete returns, the key is unreadable from then on, whatever the other threads do, if and
   only if its value is not in memory at that moment; so it always is if the Delete began after the
   value had been entered.
   */
  lemma DeletedForGoodIff(s: State, a: Step, k: Key)
    requires Reachable(s) && DeleteReturns(s, a, k)
    ensures k !in Keys(Next(s, a).memory.index) <==>
            forall steps | Continues(Next(s, a), steps, k) :: Unreadable(After(Next(s, a), steps), k)
    ensures BeganAfter(s, a, k) ==> k !in Keys(Next(s, a).memory.index)
  {
    ReachableInv(s);
    ReturnsGone(s, a, k);
    StepKeeps(s, a);
    var t := Next(s, a);
    hide Inv, Next, Enabled, Unreadable, DeleteReturns, BeganAfter;
    if k !in Keys(t.memory.index) {
      forall steps | Continues(t, steps, k) ensures Unreadable(After(t, steps), k) {
        GoneStays(t, steps, k);
        RunKeeps(t, steps);
        GoneUnreadable(After(t, steps), k);
      }
    } else {
      assert Continues(t, [], k) && After(t, []) == t;
      InMemoryReadable(t, k);
    }
  }

  lemma InMemoryReadable(s: State, k: Key)
    requires k in Keys(s.memory.index)
    ensures !Unreadable(s, k)
  {
  }

  /** A Store of k can begin, once its Delete has returned, if and only if that left nothing in memory. */
  lemma StoreCanBeginIff(s: State, a: Step, k: Key, v: Value)
    requires Reachable(s) && DeleteReturns(s, a, k) && !UnderWay(Next(s, a), k)
    ensures Enabled(Next(s, a), BeginStore(k, v)) <==> k !in Keys(Next(s, a).memory.index)
  {
    ReachableInv(s);
    ReturnsGone(s, a, k);
    StepKeeps(s, a);
    var t := Next(s, a);
    assert t.running;
    assert KeyOk(t, k);
    if k !in Keys(t.memory.index) {
      GoneUnreadable(t, k);
    }
  }

  /** A Get begun after that is turned away, or throws in the end. */
  lemma GetOfDeletedThrows(s: State, c: nat)
    requires Reachable(s) && c in s.calls && s.calls[c].Getting? && s.calls[c].gone
    ensures GetFromDisk(s.disk, s.calls[c].key) == NoSuchElement
  {
    ReachableInv(s);
    assert CallOk(s, s.calls[c]);
    GoneUnreadable(s, s.calls[c].key);
  }
}
