/** With a pop functor, values are popped in the order in which they were entered. */
module BufferQueue {
  import opened Indexes
  import opened BufferSections
  import opened BufferEffects
  import opened BufferRuns
  import opened BufferInvariant
  import opened BufferPops
  import opened BufferOrder

  // ---------------------------------------------------------------- the calls of the pop functor

  /** The calls known of when the section of a step begins; entering a value forgets those of its key. */
  ghost function PoppedBefore(s: State, a: Step): seq<Entry> {
    if a.EnterStore? && Enters(s, a.key) then OthersPopped(s.disk.popped, a.key) else s.disk.popped
  }

  /** The calls made in one step. */
  ghost function Calls(s: State, a: Step): seq<Entry>
    requires Enabled(s, a)
  {
    if PoppedBefore(s, a) <= Next(s, a).disk.popped then Next(s, a).disk.popped[|PoppedBefore(s, a)|..] else []
  }

  /** The calls made in a run, one after another. */
  ghost function AllCalls(s: State, steps: seq<Step>): seq<Entry>
    requires IsRun(s, steps)
    decreases |steps|
  {
    if steps == [] then [] else Calls(s, steps[0]) + AllCalls(Next(s, steps[0]), steps[1..])
  }

  lemma {:induction false} PopsAppended(d: Disk, k: Key, v: Value, hasPop: bool)
    requires |v| <= d.max && !StoreOnDisk(d, k, v, hasPop).Stuck?
    ensures d.popped <= StoreOnDisk(d, k, v, hasPop).disk.popped
    decreases |d.index|
  {
    if !HasSpace(d.max, d.usage, |v|) && hasPop && CanPop(d) {
      PopsAppended(PopOldest(d), k, v, hasPop);
    }
  }

  /** No step changes the record of earlier calls but for the key it enters. */
  lemma CallsAppended(s: State, a: Step)
    requires Enabled(s, a)
    ensures Next(s, a).disk.popped == PoppedBefore(s, a) + Calls(s, a)
  {
    hide StoreOnDisk, StoreInMemory, EntersMemory, OthersPopped, PendingDelete, PoppedOf, GetFromDisk, Removable, DeleteFromDisk, Keys;
    match a
    case EnterStore(k) =>
      if s.memory.max < |s.pending[k]| <= s.disk.max {
        PopsAppended(EnterDisk(Renewed(s.disk, k), k), k, s.pending[k], s.hasPop);
      }
    case WakeStore(k) => PopsAppended(Wake(s.disk, k), k, s.disk.moving[k], s.hasPop);
    case EnterCopy => PopsAppended(EnterDisk(s.disk, s.worker.key), s.worker.key, s.worker.value, s.hasPop);
    case WakeCopy => PopsAppended(Wake(s.disk, s.worker.key), s.worker.key, s.worker.value, s.hasPop);
    case EndDelete(c) => DeletePopsNone(s.disk, s.calls[c].key);
    case _ =>
  }

  lemma DeletePopsNone(d: Disk, k: Key)
    requires Removable(d, k)
    ensures DeleteFromDisk(d, k).popped == d.popped
  {
  }

  // ---------------------------------------------------------------- the line

  ghost predicate Unbegun(m: Memory, k: Key) {
    k in View(m.index) && View(m.index)[k].alsoOnDisk == NotStarted
  }

  /**
   The disk index comes first, then the key the worker is about to enter, then the values it has not
   begun; all in the order of their entries, and none entered before the one with number `floor`.
   */
  ghost predicate InLine(s: State, entries: seq<Entry>, floor: nat) {
    && InEntryOrder(s.disk.index, entries)
    && (forall x | x in Keys(s.disk.index) :: floor <= Last(entries, x))
    && (s.worker.Entering? ==> floor <= Last(entries, s.worker.key))
    && (forall x | s.worker.Entering? && x in Keys(s.disk.index) :: Last(entries, x) < Last(entries, s.worker.key))
    && (forall y | Unbegun(s.memory, y) :: floor <= Last(entries, y))
    && (forall x, y | x in Keys(s.disk.index) && Unbegun(s.memory, y) :: Last(entries, x) < Last(entries, y))
    && (forall y | s.worker.Entering? && Unbegun(s.memory, y) :: Last(entries, s.worker.key) < Last(entries, y))
  }

  /** What is recorded as stored is what was entered last, and every waiting Store fits in memory. */
  ghost predicate Records(s: State, entries: seq<Entry>) {
    && (forall k | k in s.stored :: Last(entries, k) >= 0 && entries[Last(entries, k)].1 == s.stored[k])
    && (forall k | k in s.pending :: |s.pending[k]| <= s.memory.max)
  }

  ghost predicate Lined(s: State, entries: seq<Entry>, floor: nat) {
    Inv(s) && s.hasPop && Ordered(s, entries) && Records(s, entries) && InLine(s, entries, floor)
  }

  /** A step which moves nothing to the disk, begins no value and enters none. */
  lemma LineShortened(s: State, t: State, entries: seq<Entry>, floor: nat)
    requires InLine(s, entries, floor)
    requires InEntryOrder(t.disk.index, entries) && Keys(t.disk.index) <= Keys(s.disk.index)
    requires forall y | Unbegun(t.memory, y) :: Unbegun(s.memory, y)
    requires t.worker.Entering? ==> t.worker == s.worker
    ensures InLine(t, entries, floor)
  {
    hide InEntryOrder, Keys, Unbegun, Last;
  }

  lemma RecordsKept(s: State, t: State, entries: seq<Entry>)
    requires Records(s, entries) && t.stored == s.stored && t.memory.max == s.memory.max
    requires forall k | k in t.pending :: k in s.pending && t.pending[k] == s.pending[k]
    ensures Records(t, entries)
  {
  }

  // ---------------------------------------------------------------- steps

  lemma DeletedUnbegun(m: Memory, k: Key, y: Key)
    requires MemorySound(m) && Unbegun(DeleteFromMemory(m, k), y)
    ensures Unbegun(m, y)
  {
    hide View, Keys, Distinct, DeleteFromMemory;
    DeleteFromMemoryEffect(m, k);
  }

  lemma AllDeletedUnbegun(m: Memory, keys: set<Key>, y: Key)
    requires MemorySound(m) && Unbegun(DeleteAllFromMemory(m, keys), y)
    ensures Unbegun(m, y)
  {
    hide View, Keys, Distinct, DeleteAllFromMemory;
    DeleteAllFromMemoryEffect(m, keys);
  }

  lemma CompletedUnbegun(m: Memory, k: Key, y: Key)
    requires MemorySound(m) && Unbegun(MarkCompleted(m, k), y)
    ensures Unbegun(m, y)
  {
    hide View, Keys, Distinct, MarkCompleted;
    MarkCompletedEffect(m, k);
  }

  lemma DeleteFewer(s: State, c: nat, k: Key, entries: seq<Entry>, floor: nat)
    requires Lined(s, entries, floor) && Enabled(s, BeginDelete(c, k))
    ensures Records(Next(s, BeginDelete(c, k)), entries) && InLine(Next(s, BeginDelete(c, k)), entries, floor)
  {
    var t := Next(s, BeginDelete(c, k));
    SoundMemory(s);
    assert t.memory.max == s.memory.max;
    hide Lined, MemorySound, Unbegun, DeleteFromMemory, AlsoOnDisk, Records, InLine;
    forall y | Unbegun(t.memory, y) ensures Unbegun(s.memory, y) {
      DeletedUnbegun(s.memory, k, y);
    }
    Fewer(s, t, entries, floor);
  }

  lemma DeleteAllFewer(s: State, c: nat, keys: set<Key>, entries: seq<Entry>, floor: nat)
    requires Lined(s, entries, floor) && Enabled(s, BeginDeleteAll(c, keys))
    ensures Records(Next(s, BeginDeleteAll(c, keys)), entries) && InLine(Next(s, BeginDeleteAll(c, keys)), entries, floor)
  {
    var t := Next(s, BeginDeleteAll(c, keys));
    SoundMemory(s);
    assert t.memory.max == s.memory.max;
    hide Lined, MemorySound, Unbegun, DeleteAllFromMemory, Records, InLine;
    forall y | Unbegun(t.memory, y) ensures Unbegun(s.memory, y) {
      AllDeletedUnbegun(s.memory, keys, y);
    }
    Fewer(s, t, entries, floor);
  }

  lemma FinishFewer(s: State, entries: seq<Entry>, floor: nat)
    requires Lined(s, entries, floor) && Enabled(s, FinishCopy)
    ensures Records(Next(s, FinishCopy), entries) && InLine(Next(s, FinishCopy), entries, floor)
  {
    var t := Next(s, FinishCopy);
    SoundMemory(s);
    assert t.memory.max == s.memory.max;
    hide Lined, MemorySound, Unbegun, MarkCompleted, Records, InLine;
    forall y | Unbegun(t.memory, y) ensures Unbegun(s.memory, y) {
      CompletedUnbegun(s.memory, s.worker.key, y);
    }
    Fewer(s, t, entries, floor);
  }

  lemma SoundMemory(s: State)
    requires Inv(s)
    ensures MemorySound(s.memory)
  {
  }

  lemma Fewer(s: State, t: State, entries: seq<Entry>, floor: nat)
    requires Lined(s, entries, floor) && t.disk == s.disk && t.stored == s.stored && t.pending == s.pending && t.memory.max == s.memory.max
    requires forall y | Unbegun(t.memory, y) :: Unbegun(s.memory, y)
    requires t.worker.Entering? ==> t.worker == s.worker
    ensures Records(t, entries) && InLine(t, entries, floor)
  {
    InLineSays(s, entries, floor);
    hide Inv, Ordered, InLine, InEntryOrder, Unbegun, Keys, Last;
    LineShortened(s, t, entries, floor);
  }

  lemma InLineSays(s: State, entries: seq<Entry>, floor: nat)
    requires InLine(s, entries, floor)
    ensures InEntryOrder(s.disk.index, entries)
  {
  }

  lemma DiskDeletes(s: State, a: Step, entries: seq<Entry>, floor: nat)
    requires Lined(s, entries, floor) && Enabled(s, a) && (a.EndDelete? || a.EndDeleteAll?)
    ensures Records(Next(s, a), entries) && InLine(Next(s, a), entries, floor)
  {
    var t := Next(s, a);
    InLineSays(s, entries, floor);
    hide Inv, Ordered, InLine, InEntryOrder, Unbegun, Keys, Last, Without, DeleteFromDisk, Removable;
    if a.EndDelete? {
      OneFewerOnDisk(s, s.calls[a.call].key, entries);
    } else {
      FilteredInOrder(s.disk.index, s.calls[a.call].keys, entries);
      KeptOnly(s.disk.index, s.calls[a.call].keys);
      KeysOfKept(s.disk.index, Without(s.disk.index, s.calls[a.call].keys));
    }
    LineShortened(s, t, entries, floor);
    RecordsKept(s, t, entries);
  }

  lemma KeysOfKept<T>(index: Index<T>, kept: Index<T>)
    requires forall x | x in kept :: x in index
    ensures Keys(kept) <= Keys(index)
  {
    forall i | 0 <= i < |kept| ensures kept[i].key in Keys(index) {
      assert kept[i] in kept;
    }
  }

  lemma OneFewerOnDisk(s: State, k: Key, entries: seq<Entry>)
    requires Inv(s) && s.hasPop && InEntryOrder(s.disk.index, entries) && Removable(s.disk, k)
    ensures InEntryOrder(DeleteFromDisk(s.disk, k).index, entries)
    ensures Keys(DeleteFromDisk(s.disk, k).index) <= Keys(s.disk.index)
  {
    hide Inv, InEntryOrder, Last, RemoveAt;
    var i := Find(s.disk.index, k);
    if i < |s.disk.index| {
      AllCompleted(s, i);
      RemovedInOrder(s.disk.index, i, entries);
      ElementsKept(s.disk.index, i);
    }
  }

  lemma Takes(s: State, entries: seq<Entry>, floor: nat)
    requires Lined(s, entries, floor) && Enabled(s, Take)
    ensures Records(Next(s, Take), entries) && InLine(Next(s, Take), entries, floor)
  {
    var t, i := Next(s, Take), FirstIn(s.memory.index, NotStarted);
    SoundMemory(s);
    OrderedIs(s, entries);
    FirstUnbegun(s.memory, entries);
    forall y | Unbegun(t.memory, y) ensures Unbegun(s.memory, y) && y != t.worker.key {
      MarkedUnbegun(s.memory, i, y);
    }
    hide Inv, Ordered, MemoryInOrder, Unbegun, InEntryOrder, Keys, Last, MemorySound, FirstIn;
    RecordsKept(s, t, entries);
  }

  lemma MarkedUnbegun(m: Memory, i: nat, y: Key)
    requires MemorySound(m) && i < |m.index| && Unbegun(Mark(m, i, Started), y)
    ensures Unbegun(m, y) && y != m.index[i].key
  {
    hide View, Keys, Distinct, Mark;
    MarkEffect(m, i, Started);
  }

  lemma {:induction false} FirstUnbegun(m: Memory, entries: seq<Entry>)
    requires MemorySound(m) && MemoryInOrder(m, entries) && FirstIn(m.index, NotStarted) < |m.index|
    ensures var k := m.index[FirstIn(m.index, NotStarted)].key;
            Unbegun(m, k) && forall y | Unbegun(m, y) && y != k :: Last(entries, k) < Last(entries, y)
  {
    var i := FirstIn(m.index, NotStarted);
    var k := m.index[i].key;
    ViewAt(m.index, i);
    FirstIsEarliest(m, entries);
    forall y | Unbegun(m, y) && y != k ensures Last(entries, k) < Last(entries, y) {
      assert m.index[Find(m.index, y)] in m.index;
    }
    hide MemoryInOrder, FirstIn, Distinct;
  }

  // ---------------------------------------------------------------- entering a value

  lemma EntersLine(s: State, k: Key, entries: seq<Entry>, floor: nat)
    requires Lined(s, entries, floor) && floor <= |entries| && Enabled(s, EnterStore(k)) && Orderly(s, EnterStore(k))
    ensures var t := EnterStoreState(s, k);
            Records(t, entries + EntryOf(s, EnterStore(k))) && InLine(t, entries + EntryOf(s, EnterStore(k)), floor)
  {
    var v, t := s.pending[k], EnterStoreState(s, k);
    assert MemorySound(s.memory) && k !in View(s.memory.index);
    forall x ensures Unbegun(t.memory, x) ==> Unbegun(s.memory, x) || (x == k && Enters(s, k)) {
      StoreInMemoryEffect(s.memory, k, v, k in s.waiting, x);
      hide StoreInMemory, EntersMemory, View, Keys, OthersPopped, PoppedOf, PendingDelete, Ordered, Inv, InLine;
    }
    StoreKeepsMax(s.memory, k, v, k in s.waiting);
    assert entries + [] == entries;
    hide Inv, Ordered, StoreInMemory, EntersMemory, OthersPopped, PoppedOf, PendingDelete, Unbegun;
    if Enters(s, k) {
      EntryLast(s, t, k, v, entries, floor);
    } else {
      InLineSays(s, entries, floor);
      LineShortened(s, t, entries, floor);
      RecordsKept(s, t, entries);
    }
  }

  lemma StoreKeepsMax(m: Memory, k: Key, v: Value, woken: bool)
    requires |v| <= m.max
    ensures StoreInMemory(m, k, v, woken).max == m.max
  {
  }

  lemma {:induction false} LastOfEach(entries: seq<Entry>, e: Entry)
    ensures forall x :: Last(entries + [e], x) == if x == e.0 then |entries| else Last(entries, x)
    ensures forall n | 0 <= n < |entries| :: (entries + [e])[n] == entries[n]
  {
    forall x ensures Last(entries + [e], x) == if x == e.0 then |entries| else Last(entries, x) {
      LastAfter(entries, e, x);
    }
  }

  /** The new value is the last in line. */
  lemma EntryLast(s: State, t: State, k: Key, v: Value, entries: seq<Entry>, floor: nat)
    requires Records(s, entries) && InLine(s, entries, floor) && floor <= |entries|
    requires k !in Keys(s.disk.index) && !s.worker.IsAbout(k)
    requires t.disk.index == s.disk.index && t.worker == s.worker && t.stored == s.stored[k := v] && t.pending == s.pending - {k}
    requires t.memory.max == s.memory.max
    requires forall x | Unbegun(t.memory, x) :: Unbegun(s.memory, x) || x == k
    ensures Records(t, entries + [(k, v)]) && InLine(t, entries + [(k, v)], floor)
  {
    hide Unbegun, Last, InEntryOrder, Keys, InLine, Records;
    InLineSays(s, entries, floor);
    LastOfEach(entries, (k, v));
    EnteredInOrder(s.disk.index, entries, (k, v));
    LastInLine(s, t, k, entries, entries + [(k, v)], floor);
    LastRecorded(s, t, k, v, entries);
  }

  lemma LastRecorded(s: State, t: State, k: Key, v: Value, entries: seq<Entry>)
    requires Records(s, entries) && t.stored == s.stored[k := v] && t.pending == s.pending - {k} && t.memory.max == s.memory.max
    ensures Records(t, entries + [(k, v)])
  {
    hide Last;
    LastOfEach(entries, (k, v));
  }

  lemma {:induction false} LastInLine(s: State, t: State, k: Key, entries: seq<Entry>, after: seq<Entry>, floor: nat)
    requires InLine(s, entries, floor) && floor <= |entries| && k !in Keys(s.disk.index) && !s.worker.IsAbout(k)
    requires t.disk.index == s.disk.index && t.worker == s.worker && InEntryOrder(s.disk.index, after)
    requires forall x :: Last(after, x) == if x == k then |entries| else Last(entries, x)
    requires forall x | Unbegun(t.memory, x) :: Unbegun(s.memory, x) || x == k
    ensures InLine(t, after, floor)
  {
    hide Unbegun, Last, InEntryOrder, Keys;
  }

  // ---------------------------------------------------------------- entering the disk

  /** A store of k has popped the n oldest elements and is the last in the index. */
  ghost predicate Popped(d: Disk, k: Key, n: nat, e: Disk) {
    && n <= |d.index| && (forall i | 0 <= i < n :: d.index[i].key in d.files)
    && e.popped == d.popped + PairsOf(d.index[..n], d.files)
    && |e.index| == |d.index| - n + 1
    && (forall i | n <= i < |d.index| :: e.index[i - n].key == d.index[i].key)
    && e.index[|d.index| - n].key == k
  }

  lemma {:induction false} WrittenAfter(d: Disk, k: Key, v: Value)
    requires |v| <= d.max && WaitForSpaceOnDisk(d, k, v, true).Room?
    ensures StoreOnDisk(d, k, v, true) == Room(WriteToDisk(WaitForSpaceOnDisk(d, k, v, true).disk, k, v))
  {
  }

  lemma WriteKeepsKeys(d: Disk, k: Key, v: Value)
    ensures var e := WriteToDisk(d, k, v);
            && |e.index| == |d.index| && (forall i | 0 <= i < |d.index| :: e.index[i].key == d.index[i].key)
            && e.popped == d.popped
  {
  }

  lemma AfterPopsIs(d: Disk, k: Key, n: nat)
    requires n <= |d.index| && forall i | 0 <= i < |d.index| :: d.index[i].key in d.files
    ensures var f := EnterDisk(d, k);
            && (forall i | 0 <= i < |f.index| - 1 :: f.index[i].key in f.files)
            && |AfterPops(f, n).index| == |d.index| - n + 1
            && (forall i | n <= i < |d.index| :: AfterPops(f, n).index[i - n] == d.index[i])
            && AfterPops(f, n).index[|d.index| - n].key == k
            && AfterPops(f, n).popped == d.popped + PairsOf(d.index[..n], d.files)
  {
    assert EnterDisk(d, k).index[..n] == d.index[..n];
  }

  lemma PopsSome(f: Disk, k: Key, v: Value) returns (n: nat)
    requires Queued(f, k) && GoesOn(f, k, v, true)
    ensures f.index != [] && n < |f.index| && forall i | 0 <= i < |f.index| - 1 :: f.index[i].key in f.files
    ensures WaitForSpaceOnDisk(f, k, v, true) == Room(AfterPops(f, n))
  {
    QueuedSays(f, k);
    PopsShortestPrefix(f, k, v);
    StuckIff(f, k, v);
    hide StoreOnDisk, WaitForSpaceOnDisk, Queued, Unindexed, AfterPops;
    n :| ShortestPops(f, |v|, n) && WaitForSpaceOnDisk(f, k, v, true).disk == AfterPops(f, n);
  }

  lemma FilesBefore(d: Disk, k: Key)
    requires forall i | 0 <= i < |EnterDisk(d, k).index| - 1 :: EnterDisk(d, k).index[i].key in EnterDisk(d, k).files
    ensures |EnterDisk(d, k).index| == |d.index| + 1 && EnterDisk(d, k).files == d.files
    ensures forall i | 0 <= i < |d.index| :: d.index[i].key in d.files
  {
    assert forall i | 0 <= i < |d.index| :: EnterDisk(d, k).index[i] == d.index[i];
  }

  lemma StorePops(d: Disk, k: Key, v: Value) returns (n: nat)
    requires Queued(EnterDisk(d, k), k) && GoesOn(EnterDisk(d, k), k, v, true)
    ensures Popped(d, k, n, StoreOnDisk(EnterDisk(d, k), k, v, true).disk)
  {
    hide StoreOnDisk, WaitForSpaceOnDisk, Queued, WriteToDisk, AfterPops, EnterDisk, PairsOf, Popped;
    n := PopsSome(EnterDisk(d, k), k, v);
    FilesBefore(d, k);
    AfterPopsIs(d, k, n);
    WrittenAfter(EnterDisk(d, k), k, v);
    WriteKeepsKeys(AfterPops(EnterDisk(d, k), n), k, v);
    PoppedIs(d, k, n, AfterPops(EnterDisk(d, k), n), StoreOnDisk(EnterDisk(d, k), k, v, true).disk);
  }

  lemma PoppedIs(d: Disk, k: Key, n: nat, a: Disk, e: Disk)
    requires n <= |d.index| && forall i | 0 <= i < |d.index| :: d.index[i].key in d.files
    requires |a.index| == |d.index| - n + 1 && (forall i | n <= i < |d.index| :: a.index[i - n] == d.index[i])
    requires a.index[|d.index| - n].key == k && a.popped == d.popped + PairsOf(d.index[..n], d.files)
    requires |e.index| == |a.index| && (forall i | 0 <= i < |a.index| :: e.index[i].key == a.index[i].key) && e.popped == a.popped
    ensures Popped(d, k, n, e)
  {
    hide PairsOf;
  }

  lemma CopyPops(s: State) returns (n: nat)
    requires Inv(s) && s.hasPop && Enabled(s, EnterCopy)
    ensures Popped(s.disk, s.worker.key, n, Next(s, EnterCopy).disk)
  {
    hide Inv, StoreOnDisk, Queued, Unindexed, Popped;
    QueuedOnEnter(s, s.worker.key, s.disk);
    n := StorePops(s.disk, s.worker.key, s.worker.value);
  }

  lemma AtKeys<T>(index: Index<T>)
    ensures forall i | 0 <= i < |index| :: index[i].key in Keys(index)
    ensures forall k | k in Keys(index) :: exists i :: 0 <= i < |index| && index[i].key == k
  {
  }

  /** The keys left in the index keep their order, and the new one is behind them. */
  lemma {:induction false} MovedUp(d: Disk, k: Key, n: nat, e: Disk, entries: seq<Entry>, floor: nat)
    requires Popped(d, k, n, e) && InEntryOrder(d.index, entries) && Last(entries, k) >= 0
    requires forall i | 0 <= i < |d.index| :: Last(entries, d.index[i].key) < Last(entries, k)
    requires forall i | n <= i < |d.index| :: floor <= Last(entries, d.index[i].key)
    requires floor <= Last(entries, k)
    ensures InEntryOrder(e.index, entries) && forall x | x in Keys(e.index) :: floor <= Last(entries, x) <= Last(entries, k)
  {
    hide Last, PairsOf;
    assert forall j | 0 <= j < |e.index| :: e.index[j].key == if j < |d.index| - n then d.index[n + j].key else k;
  }

  /** The line moves up: what was popped is gone from its front and nothing before that comes again. */
  lemma CopyLined(s: State, n: nat, t: State, entries: seq<Entry>, floor: nat) returns (floor': nat)
    requires InLine(s, entries, floor) && floor <= |entries| && s.worker.Entering? && Popped(s.disk, s.worker.key, n, t.disk)
    requires !t.worker.Entering? && t.memory == s.memory
    ensures floor <= floor' <= |entries| && InLine(t, entries, floor')
    ensures forall i | 0 <= i < n :: floor <= Last(entries, s.disk.index[i].key) < floor'
  {
    hide Unbegun, Last, Keys;
    var index, k := s.disk.index, s.worker.key;
    AtKeys(index);
    floor' := FloorAfter(index, n, entries, floor, k);
    hide InEntryOrder, Popped;
    MovedUp(s.disk, k, n, t.disk, entries, floor');
    assert forall y | Unbegun(s.memory, y) :: floor' <= Last(entries, k) < Last(entries, y);
  }

  lemma FloorAfter(index: Index<StoringState>, n: nat, entries: seq<Entry>, floor: nat, k: Key) returns (floor': nat)
    requires InEntryOrder(index, entries) && n <= |index| && floor <= Last(entries, k)
    requires forall i | 0 <= i < |index| :: floor <= Last(entries, index[i].key) < Last(entries, k)
    ensures floor <= floor' <= Last(entries, k)
    ensures forall i | 0 <= i < n :: Last(entries, index[i].key) < floor'
    ensures forall i | n <= i < |index| :: floor' <= Last(entries, index[i].key)
  {
    hide Last;
    floor' := if n == 0 then floor else Last(entries, index[n - 1].key) + 1;
  }

  // ---------------------------------------------------------------- every run

  /** The calls are those of the entries with these numbers, which grow. */
  ghost predicate Numbered(numbers: seq<nat>, calls: seq<Entry>, entries: seq<Entry>) {
    && |numbers| == |calls|
    && (forall i | 0 <= i < |numbers| :: numbers[i] < |entries| && entries[numbers[i]] == calls[i])
    && forall i, j | 0 <= i < j < |numbers| :: numbers[i] < numbers[j]
  }

  /** With a functor no thread ever waits for space on disk. */
  lemma NoneWaiting(s: State)
    requires Inv(s) && s.hasPop
    ensures s.disk.moving == map[] && !s.worker.Copying?
  {
    forall k ensures k !in s.disk.moving {
      assert KeyOk(s, k);
    }
    if s.worker.Copying? {
      InvSays(s, s.worker.key);
    }
  }

  /** Only the worker's own section calls the functor when every value fits in memory. */
  lemma QuietStep(s: State, a: Step)
    requires Enabled(s, a) && !a.EnterCopy? && !a.WakeStore? && !a.WakeCopy?
    requires a.EnterStore? ==> |s.pending[a.key]| <= s.memory.max
    ensures Calls(s, a) == [] && Next(s, a).hasPop == s.hasPop && Next(s, a).memory.max == s.memory.max
  {
    hide GoesOn, OthersPopped, PoppedOf, PendingDelete, Removable, StoreOnDisk;
    if a.EndDelete? {
      DeletePopsNone(s.disk, s.calls[a.call].key);
    } else if a.EnterStore? {
      StoreKeepsMax(s.memory, a.key, s.pending[a.key], a.key in s.waiting);
    }
    hide DeleteFromMemory, DeleteFromDisk, AlsoOnDisk, StoreInMemory, EntersMemory;
  }

  lemma CallStep(s: State, t: State, entries: seq<Entry>, floor: nat)
    requires Records(s, entries) && InLine(s, entries, floor)
    requires t.memory == s.memory && t.disk == s.disk && t.worker == s.worker && t.stored == s.stored
    requires forall k | k in t.pending :: |t.pending[k]| <= s.memory.max
    ensures Records(t, entries) && InLine(t, entries, floor)
  {
    hide InEntryOrder, Unbegun, Last, Keys;
  }

  lemma StepLined(s: State, a: Step, entries: seq<Entry>, floor: nat)
    requires Lined(s, entries, floor) && floor <= |entries| && Enabled(s, a) && Orderly(s, a)
    requires !a.EnterCopy? && !a.WakeStore? && !a.WakeCopy?
    requires a.BeginStore? ==> |a.value| <= s.memory.max
    ensures Records(Next(s, a), entries + EntryOf(s, a)) && InLine(Next(s, a), entries + EntryOf(s, a), floor)
  {
    assert entries + [] == entries;
    hide Inv, Ordered, InLine, GoesOn, DeleteFromMemory, DeleteFromDisk, Removable, MarkCompleted, StoreInMemory, EntersMemory;
    match a
    case BeginStore(k, v) => CallStep(s, Next(s, a), entries, floor);
    case EnterStore(k) => EntersLine(s, k, entries, floor);
    case Take => Takes(s, entries, floor);
    case FinishCopy => FinishFewer(s, entries, floor);
    case BeginDelete(c, k) => DeleteFewer(s, c, k, entries, floor);
    case BeginDeleteAll(c, keys) => DeleteAllFewer(s, c, keys, entries, floor);
    case EndDelete(_) => DiskDeletes(s, a, entries, floor);
    case EndDeleteAll(_) => DiskDeletes(s, a, entries, floor);
    case BeginGet(_, _) => CallStep(s, Next(s, a), entries, floor);
    case EndGet(_) => CallStep(s, Next(s, a), entries, floor);
    case _ =>
  }

  /** The files of the disk index are the values entered last for their keys. */
  lemma {:induction false} FilesEntered(s: State, entries: seq<Entry>)
    requires Inv(s) && s.hasPop && Records(s, entries)
    ensures forall i | 0 <= i < |s.disk.index| ::
              var k := s.disk.index[i].key;
              k in s.disk.files && Last(entries, k) >= 0 && entries[Last(entries, k)] == (k, s.disk.files[k])
  {
    forall i | 0 <= i < |s.disk.index|
      ensures var k := s.disk.index[i].key;
              k in s.disk.files && Last(entries, k) >= 0 && entries[Last(entries, k)] == (k, s.disk.files[k])
    {
      FileEntered(s, i, entries);
    }
  }

  lemma {:induction false} FileEntered(s: State, i: nat, entries: seq<Entry>)
    requires Inv(s) && s.hasPop && Records(s, entries) && i < |s.disk.index|
    ensures var k := s.disk.index[i].key;
            k in s.disk.files && Last(entries, k) >= 0 && entries[Last(entries, k)] == (k, s.disk.files[k])
  {
    AllCompleted(s, i);
    ViewAt(s.disk.index, i);
    assert KeyOk(s, s.disk.index[i].key);
  }

  lemma CallsAre(s: State, n: nat)
    requires Enabled(s, EnterCopy) && Popped(s.disk, s.worker.key, n, Next(s, EnterCopy).disk)
    ensures Calls(s, EnterCopy) == PairsOf(s.disk.index[..n], s.disk.files)
  {
    hide PairsOf, StoreOnDisk;
  }

  lemma PairsNumbered(index: Index<StoringState>, files: map<Key, Value>, n: nat, entries: seq<Entry>, floor: nat, floor': nat) returns (numbers: seq<nat>)
    requires n <= |index| && InEntryOrder(index, entries) && forall i | 0 <= i < n :: floor <= Last(entries, index[i].key) < floor'
    requires forall i | 0 <= i < |index| :: var k := index[i].key; k in files && Last(entries, k) >= 0 && entries[Last(entries, k)] == (k, files[k])
    ensures Numbered(numbers, PairsOf(index[..n], files), entries) && forall m | m in numbers :: floor <= m < floor'
  {
    hide Last;
    numbers := seq(n, i requires 0 <= i < n => Last(entries, index[i].key));
  }

  /** What the worker's section pops are entries from the front of the line, in order. */
  lemma CopyStep(s: State, entries: seq<Entry>, floor: nat) returns (floor': nat, numbers: seq<nat>)
    requires Lined(s, entries, floor) && floor <= |entries| && Enabled(s, EnterCopy)
    ensures var t := Next(s, EnterCopy);
            && Records(t, entries) && InLine(t, entries, floor')
            && floor <= floor' <= |entries| && Numbered(numbers, Calls(s, EnterCopy), entries)
    ensures forall n | n in numbers :: floor <= n < floor'
  {
    var t := Next(s, EnterCopy);
    hide Inv, Ordered, InLine, Records, InEntryOrder, Popped, GoesOn, StoreOnDisk, Keys, Unbegun, Calls, Numbered, PairsOf, Last;
    InLineSays(s, entries, floor);
    FilesEntered(s, entries);
    var n := CopyPops(s);
    RecordsKept(s, t, entries);
    floor' := CopyLined(s, n, t, entries, floor);
    CallsAre(s, n);
    assert n <= |s.disk.index| by {
      PoppedSays(s.disk, s.worker.key, n, t.disk);
    }
    numbers := PairsNumbered(s.disk.index, s.disk.files, n, entries, floor, floor');
  }

  lemma PoppedSays(d: Disk, k: Key, n: nat, e: Disk)
    requires Popped(d, k, n, e)
    ensures n <= |d.index|
  {
  }

  lemma CopyQuiet(s: State)
    requires Enabled(s, EnterCopy)
    ensures Next(s, EnterCopy).memory.max == s.memory.max && Next(s, EnterCopy).hasPop == s.hasPop && EntryOf(s, EnterCopy) == []
  {
  }

  ghost predicate FitsMemory(a: Step, maxMemory: nat) {
    a.BeginStore? ==> |a.value| <= maxMemory
  }

  lemma WaitingFit(s: State, a: Step, entries: seq<Entry>)
    requires Records(s, entries) && Enabled(s, a)
    ensures a.EnterStore? ==> |s.pending[a.key]| <= s.memory.max
  {
  }

  lemma EveryStep(s: State, a: Step, entries: seq<Entry>, floor: nat) returns (floor': nat, numbers: seq<nat>)
    requires Lined(s, entries, floor) && floor <= |entries| && Enabled(s, a) && Orderly(s, a) && FitsMemory(a, s.memory.max)
    ensures Lined(Next(s, a), entries + EntryOf(s, a), floor') && floor <= floor' <= |entries + EntryOf(s, a)|
    ensures Numbered(numbers, Calls(s, a), entries + EntryOf(s, a)) && forall n | n in numbers :: floor <= n < floor'
    ensures Next(s, a).memory.max == s.memory.max
  {
    NoneWaiting(s);
    StepKeeps(s, a);
    assert !a.WakeStore? && !a.WakeCopy?;
    hide Inv, Ordered, InLine, Records, Enabled, Next, Calls, EntryOf, Orderly;
    StepInOrder(s, a, entries);
    WaitingFit(s, a, entries);
    if a == EnterCopy {
      CopyQuiet(s);
      assert entries + [] == entries;
      floor', numbers := CopyStep(s, entries, floor);
    } else {
      QuietStep(s, a);
      StepLined(s, a, entries, floor);
      floor', numbers := floor, [];
    }
  }

  lemma NumbersJoined(a: seq<nat>, b: seq<nat>, calls: seq<Entry>, rest: seq<Entry>, first: seq<Entry>, entries: seq<Entry>, floor: nat)
    requires Numbered(a, calls, first) && Numbered(b, rest, entries) && first <= entries
    requires (forall n | n in a :: n < floor) && (forall n | n in b :: floor <= n)
    ensures Numbered(a + b, calls + rest, entries)
  {
    assert forall i | 0 <= i < |a| :: a[i] in a;
    assert forall i | 0 <= i < |b| :: b[i] in b;
  }

  lemma {:induction false} RunPops(s: State, steps: seq<Step>, entries: seq<Entry>, floor: nat) returns (numbers: seq<nat>)
    requires Lined(s, entries, floor) && floor <= |entries| && IsRun(s, steps) && IsOrderly(s, steps)
    requires forall a | a in steps :: FitsMemory(a, s.memory.max)
    ensures Numbered(numbers, AllCalls(s, steps), entries + Entries(s, steps)) && forall n | n in numbers :: floor <= n
    decreases |steps|
  {
    hide Lined, Enabled, Next, Calls, EntryOf, Orderly, FitsMemory, Numbered;
    if steps == [] {
      numbers := [];
      NoneNumbered(entries + []);
    } else {
      var a, rest := steps[0], steps[1..];
      assert a in steps;
      var floor', first := EveryStep(s, a, entries, floor);
      var later := RunPops(Next(s, a), rest, entries + EntryOf(s, a), floor');
      numbers := first + later;
      Regrouped(entries, EntryOf(s, a), Entries(Next(s, a), rest));
      NumbersJoined(first, later, Calls(s, a), AllCalls(Next(s, a), rest), entries + EntryOf(s, a), entries + EntryOf(s, a) + Entries(Next(s, a), rest), floor');
    }
  }

  lemma NoneNumbered(entries: seq<Entry>)
    ensures Numbered([], [], entries)
  {
  }

  /**
   First in, first out.  With a pop functor, and with every value within the memory limit, the calls
   of the functor in an orderly run are made for values that were entered, each for another entry,
   and in the order of the entries.
   */
  lemma {:induction false} PopsInOrder(maxMemory: nat, maxDisk: nat, steps: seq<Step>)
    requires maxMemory <= maxDisk && IsRun(Initial(maxMemory, maxDisk, true), steps) && IsOrderly(Initial(maxMemory, maxDisk, true), steps)
    requires forall a | a in steps && a.BeginStore? :: |a.value| <= maxMemory
    ensures var s := Initial(maxMemory, maxDisk, true);
            exists numbers: seq<nat> ::
              && |numbers| == |AllCalls(s, steps)|
              && (forall i | 0 <= i < |numbers| :: numbers[i] < |Entries(s, steps)| && Entries(s, steps)[numbers[i]] == AllCalls(s, steps)[i])
              && forall i, j | 0 <= i < j < |numbers| :: numbers[i] < numbers[j]
  {
    var s := Initial(maxMemory, maxDisk, true);
    InitialInv(maxMemory, maxDisk, true);
    InitialLined(s);
    hide Initial, Lined;
    var numbers := RunPops(s, steps, [], 0);
    assert [] + Entries(s, steps) == Entries(s, steps);
    assert Numbered(numbers, AllCalls(s, steps), Entries(s, steps));
  }

  lemma InitialLined(s: State)
    requires Inv(s) && s == Initial(s.memory.max, s.disk.max, true)
    ensures Lined(s, [], 0)
  {
    NoView(s.memory.index);
  }
}
