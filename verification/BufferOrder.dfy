/** First in, first out: the order in which values are entered is that in which they are copied and popped. */
module BufferOrder {
  import opened Indexes
  import opened BufferSections
  import opened BufferEffects
  import opened BufferRuns
  import opened BufferInvariant
  import opened BufferProperties
  import opened BufferPops

  type Entry = (Key, Value)

  /** The value which a step enters, if it enters one. */
  ghost function EntryOf(s: State, a: Step): seq<Entry> {
    if a.EnterStore? && Enters(s, a.key) then [(a.key, s.pending[a.key])] else []
  }

  /** The values entered in a run, one after another. */
  ghost function Entries(s: State, steps: seq<Step>): seq<Entry>
    requires IsRun(s, steps)
    decreases |steps|
  {
    if steps == [] then [] else EntryOf(s, steps[0]) + Entries(Next(s, steps[0]), steps[1..])
  }

  /** The number of the last entry for k, or -1. */
  function Last(entries: seq<Entry>, k: Key): (n: int)
    ensures -1 <= n < |entries|
    ensures n >= 0 ==> entries[n].0 == k
    ensures forall i | n < i < |entries| :: entries[i].0 != k
  {
    if entries == [] then -1
    else if entries[|entries| - 1].0 == k then |entries| - 1
    else Last(entries[..|entries| - 1], k)
  }

  lemma {:induction false} LastAfter(entries: seq<Entry>, e: Entry, k: Key)
    ensures Last(entries + [e], k) == if e.0 == k then |entries| else Last(entries, k)
  {
    assert (entries + [e])[..|entries|] == entries;
  }

  /** The keys of an index are in the order of their last entries. */
  ghost predicate InEntryOrder<T>(index: Index<T>, entries: seq<Entry>) {
    && (forall i | 0 <= i < |index| :: Last(entries, index[i].key) >= 0)
    && forall i, j | 0 <= i < j < |index| :: Last(entries, index[i].key) < Last(entries, index[j].key)
  }

  lemma RemovedInOrder<T>(index: Index<T>, i: nat, entries: seq<Entry>)
    requires InEntryOrder(index, entries) && i < |index|
    ensures InEntryOrder(RemoveAt(index, i), entries)
  {
    ElementsKept(index, i);
    hide RemoveAt;
  }

  lemma {:induction false} KeptOnly<T>(index: Index<T>, keys: set<Key>)
    ensures forall e | e in Without(index, keys) :: e in index
    decreases |index|
  {
    if index != [] {
      KeptOnly(index[..|index| - 1], keys);
      assert index == index[..|index| - 1] + [index[|index| - 1]];
    }
  }

  lemma {:induction false} LaterInOrder<T>(rest: Index<T>, last: Element<T>, entries: seq<Entry>)
    requires InEntryOrder(rest, entries) && Last(entries, last.key) >= 0
    requires forall x | x in rest :: Last(entries, x.key) < Last(entries, last.key)
    ensures InEntryOrder(rest + [last], entries)
  {
    forall i | 0 <= i < |rest| ensures Last(entries, rest[i].key) < Last(entries, last.key) {
      assert rest[i] in rest;
    }
  }

  lemma {:induction false} FrontInOrder<T>(index: Index<T>, entries: seq<Entry>)
    requires InEntryOrder(index, entries) && index != []
    ensures var front, last := index[..|index| - 1], index[|index| - 1];
            && InEntryOrder(front, entries) && Last(entries, last.key) >= 0
            && forall x | x in front :: Last(entries, x.key) < Last(entries, last.key)
  {
  }

  lemma {:induction false} FilteredInOrder<T>(index: Index<T>, keys: set<Key>, entries: seq<Entry>)
    requires InEntryOrder(index, entries)
    ensures InEntryOrder(Without(index, keys), entries)
    decreases |index|
  {
    hide InEntryOrder, Last;
    if index != [] {
      var front, last := index[..|index| - 1], index[|index| - 1];
      FrontInOrder(index, entries);
      FilteredInOrder(front, keys, entries);
      KeptOnly(front, keys);
      LaterInOrder(Without(front, keys), last, entries);
    } else {
      assert Without(index, keys) == index;
    }
  }

  lemma SameKeysInOrder<T>(index: Index<T>, index': Index<T>, entries: seq<Entry>)
    requires InEntryOrder(index, entries) && |index'| == |index| && forall i | 0 <= i < |index| :: index'[i].key == index[i].key
    ensures InEntryOrder(index', entries)
  {
  }

  lemma EnteredInOrder<T>(index: Index<T>, entries: seq<Entry>, e: Entry)
    requires InEntryOrder(index, entries) && e.0 !in Keys(index)
    ensures InEntryOrder(index, entries + [e])
    ensures forall item: T :: InEntryOrder(index + [Element(e.0, item)], entries + [e])
  {
    forall i | 0 <= i < |index| ensures Last(entries + [e], index[i].key) == Last(entries, index[i].key) {
      LastAfter(entries, e, index[i].key);
    }
    LastAfter(entries, e, e.0);
  }

  // ---------------------------------------------------------------- the memory

  ghost predicate ValuesEntered(index: Index<Copy>, entries: seq<Entry>) {
    forall i | 0 <= i < |index| :: Last(entries, index[i].key) >= 0 && entries[Last(entries, index[i].key)].1 == index[i].item.value
  }

  /** The memory lists its keys in the order in which their values were entered. */
  ghost predicate MemoryInOrder(m: Memory, entries: seq<Entry>) {
    InEntryOrder(m.index, entries) && ValuesEntered(m.index, entries)
  }

  lemma EvictedInOrder(m: Memory, i: nat, entries: seq<Entry>)
    requires MemoryInOrder(m, entries) && i < |m.index|
    ensures MemoryInOrder(Evict(m, i), entries) && Keys(Evict(m, i).index) <= Keys(m.index)
  {
    RemovedInOrder(m.index, i, entries);
    ElementsKept(m.index, i);
  }

  lemma {:induction false} RoomInOrder(m: Memory, required: nat, entries: seq<Entry>)
    requires MemoryInOrder(m, entries) && required <= m.max
    ensures MemoryInOrder(MakeRoom(m, required), entries) && Keys(MakeRoom(m, required).index) <= Keys(m.index)
    decreases |m.index|
  {
    hide MemoryInOrder, Keys;
    var i := FirstIn(m.index, Completed);
    if !HasSpace(m.max, m.usage, required) && i < |m.index| {
      EvictedInOrder(m, i, entries);
      RoomInOrder(Evict(m, i), required, entries);
    }
  }

  lemma StoredInOrder(m: Memory, k: Key, v: Value, woken: bool, entries: seq<Entry>)
    requires MemoryInOrder(m, entries) && |v| <= m.max && k !in Keys(m.index)
    ensures MemoryInOrder(StoreInMemory(m, k, v, woken), if EntersMemory(m, v, woken) then entries + [(k, v)] else entries)
    ensures Keys(StoreInMemory(m, k, v, woken).index) <= Keys(m.index) + {k}
    ensures !EntersMemory(m, v, woken) ==> k !in Keys(StoreInMemory(m, k, v, woken).index)
  {
    if woken && FirstIn(m.index, Completed) < |m.index| {
      EvictedInOrder(m, FirstIn(m.index, Completed), entries);
    }
    var n := Notified(m, woken);
    RoomInOrder(n, |v|, entries);
    var r := MakeRoom(n, |v|);
    assert k !in Keys(r.index) && Keys(r.index) <= Keys(m.index);
    EnteredInOrder(r.index, entries, (k, v));
    NewLast(r.index, k, v, entries);
    KeysOfJoined(r.index, [Element(k, Copy(v, NotStarted))]);
    hide MakeRoom, Notified, Keys, InEntryOrder, ValuesEntered;
  }

  lemma NewLast(index: Index<Copy>, k: Key, v: Value, entries: seq<Entry>)
    requires ValuesEntered(index, entries) && k !in Keys(index)
    ensures ValuesEntered(index, entries + [(k, v)])
    ensures ValuesEntered(index + [Element(k, Copy(v, NotStarted))], entries + [(k, v)])
  {
    forall i | 0 <= i < |index| ensures Last(entries + [(k, v)], index[i].key) == Last(entries, index[i].key) {
      LastAfter(entries, (k, v), index[i].key);
    }
    LastAfter(entries, (k, v), k);
  }

  lemma MarkedInOrder(m: Memory, i: nat, state: StoringState, entries: seq<Entry>)
    requires MemoryInOrder(m, entries) && i < |m.index|
    ensures MemoryInOrder(Mark(m, i, state), entries) && Keys(Mark(m, i, state).index) == Keys(m.index)
  {
    SameKeysInOrder(m.index, Mark(m, i, state).index, entries);
    KeysReplaced(m.index, i, m.index[i].item.(alsoOnDisk := state));
  }

  /** The memory is in order, and a Store that has yet to enter its value finds nothing of its key there. */
  ghost predicate Ordered(s: State, entries: seq<Entry>) {
    MemoryInOrder(s.memory, entries) && forall k | k in s.pending :: k !in Keys(s.memory.index)
  }

  lemma OversizedInOrder(m: Memory, k: Key, v: Value, entries: seq<Entry>)
    requires MemoryInOrder(m, entries) && k !in Keys(m.index)
    ensures MemoryInOrder(m, entries + [(k, v)])
  {
    EnteredInOrder(m.index, entries, (k, v));
    NewLast(m.index, k, v, entries);
  }

  lemma EnterStoreInOrder(s: State, k: Key, entries: seq<Entry>)
    requires Ordered(s, entries) && Enabled(s, EnterStore(k))
    ensures Ordered(EnterStoreState(s, k), entries + EntryOf(s, EnterStore(k)))
  {
    var v := s.pending[k];
    assert entries + [] == entries;
    if |v| <= s.memory.max {
      StoredInOrder(s.memory, k, v, k in s.waiting, entries);
    } else if |v| <= s.disk.max {
      OversizedInOrder(s.memory, k, v, entries);
    }
    hide MemoryInOrder, Keys, StoreInMemory, EntersMemory, StoreOnDisk, OthersPopped, PoppedOf, PendingDelete;
  }

  lemma MemoryStepInOrder(s: State, a: Step, entries: seq<Entry>)
    requires Ordered(s, entries) && Enabled(s, a) && (a.Take? || a.FinishCopy? || a.BeginDelete? || a.BeginDeleteAll?)
    ensures Ordered(Next(s, a), entries)
  {
    hide Ordered, InEntryOrder, ValuesEntered, Without, Last, MemorySize, MarkCompleted, DeleteFromMemory, AlsoOnDisk, FirstIn;
    OrderedIs(s, entries);
    var m := s.memory;
    match a
    case Take => MarkedInOrder(m, FirstIn(m.index, NotStarted), Started, entries); SameOrder(s, Next(s, a), entries);
    case FinishCopy => CompletedInOrder(m, s.worker.key, entries); SameOrder(s, Next(s, a), entries);
    case BeginDelete(_, k) => OneDeletedInOrder(m, k, entries); SameOrder(s, Next(s, a), entries);
    case BeginDeleteAll(_, keys) => DeletedInOrder(m, keys, entries); SameOrder(s, Next(s, a), entries);
  }

  lemma OrderedIs(s: State, entries: seq<Entry>)
    requires Ordered(s, entries)
    ensures MemoryInOrder(s.memory, entries)
  {
  }

  lemma SameOrder(s: State, t: State, entries: seq<Entry>)
    requires Ordered(s, entries) && t.pending == s.pending
    requires MemoryInOrder(t.memory, entries) && Keys(t.memory.index) <= Keys(s.memory.index)
    ensures Ordered(t, entries)
  {
    hide MemoryInOrder, Keys;
  }

  lemma CompletedInOrder(m: Memory, k: Key, entries: seq<Entry>)
    requires MemoryInOrder(m, entries)
    ensures MemoryInOrder(MarkCompleted(m, k), entries) && Keys(MarkCompleted(m, k).index) == Keys(m.index)
  {
    hide MemoryInOrder, Keys, Mark;
    if Find(m.index, k) < |m.index| {
      MarkedInOrder(m, Find(m.index, k), Completed, entries);
    }
  }

  lemma OneDeletedInOrder(m: Memory, k: Key, entries: seq<Entry>)
    requires MemoryInOrder(m, entries)
    ensures MemoryInOrder(DeleteFromMemory(m, k), entries) && Keys(DeleteFromMemory(m, k).index) <= Keys(m.index)
  {
    hide MemoryInOrder, Keys, Evict;
    if Find(m.index, k) < |m.index| {
      EvictedInOrder(m, Find(m.index, k), entries);
    }
  }

  lemma DeletedInOrder(m: Memory, keys: set<Key>, entries: seq<Entry>)
    requires MemoryInOrder(m, entries)
    ensures MemoryInOrder(DeleteAllFromMemory(m, keys), entries) && Keys(DeleteAllFromMemory(m, keys).index) <= Keys(m.index)
  {
    FilteredInOrder(m.index, keys, entries);
    KeptOnly(m.index, keys);
    SomeKept(m.index, Without(m.index, keys), entries);
  }

  lemma SomeKept(index: Index<Copy>, kept: Index<Copy>, entries: seq<Entry>)
    requires ValuesEntered(index, entries) && forall x | x in kept :: x in index
    ensures ValuesEntered(kept, entries) && Keys(kept) <= Keys(index)
  {
    forall i | 0 <= i < |kept| ensures kept[i] in index {
    }
    hide Last;
  }

  lemma StepInOrder(s: State, a: Step, entries: seq<Entry>)
    requires Ordered(s, entries) && Enabled(s, a)
    ensures Ordered(Next(s, a), entries + EntryOf(s, a))
  {
    hide MemoryInOrder, StoreOnDisk, DeleteFromDisk, Removable, GetFromDisk;
    assert entries + [] == entries;
    if a.EnterStore? {
      EnterStoreInOrder(s, a.key, entries);
    } else if a.Take? || a.FinishCopy? || a.BeginDelete? || a.BeginDeleteAll? {
      MemoryStepInOrder(s, a, entries);
    }
  }

  lemma {:induction false} RunInOrder(s: State, done: seq<Entry>, steps: seq<Step>)
    requires Ordered(s, done) && IsRun(s, steps)
    ensures Ordered(After(s, steps), done + Entries(s, steps))
    decreases |steps|
  {
    hide Ordered, Enabled, Next, EntryOf;
    if steps == [] {
      assert done + [] == done;
    } else {
      StepInOrder(s, steps[0], done);
      RunInOrder(Next(s, steps[0]), done + EntryOf(s, steps[0]), steps[1..]);
      Regrouped(done, EntryOf(s, steps[0]), Entries(Next(s, steps[0]), steps[1..]));
    }
  }

  lemma Regrouped(a: seq<Entry>, b: seq<Entry>, c: seq<Entry>)
    ensures a + b + c == a + (b + c)
  {
  }

  lemma {:induction false} OrderFromInitial(maxMemory: nat, maxDisk: nat, hasPop: bool, steps: seq<Step>)
    requires IsRun(Initial(maxMemory, maxDisk, hasPop), steps)
    ensures var s0 := Initial(maxMemory, maxDisk, hasPop);
            Ordered(After(s0, steps), Entries(s0, steps))
  {
    var s0 := Initial(maxMemory, maxDisk, hasPop);
    assert Ordered(s0, []);
    RunInOrder(s0, [], steps);
    assert [] + Entries(s0, steps) == Entries(s0, steps);
  }

  /** In every run the memory lists its keys in the order in which their values were entered, and holds those values. */
  lemma {:induction false} MemoryKeepsOrder(maxMemory: nat, maxDisk: nat, hasPop: bool, steps: seq<Step>)
    requires IsRun(Initial(maxMemory, maxDisk, hasPop), steps)
    ensures var s, e := After(Initial(maxMemory, maxDisk, hasPop), steps), Entries(Initial(maxMemory, maxDisk, hasPop), steps);
            && (forall i | 0 <= i < |s.memory.index| ::
                  Last(e, s.memory.index[i].key) >= 0 && e[Last(e, s.memory.index[i].key)].1 == s.memory.index[i].item.value)
            && forall i, j | 0 <= i < j < |s.memory.index| :: Last(e, s.memory.index[i].key) < Last(e, s.memory.index[j].key)
  {
    OrderFromInitial(maxMemory, maxDisk, hasPop, steps);
  }

  /** In every run the worker takes the earliest of the values it has not begun to copy. */
  lemma {:induction false} TakesEarliest(maxMemory: nat, maxDisk: nat, hasPop: bool, steps: seq<Step>)
    requires IsRun(Initial(maxMemory, maxDisk, hasPop), steps) && Enabled(After(Initial(maxMemory, maxDisk, hasPop), steps), Take)
    ensures var s, e := After(Initial(maxMemory, maxDisk, hasPop), steps), Entries(Initial(maxMemory, maxDisk, hasPop), steps);
            var w := Next(s, Take).worker;
            && w.Entering? && Last(e, w.key) >= 0 && e[Last(e, w.key)].1 == w.value
            && Element(w.key, Copy(w.value, NotStarted)) in s.memory.index
            && forall x | x in s.memory.index && x.item.alsoOnDisk == NotStarted :: Last(e, w.key) <= Last(e, x.key)
  {
    var s0 := Initial(maxMemory, maxDisk, hasPop);
    var s, e := After(s0, steps), Entries(s0, steps);
    assert FirstIn(s.memory.index, NotStarted) < |s.memory.index|;
    hide InEntryOrder, ValuesEntered, FirstIn, Last, Mark;
    OrderFromInitial(maxMemory, maxDisk, hasPop, steps);
    OrderedIs(s, e);
    FirstIsEarliest(s.memory, e);
  }

  lemma {:induction false} FirstIsEarliest(m: Memory, entries: seq<Entry>)
    requires MemoryInOrder(m, entries) && FirstIn(m.index, NotStarted) < |m.index|
    ensures var k, v := m.index[FirstIn(m.index, NotStarted)].key, m.index[FirstIn(m.index, NotStarted)].item.value;
            && Last(entries, k) >= 0 && entries[Last(entries, k)].1 == v && Element(k, Copy(v, NotStarted)) in m.index
            && forall x | x in m.index && x.item.alsoOnDisk == NotStarted :: Last(entries, k) <= Last(entries, x.key)
  {
    var i := FirstIn(m.index, NotStarted);
    assert m.index[i] == Element(m.index[i].key, Copy(m.index[i].item.value, NotStarted));
    forall x | x in m.index && x.item.alsoOnDisk == NotStarted ensures Last(entries, m.index[i].key) <= Last(entries, x.key) {
      var j :| 0 <= j < |m.index| && m.index[j] == x;
    }
  }
}
