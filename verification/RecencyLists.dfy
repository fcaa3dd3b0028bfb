/** A cache as the plain list of its records, from the least to the most recently used. */
module RecencyLists {
  datatype Record<K, V> = Record(key: K, time: int, value: V)

  ghost predicate HasKey<K, V>(s: seq<Record<K, V>>, k: K) {
    exists r | r in s :: r.key == k
  }

  ghost predicate Distinct<K, V>(s: seq<Record<K, V>>) {
    forall i, j | 0 <= i < j < |s| :: s[i].key != s[j].key
  }

  ghost predicate Sorted<K, V>(s: seq<Record<K, V>>) {
    forall i, j | 0 <= i < j < |s| :: s[i].time <= s[j].time
  }

  /** A time to live of zero means that nothing expires. */
  predicate Expired(time: int, timeToLive: int, now: int) {
    timeToLive != 0 && time + timeToLive < now
  }

  ghost function IndexOf<K, V>(s: seq<Record<K, V>>, k: K): (i: nat)
    requires HasKey(s, k)
    ensures i < |s| && s[i].key == k
  {
    var i :| 0 <= i < |s| && s[i].key == k;
    i
  }

  ghost function Without<K, V>(s: seq<Record<K, V>>, k: K): seq<Record<K, V>> {
    if HasKey(s, k) then var i := IndexOf(s, k); s[..i] + s[i + 1..] else s
  }

  /** Drops `purged` records from the front, after one more if the cache is full, and adds a record. */
  ghost function Added<K, V>(s: seq<Record<K, V>>, capacity: nat, r: Record<K, V>, purged: nat): seq<Record<K, V>>
    requires capacity >= 1 && |s| <= capacity
    requires !HasKey(s, r.key) ==> purged <= |MadeRoom(s, capacity)|
  {
    if HasKey(s, r.key) then s else MadeRoom(s, capacity)[purged..] + [r]
  }

  ghost function MadeRoom<K, V>(s: seq<Record<K, V>>, capacity: nat): seq<Record<K, V>>
    requires capacity >= 1
  {
    if |s| == capacity then s[1..] else s
  }

  ghost function Touched<K, V>(s: seq<Record<K, V>>, k: K): seq<Record<K, V>> {
    if HasKey(s, k) then Without(s, k) + [s[IndexOf(s, k)]] else s
  }

  /** The purge stops at the first record which has not expired: at `checked`, none before it is fresh. */
  ghost predicate PurgedAt<K, V>(s: seq<Record<K, V>>, timeToLive: int, purged: nat, checked: int) {
    && purged <= |s|
    && (forall i | 0 <= i < purged :: Expired(s[i].time, timeToLive, checked))
    && (purged < |s| ==> !Expired(s[purged].time, timeToLive, checked))
  }

  /** When times are sorted, looking at the front is enough. */
  lemma NoneLeftExpired<K, V>(s: seq<Record<K, V>>, timeToLive: int, purged: nat, checked: int, i: nat)
    requires Sorted(s) && PurgedAt(s, timeToLive, purged, checked) && i < |s|
    ensures Expired(s[i].time, timeToLive, checked) <==> i < purged
  {
    if purged < i {
      assert s[purged].time <= s[i].time;
    }
  }

  // ---------------------------------------------------------------- what an Add removes

  /**
   A record is removed by an Add only if it is the least recently used of a full cache, or if its
   time and the time to live are past; nothing expires with a time to live of zero.
   */
  lemma AddRemoves<K, V>(s: seq<Record<K, V>>, capacity: nat, r: Record<K, V>, timeToLive: int, purged: nat, now: int)
    requires capacity >= 1 && |s| <= capacity && !HasKey(s, r.key)
    requires PurgedAt(MadeRoom(s, capacity), timeToLive, purged, now)
    ensures var t := Added(s, capacity, r, purged);
            && t[|t| - 1] == r
            && (|s| < capacity && timeToLive == 0 ==> t == s + [r])
            && (|s| == capacity && timeToLive == 0 ==> t == s[1..] + [r])
            && forall i | (if |s| == capacity then 1 else 0) <= i < |s| :: s[i].time + timeToLive >= now || timeToLive == 0 ==> s[i] in t
  {
    var m, t := MadeRoom(s, capacity), Added(s, capacity, r, purged);
    var shift := if |s| == capacity then 1 else 0;
    if timeToLive == 0 {
      assert purged > 0 ==> Expired(m[0].time, timeToLive, now);
      assert m[0..] == m;
    }
    forall i | shift <= i < |s| && (s[i].time + timeToLive >= now || timeToLive == 0) ensures s[i] in t {
      assert m[i - shift] == s[i] && i - shift >= purged;
      assert t[i - shift - purged] == s[i];
    }
  }

  /** When times are sorted, an Add leaves no record whose time and time to live are past. */
  lemma AddLeavesFresh<K, V>(s: seq<Record<K, V>>, capacity: nat, r: Record<K, V>, timeToLive: int, purged: nat, now: int)
    requires capacity >= 1 && |s| <= capacity && !HasKey(s, r.key) && Sorted(s) && timeToLive != 0
    requires PurgedAt(MadeRoom(s, capacity), timeToLive, purged, now)
    ensures var t := Added(s, capacity, r, purged);
            forall i | 0 <= i < |t| - 1 :: t[i].time + timeToLive >= now
  {
    var m, t := MadeRoom(s, capacity), Added(s, capacity, r, purged);
    forall i | 0 <= i < |t| - 1 ensures t[i].time + timeToLive >= now {
      assert t[i] == m[purged + i];
      NoneLeftExpired(m, timeToLive, purged, now, purged + i);
    }
  }

  // ---------------------------------------------------------------- runs

  datatype Op<K, V> = Add(record: Record<K, V>, purged: nat) | Get(key: K) | Delete(key: K)

  ghost predicate CanApply<K, V>(s: seq<Record<K, V>>, capacity: nat, op: Op<K, V>) {
    && capacity >= 1 && |s| <= capacity
    && (op.Add? && !HasKey(s, op.record.key) ==> op.purged <= |MadeRoom(s, capacity)|)
  }

  ghost function Apply<K, V>(s: seq<Record<K, V>>, capacity: nat, op: Op<K, V>): seq<Record<K, V>>
    requires CanApply(s, capacity, op)
  {
    match op
    case Add(r, purged) => Added(s, capacity, r, purged)
    case Get(k) => Touched(s, k)
    case Delete(k) => Without(s, k)
  }

  ghost predicate IsRun<K, V>(capacity: nat, ops: seq<Op<K, V>>)
    decreases |ops|, 0
  {
    ops == [] ||
    (IsRun(capacity, ops[..|ops| - 1]) && CanApply(After(capacity, ops[..|ops| - 1]), capacity, ops[|ops| - 1]))
  }

  /** The list after a run from the empty cache. */
  ghost function After<K, V>(capacity: nat, ops: seq<Op<K, V>>): seq<Record<K, V>>
    requires IsRun(capacity, ops)
    decreases |ops|, 1
  {
    if ops == [] then [] else Apply(After(capacity, ops[..|ops| - 1]), capacity, ops[|ops| - 1])
  }

  /** The operation uses k: it adds it, or it finds it. */
  ghost predicate Uses<K, V>(s: seq<Record<K, V>>, op: Op<K, V>, k: K) {
    match op
    case Add(r, _) => r.key == k && !HasKey(s, k)
    case Get(key) => key == k && HasKey(s, k)
    case Delete(_) => false
  }

  /** When k was last used in a run: the number of the operation, or 0. */
  ghost function LastUse<K, V>(capacity: nat, ops: seq<Op<K, V>>, k: K): (n: nat)
    requires IsRun(capacity, ops)
    ensures n <= |ops|
    decreases |ops|
  {
    if ops == [] then 0
    else
      var before := ops[..|ops| - 1];
      if Uses(After(capacity, before), ops[|ops| - 1], k) then |ops| else LastUse(capacity, before, k)
  }

  lemma OneGone<T>(s: seq<T>, i: nat)
    requires i < |s|
    ensures var t := s[..i] + s[i + 1..];
            && |t| == |s| - 1 && (forall j | 0 <= j < |t| :: t[j] == s[if j < i then j else j + 1])
            && forall j | 0 <= j < |s| && j != i :: s[j] == t[if j < i then j else j - 1]
  {
  }

  lemma OthersStay<K, V>(s: seq<Record<K, V>>, t: seq<Record<K, V>>, i: nat)
    requires Distinct(s) && i < |s| == |t| + 1
    requires forall j | 0 <= j < |t| :: t[j] == s[if j < i then j else j + 1]
    requires forall j | 0 <= j < |s| && j != i :: s[j] == t[if j < i then j else j - 1]
    ensures Distinct(t) && !HasKey(t, s[i].key) && forall r :: r in t <==> r in s && r.key != s[i].key
  {
  }

  lemma WithoutAt<K, V>(s: seq<Record<K, V>>, k: K)
    requires Distinct(s)
    ensures Distinct(Without(s, k)) && !HasKey(Without(s, k), k) && |Without(s, k)| <= |s|
    ensures forall r :: r in Without(s, k) <==> r in s && r.key != k
    ensures var i := if HasKey(s, k) then IndexOf(s, k) else |s|;
            forall j | 0 <= j < |Without(s, k)| :: Without(s, k)[j] == s[if j < i then j else j + 1]
  {
    if HasKey(s, k) {
      hide Distinct;
      var i := IndexOf(s, k);
      var t := s[..i] + s[i + 1..];
      OneGone(s, i);
      OthersStay(s, t, i);
      assert Without(s, k) == t;
    }
  }

  lemma DistinctMore<K, V>(s: seq<Record<K, V>>, r: Record<K, V>)
    requires Distinct(s) && !HasKey(s, r.key)
    ensures Distinct(s + [r])
  {
    forall i | 0 <= i < |s| ensures s[i].key != r.key {
      assert s[i] in s;
    }
  }

  lemma TouchedKeeps<K, V>(s: seq<Record<K, V>>, k: K)
    requires Distinct(s)
    ensures Distinct(Touched(s, k)) && |Touched(s, k)| <= |s|
  {
    WithoutAt(s, k);
    if HasKey(s, k) {
      DistinctMore(Without(s, k), s[IndexOf(s, k)]);
      hide Distinct, HasKey;
    }
  }

  lemma StepKeeps<K, V>(s: seq<Record<K, V>>, capacity: nat, op: Op<K, V>)
    requires CanApply(s, capacity, op) && Distinct(s)
    ensures Distinct(Apply(s, capacity, op)) && |Apply(s, capacity, op)| <= capacity
  {
    match op {
      case Add(r, purged) =>
      case Get(k) => TouchedKeeps(s, k);
      case Delete(k) => WithoutAt(s, k);
    }
  }

  ghost predicate OrderedBy<K(!new), V>(s: seq<Record<K, V>>, use: K -> nat) {
    && (forall i | 0 <= i < |s| :: 1 <= use(s[i].key))
    && (forall i, j | 0 <= i < j < |s| :: use(s[i].key) < use(s[j].key))
  }

  lemma StepOrdered<K(!new), V>(s: seq<Record<K, V>>, capacity: nat, op: Op<K, V>, use: K -> nat, use': K -> nat,
                      n: nat)
    requires CanApply(s, capacity, op) && Distinct(s) && OrderedBy(s, use)
    requires forall k :: use(k) < n && use'(k) == if Uses(s, op, k) then n else use(k)
    ensures OrderedBy(Apply(s, capacity, op), use')
  {
    match op {
      case Add(r, purged) => AddOrdered(s, capacity, r, purged, use, use', n);
      case Get(k) => GetOrdered(s, k, use, use', n);
      case Delete(k) => WithoutAt(s, k);
    }
  }

  lemma Kept<K, V>(s: seq<Record<K, V>>, capacity: nat, purged: nat) returns (shift: nat)
    requires capacity >= 1 && purged <= |MadeRoom(s, capacity)|
    ensures shift <= |s| && MadeRoom(s, capacity)[purged..] == s[shift..]
  {
    shift := if |s| == capacity then purged + 1 else purged;
  }

  lemma OrderExtended<K(!new), V>(s: seq<Record<K, V>>, shift: nat, r: Record<K, V>, use: K -> nat, use': K -> nat,
                        n: nat)
    requires shift <= |s| && OrderedBy(s, use) && !HasKey(s, r.key)
    requires forall k :: use(k) < n && use'(k) == if k == r.key then n else use(k)
    ensures OrderedBy(s[shift..] + [r], use')
  {
    var t := s[shift..] + [r];
    forall i | 0 <= i < |s| ensures s[i].key != r.key {
      assert s[i] in s;
    }
    hide HasKey;
    forall i, j | 0 <= i < j < |t| ensures use'(t[i].key) < use'(t[j].key) {
      assert t[i] == s[i + shift];
    }
  }

  lemma AddOrdered<K(!new), V>(s: seq<Record<K, V>>, capacity: nat, r: Record<K, V>, purged: nat, use: K -> nat,
                     use': K -> nat, n: nat)
    requires CanApply(s, capacity, Add(r, purged)) && OrderedBy(s, use)
    requires forall k :: use(k) < n && use'(k) == if k == r.key && !HasKey(s, k) then n else use(k)
    ensures OrderedBy(Added(s, capacity, r, purged), use')
  {
    if !HasKey(s, r.key) {
      var shift := Kept(s, capacity, purged);
      hide OrderedBy, MadeRoom, HasKey;
      OrderExtended(s, shift, r, use, use', n);
    } else {
      hide HasKey;
      assert forall k :: use'(k) == use(k);
    }
  }

  lemma WithoutOrdered<K(!new), V>(s: seq<Record<K, V>>, k: K, use: K -> nat)
    requires Distinct(s) && OrderedBy(s, use)
    ensures OrderedBy(Without(s, k), use)
  {
    WithoutAt(s, k);
    hide Without, Distinct;
  }

  lemma OrderedMore<K(!new), V>(s: seq<Record<K, V>>, r: Record<K, V>, use: K -> nat, use': K -> nat, n: nat)
    requires OrderedBy(s, use) && !HasKey(s, r.key)
    requires forall x :: use(x) < n && use'(x) == if x == r.key then n else use(x)
    ensures OrderedBy(s + [r], use')
  {
    forall i | 0 <= i < |s| ensures s[i].key != r.key {
      assert s[i] in s;
    }
  }

  lemma GetOrdered<K(!new), V>(s: seq<Record<K, V>>, k: K, use: K -> nat, use': K -> nat, n: nat)
    requires Distinct(s) && OrderedBy(s, use)
    requires forall x :: use(x) < n && use'(x) == if x == k && HasKey(s, x) then n else use(x)
    ensures OrderedBy(Touched(s, k), use')
  {
    WithoutAt(s, k);
    WithoutOrdered(s, k, use);
    if HasKey(s, k) {
      hide OrderedBy, Without, Distinct, HasKey;
      OrderedMore(Without(s, k), s[IndexOf(s, k)], use, use', n);
    }
  }

  /** In every run the list is in strict order of last use, so what is evicted is least recently used. */
  lemma {:induction false} InOrderOfUse<K(!new), V>(capacity: nat, ops: seq<Op<K, V>>)
    requires IsRun(capacity, ops)
    ensures Distinct(After(capacity, ops)) && (ops != [] ==> |After(capacity, ops)| <= capacity)
    ensures OrderedBy(After(capacity, ops), (k: K) => LastUse(capacity, ops, k))
    decreases |ops|
  {
    if ops != [] {
      var before, op := ops[..|ops| - 1], ops[|ops| - 1];
      InOrderOfUse(capacity, before);
      hide OrderedBy, Apply;
      StepKeeps(After(capacity, before), capacity, op);
      StepOrdered(After(capacity, before), capacity, op,
                  (k: K) => LastUse(capacity, before, k), (k: K) => LastUse(capacity, ops, k), |ops|);
    }
  }

  // ---------------------------------------------------------------- the filter

  /** A run of the filter: keys are only added, by a clock that never goes back. */
  ghost predicate IsFilterRun<K, V>(ops: seq<Op<K, V>>) {
    && (forall i | 0 <= i < |ops| :: ops[i].Add?)
    && (forall i, j | 0 <= i < j < |ops| :: ops[i].record.time <= ops[j].record.time)
  }

  lemma SortedExtended<K, V>(s: seq<Record<K, V>>, shift: nat, r: Record<K, V>)
    requires Sorted(s) && shift <= |s| && forall i | 0 <= i < |s| :: s[i].time <= r.time
    ensures Sorted(s[shift..] + [r]) && forall i | 0 <= i < |s[shift..] + [r]| :: (s[shift..] + [r])[i].time <= r.time
  {
    var t := s[shift..] + [r];
    forall i, j | 0 <= i < j < |t| ensures t[i].time <= t[j].time {
      assert t[i] == s[i + shift];
    }
  }

  lemma SortedAdded<K, V>(s: seq<Record<K, V>>, capacity: nat, r: Record<K, V>, purged: nat)
    requires CanApply(s, capacity, Add(r, purged)) && Sorted(s) && forall i | 0 <= i < |s| :: s[i].time <= r.time
    ensures var t := Added(s, capacity, r, purged); Sorted(t) && forall i | 0 <= i < |t| :: t[i].time <= r.time
  {
    hide HasKey, Sorted;
    if !HasKey(s, r.key) {
      var shift := Kept(s, capacity, purged);
      hide MadeRoom;
      SortedExtended(s, shift, r);
    }
  }

  lemma {:induction false} FilterSorted<K, V>(capacity: nat, ops: seq<Op<K, V>>)
    requires IsRun(capacity, ops) && IsFilterRun(ops)
    ensures Sorted(After(capacity, ops))
    ensures forall i | 0 <= i < |After(capacity, ops)| :: ops != [] && After(capacity, ops)[i].time <= ops[|ops| - 1].record.time
    decreases |ops|
  {
    if ops != [] {
      var before, op := ops[..|ops| - 1], ops[|ops| - 1];
      FilterSorted(capacity, before);
      SortedAdded(After(capacity, before), capacity, op.record, op.purged);
      hide Added;
    }
  }

  /** In the filter a purge that stops at the first fresh record leaves no expired one. */
  lemma {:induction false} FilterPurgesAll<K, V>(capacity: nat, ops: seq<Op<K, V>>, timeToLive: int, purged: nat,
      checked: int)
    requires IsRun(capacity, ops) && IsFilterRun(ops) && capacity >= 1
    requires PurgedAt(MadeRoom(After(capacity, ops), capacity), timeToLive, purged, checked)
    ensures forall r | r in MadeRoom(After(capacity, ops), capacity)[purged..] :: !Expired(r.time, timeToLive, checked)
  {
    FilterSorted(capacity, ops);
    var s := MadeRoom(After(capacity, ops), capacity);
    forall r | r in s[purged..] ensures !Expired(r.time, timeToLive, checked) {
      var i :| 0 <= i < |s[purged..]| && s[purged..][i] == r;
      NoneLeftExpired(s, timeToLive, purged, checked, purged + i);
    }
  }

  // ---------------------------------------------------------------- the cache

  ghost predicate NoneExpired<K, V>(s: seq<Record<K, V>>, timeToLive: int, now: int) {
    forall i | 0 <= i < |s| :: !Expired(s[i].time, timeToLive, now)
  }

  /** How far a purge goes. */
  ghost function FirstFresh<K, V>(s: seq<Record<K, V>>, timeToLive: int, now: int): (n: nat)
    ensures PurgedAt(s, timeToLive, n, now)
  {
    if s == [] || !Expired(s[0].time, timeToLive, now) then 0 else 1 + FirstFresh(s[1..], timeToLive, now)
  }

  /** Whenever it is done, a purge leaves no expired record, if and only if the times are sorted. */
  lemma PurgesAllIff<K, V>(s: seq<Record<K, V>>, timeToLive: int)
    requires timeToLive != 0
    ensures Sorted(s) <==>
            forall purged: nat, now | PurgedAt(s, timeToLive, purged, now) :: NoneExpired(s[purged..], timeToLive, now)
  {
    if Sorted(s) {
      forall purged: nat, now | PurgedAt(s, timeToLive, purged, now) ensures NoneExpired(s[purged..], timeToLive, now) {
        forall i | 0 <= i < |s[purged..]| ensures !Expired(s[purged..][i].time, timeToLive, now) {
          NoneLeftExpired(s, timeToLive, purged, now, purged + i);
        }
      }
    } else {
      var i, j :| 0 <= i < j < |s| && s[i].time > s[j].time;
      var now := s[i].time + timeToLive;
      var purged := FirstFresh(s, timeToLive, now);
      assert purged <= i;
      assert s[purged..][j - purged] == s[j];
      assert !NoneExpired(s[purged..], timeToLive, now);
    }
  }

  /** Getting a record keeps the times sorted if and only if it is as new as any: its time is not renewed. */
  lemma GetKeepsSortedIff<K, V>(s: seq<Record<K, V>>, k: K)
    requires Distinct(s) && Sorted(s) && HasKey(s, k)
    ensures Sorted(Touched(s, k)) <==> s[IndexOf(s, k)].time == s[|s| - 1].time
  {
    OneGone(s, IndexOf(s, k));
    hide Sorted, Distinct;
    MovedSortedIff(s, Touched(s, k), IndexOf(s, k));
  }

  lemma MovedSortedIff<K, V>(s: seq<Record<K, V>>, t: seq<Record<K, V>>, i: nat)
    requires Sorted(s) && i < |s| == |t| && t[|t| - 1] == s[i]
    requires forall j | 0 <= j < |s| - 1 :: t[j] == s[if j < i then j else j + 1]
    ensures Sorted(t) <==> s[i].time == s[|s| - 1].time
  {
    var last := |s| - 1;
    if s[i].time == s[last].time {
      forall p, q | 0 <= p < q <= last ensures t[p].time <= t[q].time {
        var p' := if p < i then p else p + 1;
        assert p' < last ==> s[p'].time <= s[last].time;
      }
    } else {
      assert t[last - 1] == s[last];
    }
  }

  /** Values are added by a clock that never goes back, and only records as new as any are got. */
  ghost predicate GetsNewest<K, V>(capacity: nat, ops: seq<Op<K, V>>)
    requires IsRun(capacity, ops)
    decreases |ops|
  {
    ops == [] ||
    var s, op := After(capacity, ops[..|ops| - 1]), ops[|ops| - 1];
    && GetsNewest(capacity, ops[..|ops| - 1])
    && match op
       case Add(r, _) => forall i | 0 <= i < |s| :: s[i].time <= r.time
       case Get(k) => HasKey(s, k) ==> s[IndexOf(s, k)].time == s[|s| - 1].time
       case Delete(_) => true
  }

  lemma DeleteKeepsSorted<K, V>(s: seq<Record<K, V>>, k: K)
    requires Distinct(s) && Sorted(s)
    ensures Sorted(Without(s, k))
  {
    WithoutAt(s, k);
    hide Without, Distinct;
  }

  /** In such a run of the cache the times stay sorted, so that every purge is complete. */
  lemma {:induction false} CacheSorted<K, V>(capacity: nat, ops: seq<Op<K, V>>)
    requires IsRun(capacity, ops) && GetsNewest(capacity, ops)
    ensures Distinct(After(capacity, ops)) && Sorted(After(capacity, ops))
    decreases |ops|
  {
    if ops != [] {
      var before, op := ops[..|ops| - 1], ops[|ops| - 1];
      CacheSorted(capacity, before);
      var s := After(capacity, before);
      StepKeeps(s, capacity, op);
      hide Distinct, Sorted, Without, Touched, Added, HasKey;
      match op
      case Add(r, purged) => SortedAdded(s, capacity, r, purged);
      case Get(k) => if HasKey(s, k) { GetKeepsSortedIff(s, k); } else { GetMissed(s, k); }
      case Delete(k) => DeleteKeepsSorted(s, k);
    }
  }

  /** An Add after any run whose Gets are of newest records, a run of the filter say, leaves no expired record. */
  lemma {:induction false} RunLeavesFresh<K, V>(capacity: nat, ops: seq<Op<K, V>>, r: Record<K, V>, timeToLive: int, purged: nat, now: int)
    requires capacity >= 1 && IsRun(capacity, ops) && GetsNewest(capacity, ops) && timeToLive != 0
    requires |After(capacity, ops)| <= capacity && !HasKey(After(capacity, ops), r.key)
    requires PurgedAt(MadeRoom(After(capacity, ops), capacity), timeToLive, purged, now)
    ensures var t := Added(After(capacity, ops), capacity, r, purged);
            forall i | 0 <= i < |t| - 1 :: t[i].time + timeToLive >= now
  {
    CacheSorted(capacity, ops);
    AddLeavesFresh(After(capacity, ops), capacity, r, timeToLive, purged, now);
  }

  lemma GetMissed<K, V>(s: seq<Record<K, V>>, k: K)
    requires !HasKey(s, k)
    ensures Touched(s, k) == s
  {
  }

  /**
   Otherwise an expired record can be left: two are added, the older one is got, and when it has
   expired a purge stops at the newer one before it.
   */
  lemma {:induction false} GetHidesExpired<K, V>(capacity: nat, old_: Record<K, V>, new_: Record<K, V>, timeToLive: int, now: int)
    requires capacity > 2 && old_.key != new_.key && old_.time <= new_.time && !Expired(old_.time, timeToLive, new_.time)
    requires Expired(old_.time, timeToLive, now) && !Expired(new_.time, timeToLive, now)
    ensures var ops := [Add(old_, 0), Add(new_, 0), Get(old_.key)];
            && IsRun(capacity, ops) && After(capacity, ops) == [new_, old_]
            && PurgedAt(MadeRoom([old_], capacity), timeToLive, 0, new_.time)
            && PurgedAt(MadeRoom([new_, old_], capacity), timeToLive, 0, now)
  {
    hide IsRun, After, Apply, CanApply, HasKey;
    var a, b, g: Op<K, V> := Add(old_, 0), Add(new_, 0), Get(old_.key);
    assert [a] + [b] == [a, b] && [a, b] + [g] == [a, b, g] && [] + [a] == [a];
    assert [old_] + [new_] == [old_, new_] && [] + [old_] == [old_];
    NoRun<K, V>(capacity);
    RunStep(capacity, [], a);
    AddAlone(capacity, [], old_);
    RunStep(capacity, [a], b);
    AddAlone(capacity, [old_], new_);
    RunStep(capacity, [a, b], g);
    OlderGot(capacity, old_, new_);
  }

  lemma {:induction false} NoRun<K, V>(capacity: nat)
    ensures IsRun<K, V>(capacity, []) && After<K, V>(capacity, []) == []
  {
  }

  lemma {:induction false} RunStep<K, V>(capacity: nat, ops: seq<Op<K, V>>, op: Op<K, V>)
    requires IsRun(capacity, ops)
    ensures CanApply(After(capacity, ops), capacity, op) ==>
              IsRun(capacity, ops + [op]) && After(capacity, ops + [op]) == Apply(After(capacity, ops), capacity, op)
  {
    assert (ops + [op])[..|ops|] == ops;
  }

  lemma AddAlone<K, V>(capacity: nat, s: seq<Record<K, V>>, r: Record<K, V>)
    requires |s| < capacity && forall i | 0 <= i < |s| :: s[i].key != r.key
    ensures CanApply(s, capacity, Add(r, 0)) && Apply(s, capacity, Add(r, 0)) == s + [r]
  {
    assert s[0..] == s;
  }

  lemma OlderGot<K, V>(capacity: nat, old_: Record<K, V>, new_: Record<K, V>)
    requires capacity > 2 && old_.key != new_.key
    ensures CanApply([old_, new_], capacity, Get(old_.key)) && Apply([old_, new_], capacity, Get(old_.key)) == [new_, old_]
  {
    var s := [old_, new_];
    assert s[0].key == old_.key;
    assert IndexOf(s, old_.key) == 0;
    assert Without(s, old_.key) == [new_];
  }
}
