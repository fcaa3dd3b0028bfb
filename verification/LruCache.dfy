/**
 The cache as it is built: a linked list of keys, and a map from each key to its place in the list,
 its time and its value.  A place is the identity of a list node, which moving the node keeps.
 */
module LruCache {
  import opened Options
  import opened RecencyLists

  datatype Node<K> = Node(id: nat, key: K)

  datatype Entry<V> = Entry(place: nat, time: int, value: V)

  /** A clock that never goes back. */
  class Clock {
    var last: int

    constructor (start: int)
      ensures last == start
    {
      last := start;
    }

    method Now() returns (t: int)
      modifies this
      ensures old(last) <= t == last
    {
      var passed: int := *;
      last := last + if passed < 0 then 0 else passed;
      t := last;
    }
  }

  ghost function KeysOf<K>(order: seq<Node<K>>): set<K> {
    set i | 0 <= i < |order| :: order[i].key
  }

  lemma {:induction false} CountOfKeys<K>(order: seq<Node<K>>)
    requires forall i, j | 0 <= i < j < |order| :: order[i].key != order[j].key
    ensures |KeysOf(order)| == |order|
    decreases |order|
  {
    if order != [] {
      var last := |order| - 1;
      CountOfKeys(order[..last]);
      assert KeysOf(order) == KeysOf(order[..last]) + {order[last].key};
    }
  }

  /** List and map hold the same keys, each with its place. */
  ghost predicate Mirrors<K, V>(order: seq<Node<K>>, storage: map<K, Entry<V>>) {
    && (forall i, j | 0 <= i < j < |order| :: order[i].id != order[j].id && order[i].key != order[j].key)
    && storage.Keys == KeysOf(order)
    && (forall i | 0 <= i < |order| :: order[i].key in storage && storage[order[i].key].place == order[i].id)
  }

  ghost function RecordOf<K, V>(key: K, e: Entry<V>): Record<K, V> {
    Record(key, e.time, e.value)
  }

  ghost function RecordsOf<K, V>(order: seq<Node<K>>, storage: map<K, Entry<V>>): (s: seq<Record<K, V>>)
    requires Mirrors(order, storage)
    ensures |s| == |order| && Distinct(s)
  {
    seq(|order|, i requires 0 <= i < |order| => RecordOf(order[i].key, storage[order[i].key]))
  }

  lemma HasKeyIff<K, V>(order: seq<Node<K>>, storage: map<K, Entry<V>>, k: K)
    requires Mirrors(order, storage)
    ensures HasKey(RecordsOf(order, storage), k) <==> k in storage
  {
    if k in storage {
      var i :| 0 <= i < |order| && order[i].key == k;
      assert RecordsOf(order, storage)[i] in RecordsOf(order, storage);
    }
  }

  /** The position of a node, found by its identity. */
  function PlaceOf<K>(order: seq<Node<K>>, id: nat): (i: nat)
    ensures i <= |order| && (i < |order| ==> order[i].id == id)
    ensures forall j | 0 <= j < i :: order[j].id != id
  {
    if order == [] || order[0].id == id then 0 else 1 + PlaceOf(order[1..], id)
  }

  lemma {:induction false} PlaceOfKey<K, V>(order: seq<Node<K>>, storage: map<K, Entry<V>>, k: K)
    requires Mirrors(order, storage) && k in storage
    ensures var i := PlaceOf(order, storage[k].place);
            && i < |order| && order[i].key == k
            && HasKey(RecordsOf(order, storage), k) && IndexOf(RecordsOf(order, storage), k) == i
  {
    HasKeyIff(order, storage, k);
    var i :| 0 <= i < |order| && order[i].key == k;
    assert PlaceOf(order, storage[k].place) == i;
    assert RecordsOf(order, storage)[IndexOf(RecordsOf(order, storage), k)].key == order[IndexOf(RecordsOf(order, storage), k)].key;
  }

  function DropAt<T>(s: seq<T>, i: nat): (r: seq<T>)
    requires i < |s|
    ensures |r| == |s| - 1 && forall j | 0 <= j < |r| :: r[j] == s[if j < i then j else j + 1]
  {
    s[..i] + s[i + 1..]
  }

  lemma NotThere<K, V>(s: seq<Record<K, V>>, k: K)
    ensures !HasKey(s, k) ==> Without(s, k) == s
  {
  }

  lemma DropIsWithout<K, V>(s: seq<Record<K, V>>, k: K)
    requires HasKey(s, k)
    ensures DropAt(s, IndexOf(s, k)) == Without(s, k)
  {
  }

  lemma KeysDropped<K>(order: seq<Node<K>>, i: nat)
    requires i < |order| && forall i, j | 0 <= i < j < |order| :: order[i].key != order[j].key
    ensures KeysOf(DropAt(order, i)) == KeysOf(order) - {order[i].key}
  {
    var rest := DropAt(order, i);
    forall x | x in KeysOf(order) && x != order[i].key ensures x in KeysOf(rest) {
      var j :| 0 <= j < |order| && order[j].key == x;
      assert rest[if j < i then j else j - 1].key == x;
    }
  }

  lemma NodeGone<K, V>(order: seq<Node<K>>, storage: map<K, Entry<V>>, i: nat)
    requires Mirrors(order, storage) && i < |order|
    ensures Mirrors(DropAt(order, i), storage - {order[i].key})
    ensures RecordsOf(DropAt(order, i), storage - {order[i].key}) == DropAt(RecordsOf(order, storage), i)
  {
    KeysDropped(order, i);
    hide KeysOf, DropAt;
  }

  lemma BackAdded<K, V>(order: seq<Node<K>>, storage: map<K, Entry<V>>, id: nat, k: K, e: Entry<V>)
    requires Mirrors(order, storage) && k !in storage && e.place == id && forall i | 0 <= i < |order| :: order[i].id != id
    ensures Mirrors(order + [Node(id, k)], storage[k := e])
    ensures RecordsOf(order + [Node(id, k)], storage[k := e]) == RecordsOf(order, storage) + [RecordOf(k, e)]
  {
    KeysJoined(order, [Node(id, k)]);
  }

  lemma FrontAdded<K, V>(order: seq<Node<K>>, storage: map<K, Entry<V>>, id: nat, k: K, e: Entry<V>)
    requires Mirrors(order, storage) && k !in storage && e.place == id && forall i | 0 <= i < |order| :: order[i].id != id
    ensures Mirrors([Node(id, k)] + order, storage[k := e])
    ensures RecordsOf([Node(id, k)] + order, storage[k := e]) == [RecordOf(k, e)] + RecordsOf(order, storage)
  {
    KeysJoined([Node(id, k)], order);
  }

  lemma KeysJoined<K>(a: seq<Node<K>>, b: seq<Node<K>>)
    ensures KeysOf(a + b) == KeysOf(a) + KeysOf(b)
    ensures |a| == 1 ==> KeysOf(a) == {a[0].key}
    ensures |b| == 1 ==> KeysOf(b) == {b[0].key}
  {
    forall x | x in KeysOf(a) + KeysOf(b) ensures x in KeysOf(a + b) {
      if i :| 0 <= i < |a| && a[i].key == x {
        assert (a + b)[i].key == x;
      } else {
        var i :| 0 <= i < |b| && b[i].key == x;
        assert (a + b)[|a| + i].key == x;
      }
    }
  }

  lemma FrontPlaces<K>(order: seq<Node<K>>, i: nat)
    requires i < |order|
    ensures forall n | n in [order[i]] + DropAt(order, i) :: n in order
  {
  }

  lemma BackPlaces<K>(order: seq<Node<K>>, i: nat)
    requires i < |order|
    ensures forall n | n in DropAt(order, i) + [order[i]] :: n in order
  {
  }

  /** A key moved to the front and given another time. */
  lemma MovedToFront<K, V>(order: seq<Node<K>>, storage: map<K, Entry<V>>, i: nat, time: int)
    requires Mirrors(order, storage) && i < |order|
    ensures var k := order[i].key;
            var storage' := storage[k := storage[k].(time := time)];
            var order' := [order[i]] + DropAt(order, i);
            && k in storage && Mirrors(order', storage') && |order'| == |order|
            && RecordsOf(order', storage') != [] && RecordsOf(order', storage')[1..] == DropAt(RecordsOf(order, storage), i)
  {
    var n, rest := order[i], DropAt(order, i);
    var e := storage[n.key].(time := time);
    NodeGone(order, storage, i);
    assert (storage - {n.key})[n.key := e] == storage[n.key := e];
    assert forall j | 0 <= j < |rest| :: rest[j].id != n.id;
    hide Mirrors, KeysOf, DropAt, RecordsOf;
    FrontAdded(rest, storage - {n.key}, n.id, n.key, e);
  }

  /** Moving a node keeps its identity, so the map stays as it is. */
  lemma Moved<K, V>(order: seq<Node<K>>, storage: map<K, Entry<V>>, i: nat)
    requires Mirrors(order, storage) && i < |order|
    ensures var rest := DropAt(order, i);
            var others := DropAt(RecordsOf(order, storage), i);
            && Mirrors(rest + [order[i]], storage)
            && RecordsOf(rest + [order[i]], storage) == others + [RecordsOf(order, storage)[i]]
            && Mirrors([order[i]] + rest, storage)
            && RecordsOf([order[i]] + rest, storage) == [RecordsOf(order, storage)[i]] + others
  {
    var rest, n := DropAt(order, i), order[i];
    var e := storage[n.key];
    NodeGone(order, storage, i);
    assert (storage - {n.key})[n.key := e] == storage;
    assert forall j | 0 <= j < |rest| :: rest[j].id != n.id;
    hide Mirrors, KeysOf, DropAt;
    BackAdded(rest, storage - {n.key}, n.id, n.key, e);
    FrontAdded(rest, storage - {n.key}, n.id, n.key, e);
  }

  class LruCache<K(==), V> {
    const capacity: nat
    const timeToLive: int
    const clock: Clock
    var keyOrder: seq<Node<K>>
    var storage: map<K, Entry<V>>
    var nextId: nat

    ghost predicate Valid()
      reads this
    {
      && capacity >= 1 && |keyOrder| <= capacity && Mirrors(keyOrder, storage)
      && forall i | 0 <= i < |keyOrder| :: keyOrder[i].id < nextId
    }

    ghost function Contents(): (s: seq<Record<K, V>>)
      reads this
      requires Valid()
    {
      RecordsOf(keyOrder, storage)
    }

    constructor (capacity: nat, timeToLive: int, clock: Clock)
      requires capacity >= 1
      ensures Valid() && Contents() == []
      ensures this.capacity == capacity && this.timeToLive == timeToLive && this.clock == clock
    {
      this.capacity, this.timeToLive, this.clock := capacity, timeToLive, clock;
      keyOrder, storage, nextId := [], map[], 0;
      new;
      assert KeysOf(keyOrder) == {};
    }

    method Check(key: K) returns (found: bool)
      requires Valid()
      ensures found <==> HasKey(Contents(), key)
    {
      HasKeyIff(keyOrder, storage, key);
      found := key in storage;
    }

    method Size() returns (n: nat)
      requires Valid()
      ensures n == |Contents()| == |storage|
    {
      CountOfKeys(keyOrder);
      n := |storage|;
    }

    method RemoveOldestElement()
      requires Valid() && Contents() != []
      modifies this`keyOrder, this`storage
      ensures Valid() && Contents() == old(Contents())[1..]
      ensures storage.Keys == old(storage.Keys) - {old(keyOrder[0].key)} && |keyOrder| < old(|keyOrder|)
    {
      NodeGone(keyOrder, storage, 0);
      assert DropAt(keyOrder, 0) == keyOrder[1..] && DropAt(Contents(), 0) == Contents()[1..];
      var front := keyOrder[0];
      storage := storage - {front.key};
      keyOrder := keyOrder[1..];
    }

    method CheckTimeExpired() returns (expired: bool)
      requires Valid()
      modifies clock
      ensures clock.last >= old(clock.last)
      ensures expired <==> Contents() != [] && Expired(Contents()[0].time, timeToLive, clock.last)
      ensures expired <==> Contents() != [] && timeToLive != 0 && Contents()[0].time + timeToLive < clock.last
    {
      CountOfKeys(keyOrder);
      if timeToLive == 0 || |storage| == 0 {
        return false;
      }
      var time := storage[keyOrder[0].key].time;
      var now := clock.Now();
      return time + timeToLive < now;
    }

    /** The list ends with the node of a key which the map does not hold yet; the rest holds s. */
    ghost predicate Prepared(key: K, place: nat, s: seq<Record<K, V>>)
      reads this
    {
      && capacity >= 1 && |keyOrder| <= capacity && keyOrder != [] && key !in storage && place < nextId
      && var last := |keyOrder| - 1;
      && keyOrder == keyOrder[..last] + [Node(place, key)]
      && (forall i | 0 <= i < last :: keyOrder[i].id < place)
      && Mirrors(keyOrder[..last], storage) && RecordsOf(keyOrder[..last], storage) == s
    }

    /** Removes expired elements at the beginning of the list. */
    method RemoveExpired() returns (ghost purged: nat)
      requires Valid()
      modifies this`keyOrder, this`storage, clock
      ensures Valid() && old(clock.last) <= clock.last
      ensures PurgedAt(old(Contents()), timeToLive, purged, clock.last) && Contents() == old(Contents())[purged..]
      ensures storage.Keys <= old(storage.Keys) && |keyOrder| <= old(|keyOrder|)
    {
      hide Mirrors, RecordsOf;
      purged := 0;
      ghost var s := Contents();
      var expired := CheckTimeExpired();
      while expired
        invariant Valid() && purged <= |s| && Contents() == s[purged..] && storage.Keys <= old(storage.Keys)
        invariant |keyOrder| <= old(|keyOrder|) && old(clock.last) <= clock.last
        invariant forall i | 0 <= i < purged :: Expired(s[i].time, timeToLive, clock.last)
        invariant expired <==> Contents() != [] && Expired(Contents()[0].time, timeToLive, clock.last)
        decreases |keyOrder|
      {
        RemoveOldestElement();
        purged := purged + 1;
        expired := CheckTimeExpired();
      }
    }

    /** Makes room for a new key and enters it in the list; None if it is there already. */
    method PrepareToAdd(key: K) returns (place: Option<nat>, ghost purged: nat)
      requires Valid()
      modifies this, clock
      ensures place.None? <==> key in old(storage)
      ensures place.None? ==> Valid() && Contents() == old(Contents())
      ensures old(clock.last) <= clock.last
      ensures place.Some? ==>
                && PurgedAt(MadeRoom(old(Contents()), capacity), timeToLive, purged, clock.last)
                && Prepared(key, place.value, MadeRoom(old(Contents()), capacity)[purged..])
    {
      purged := 0;
      if key in storage {
        return None, 0;
      }
      var size := Size();
      hide Mirrors, RecordsOf;
      if size == capacity {
        RemoveOldestElement();
      }
      purged := RemoveExpired();
      var id := InsertKey(key);
      place := Some(id);
    }

    /** Records a key as the most recently used. */
    method InsertKey(key: K) returns (place: nat)
      requires Valid() && key !in storage && |keyOrder| < capacity
      modifies this`keyOrder, this`nextId
      ensures Prepared(key, place, old(Contents()))
    {
      place := nextId;
      ghost var order := keyOrder;
      keyOrder := keyOrder + [Node(nextId, key)];
      nextId := nextId + 1;
      assert keyOrder[..|keyOrder| - 1] == order;
    }

    /** A key that is there already is left as it is; otherwise room is made and it becomes the newest. */
    method Add(key: K, value: V) returns (ghost purged: nat, ghost checked: int)
      requires Valid()
      modifies this, clock
      ensures Valid() && old(clock.last) <= checked <= clock.last
      ensures !HasKey(old(Contents()), key) ==> PurgedAt(MadeRoom(old(Contents()), capacity), timeToLive, purged, checked)
      ensures Contents() == Added(old(Contents()), capacity, Record(key, clock.last, value), purged)
    {
      HasKeyIff(keyOrder, storage, key);
      hide Mirrors, RecordsOf;
      var place: Option<nat>;
      place, purged := PrepareToAdd(key);
      checked := clock.last;
      if place.None? {
        return;
      }
      var now := clock.Now();
      ghost var last := |keyOrder| - 1;
      BackAdded(keyOrder[..last], storage, place.value, key, Entry(place.value, now, value));
      storage := storage[key := Entry(place.value, now, value)];
    }

    /** The value of a key, which becomes the most recently used; its time stays. */
    method Get(key: K) returns (value: Option<V>)
      requires Valid()
      modifies this`keyOrder
      ensures Valid() && Contents() == Touched(old(Contents()), key)
      ensures value == if HasKey(old(Contents()), key) then Some(old(Contents())[IndexOf(old(Contents()), key)].value) else None
    {
      HasKeyIff(keyOrder, storage, key);
      if key !in storage {
        return None;
      }
      PlaceOfKey(keyOrder, storage, key);
      DropIsWithout(Contents(), key);
      value := Some(storage[key].value);
      var i := PlaceOf(keyOrder, storage[key].place);
      hide Mirrors, RecordsOf, PlaceOf, HasKey, DropAt, Without, IndexOf;
      Moved(keyOrder, storage, i);
      BackPlaces(keyOrder, i);
      keyOrder := DropAt(keyOrder, i) + [keyOrder[i]];
    }

    method MoveToFront(key: K, i: nat, time: int)
      requires Valid() && i < |keyOrder| && keyOrder[i].key == key
      modifies this`keyOrder, this`storage
      ensures Valid() && Contents() != [] && Contents()[1..] == DropAt(old(Contents()), i)
    {
      hide Mirrors, RecordsOf, DropAt;
      MovedToFront(keyOrder, storage, i, time);
      FrontPlaces(keyOrder, i);
      storage := storage[key := storage[key].(time := time)];
      keyOrder := [keyOrder[i]] + DropAt(keyOrder, i);
    }

    /** Removes a key by moving it to the front, marked as just expired. */
    method Delete(key: K)
      requires Valid()
      modifies this`keyOrder, this`storage, clock
      ensures Valid() && Contents() == Without(old(Contents()), key)
    {
      HasKeyIff(keyOrder, storage, key);
      NotThere(Contents(), key);
      hide Mirrors, RecordsOf, PlaceOf, HasKey, DropAt, Without, IndexOf;
      if key in storage {
        PlaceOfKey(keyOrder, storage, key);
        DropIsWithout(Contents(), key);
        var now := clock.Now();
        MoveToFront(key, PlaceOf(keyOrder, storage[key].place), now - timeToLive);
        RemoveOldestElement();
      }
    }
  }
}
