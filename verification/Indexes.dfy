/** The two indexes of a data buffer: lists in order of arrival, searched from the front by key. */
module Indexes {
  datatype Key = Key(name: seq<bv8>, typeId: nat)

  type Value = seq<bv8>

  datatype Element<T> = Element(key: Key, item: T)

  type Index<T> = seq<Element<T>>

  function Keys<T>(index: Index<T>): set<Key> {
    set i | 0 <= i < |index| :: index[i].key
  }

  ghost predicate Distinct<T>(index: Index<T>) {
    forall i, j :: 0 <= i < j < |index| ==> index[i].key != index[j].key
  }

  /** The position of the first element with key k, or the length. */
  function Find<T>(index: Index<T>, k: Key): (i: nat)
    ensures i <= |index| && (i < |index| ==> index[i].key == k)
    ensures forall j :: 0 <= j < i ==> index[j].key != k
    ensures i < |index| <==> k in Keys(index)
  {
    if index == [] then 0
    else if index[0].key == k then 0
    else
      assert forall j :: 0 < j < |index| ==> index[j] == index[1..][j - 1];
      assert k in Keys(index) <==> k in Keys(index[1..]) by {
        if k in Keys(index) {
          var j :| 0 <= j < |index| && index[j].key == k;
          assert index[1..][j - 1].key == k;
        }
      }
      1 + Find(index[1..], k)
  }

  function RemoveAt<T>(index: Index<T>, i: nat): Index<T>
    requires i < |index|
  {
    index[..i] + index[i + 1..]
  }

  /** What the index holds for each key; a key occurs once. */
  ghost function View<T>(index: Index<T>): (v: map<Key, T>)
    ensures v.Keys == Keys(index)
  {
    map k | k in Keys(index) :: index[Find(index, k)].item
  }

  lemma {:induction false} ViewAt<T>(index: Index<T>, i: nat)
    requires Distinct(index) && i < |index|
    ensures index[i].key in View(index) && View(index)[index[i].key] == index[i].item
    ensures Find(index, index[i].key) == i
  {
    var j := Find(index, index[i].key);
    assert index[i].key in Keys(index);
  }

  lemma ViewIs<T>(index: Index<T>, v: map<Key, T>)
    requires Distinct(index) && v.Keys == Keys(index)
    requires forall j | 0 <= j < |index| :: index[j].key in v && v[index[j].key] == index[j].item
    ensures v == View(index)
  {
    forall k | k in v ensures v[k] == View(index)[k] {
      ViewAt(index, Find(index, k));
    }
  }

  lemma KeysOfJoined<T>(a: Index<T>, b: Index<T>)
    ensures Keys(a + b) == Keys(a) + Keys(b)
    ensures |b| == 1 ==> Keys(b) == {b[0].key}
    ensures |a| == 1 ==> Keys(a) == {a[0].key}
  {
    forall k ensures k in Keys(a + b) <==> k in Keys(a) + Keys(b) {
      if i :| 0 <= i < |a| && a[i].key == k {
        assert (a + b)[i].key == k;
      }
      if i :| 0 <= i < |b| && b[i].key == k {
        assert (a + b)[|a| + i].key == k;
      }
    }
  }

  lemma Added<T>(index: Index<T>, k: Key, item: T)
    requires Distinct(index) && k !in Keys(index)
    ensures var index' := index + [Element(k, item)];
            Distinct(index') && View(index') == View(index)[k := item]
  {
    var index' := index + [Element(k, item)];
    KeysOfJoined(index, [Element(k, item)]);
    forall j | 0 <= j < |index| ensures index[j].key in View(index) && View(index)[index[j].key] == index[j].item && index[j].key != k {
      ViewAt(index, j);
    }
    hide View, Keys;
    ViewIs(index', View(index)[k := item]);
  }

  lemma ElementsKept<T>(index: Index<T>, i: nat)
    requires i < |index|
    ensures |RemoveAt(index, i)| == |index| - 1
    ensures forall j | 0 <= j < |index| - 1 :: RemoveAt(index, i)[j] == index[if j < i then j else j + 1]
  {
  }

  lemma Removed<T>(index: Index<T>, i: nat)
    requires Distinct(index) && i < |index|
    ensures Distinct(RemoveAt(index, i)) && View(RemoveAt(index, i)) == View(index) - {index[i].key}
  {
    ElementsKept(index, i);
    var index' := RemoveAt(index, i);
    hide RemoveAt;
    assert Distinct(index');
    forall x ensures x in Keys(index') <==> x in Keys(index) - {index[i].key} {
      if x in Keys(index) - {index[i].key} {
        var j := Find(index, x);
        assert index'[if j < i then j else j - 1].key == x;
      }
    }
    forall j | 0 <= j < |index'| ensures index'[j].key in Keys(index) - {index[i].key} && View(index)[index'[j].key] == index'[j].item {
      ViewAt(index, if j < i then j else j + 1);
    }
    ViewIs(index', View(index) - {index[i].key});
  }

  lemma KeysReplaced<T>(index: Index<T>, i: nat, item: T)
    requires i < |index|
    ensures Keys(index[i := Element(index[i].key, item)]) == Keys(index)
  {
    var index' := index[i := Element(index[i].key, item)];
    forall x ensures x in Keys(index') <==> x in Keys(index) {
      if x in Keys(index) {
        var j :| 0 <= j < |index| && index[j].key == x;
        assert index'[j].key == x;
      }
    }
  }

  lemma Replaced<T>(index: Index<T>, i: nat, item: T)
    requires Distinct(index) && i < |index|
    ensures var index' := index[i := Element(index[i].key, item)];
            Distinct(index') && View(index') == View(index)[index[i].key := item]
  {
    var index' := index[i := Element(index[i].key, item)];
    KeysReplaced(index, i, item);
    hide Keys, View;
    ViewAt(index, i);
    forall j | 0 <= j < |index'| ensures index'[j].key in View(index) && View(index)[index[i].key := item][index'[j].key] == index'[j].item {
      ViewAt(index, j);
    }
    ViewIs(index', View(index)[index[i].key := item]);
  }

  lemma NoView<T>(index: Index<T>)
    requires index == []
    ensures View(index) == map[]
  {
    assert Keys(index) == {};
  }

  lemma LastIsNew<T>(index: Index<T>)
    requires Distinct(index) && index != []
    ensures index[|index| - 1].key !in Keys(index[..|index| - 1]) && Distinct(index[..|index| - 1])
  {
  }

  /** The elements whose keys are not among `keys`, in order. */
  function Without<T>(index: Index<T>, keys: set<Key>): Index<T> {
    if index == [] then []
    else
      var rest := Without(index[..|index| - 1], keys);
      if index[|index| - 1].key in keys then rest else rest + [index[|index| - 1]]
  }

  lemma {:induction false} Filtered<T>(index: Index<T>, keys: set<Key>)
    requires Distinct(index)
    ensures Distinct(Without(index, keys)) && View(Without(index, keys)) == View(index) - keys
    decreases |index|
  {
    hide View, Keys;
    if index != [] {
      var last := |index| - 1;
      var done, x := index[..last], index[last];
      Filtered(done, keys);
      LastIsNew(index);
      Added(done, x.key, x.item);
      assert done + [x] == index;
      if x.key !in keys {
        Added(Without(done, keys), x.key, x.item);
      }
    } else {
      NoView(index);
    }
  }
}
