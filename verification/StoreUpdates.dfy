/**
 How the links, the orphans and the tips change when the container is updated, each as a fact about
 the values before and after.
 */
module StoreUpdates {
  import opened Options
  import opened VersionNames
  import opened ParentMaps
  import opened Forests
  import opened Stores
  import opened Pruning

  lemma KeysAre(orphans: Orphans, f: Forest)
    requires OrphansOf(orphans, f)
    ensures orphans.Keys == f.OrphanKeys()
  {
    forall k ensures k in orphans <==> k in f.OrphanKeys() {
      if k in orphans {
        var o :| o in f.OrphansOf(k);
        assert o in f.declared && f.declared[o] == k;
      }
      if k in f.OrphanKeys() {
        var n :| n in f.declared && f.declared[n] !in f.declared && !f.IsRoot(n) && f.declared[n] == k;
        assert n in f.OrphansOf(k);
      }
    }
  }

  lemma OrphansWait(orphans: Orphans, f: Forest, k: VersionName)
    requires OrphansOf(orphans, f) && k in orphans
    ensures orphans[k] == f.OrphansOf(k)
    ensures forall n | n in Ascending(orphans[k]) :: n in f.declared && f.declared[n] == k
  {
  }

  lemma OrphansRemain(orphans: Orphans, f: Forest)
    requires OrphansOf(orphans, f) && f.Valid() && f.root.Some?
    requires Kids(f.declared, f.root.value) == {} && f.declared - {f.root.value} != map[]
    ensures orphans != map[]
  {
    KeysAre(orphans, f);
    ReplacementFound(f);
    assert f.(root := Some(f.root.value)) == f;
  }

  lemma ReplacementIsOrphan(f: Forest, key: VersionName, orphan: VersionName)
    requires f.root.Some? && Kids(f.declared, f.root.value) == {}
    requires f.OrphanKeys() != {} && key == Least(f.OrphanKeys())
    requires f.OrphansOf(key) != {} && orphan == Least(f.OrphansOf(key))
    ensures Replacement(f, f.root.value) == Some(orphan)
  {
    assert f.(root := Some(f.root.value)) == f;
  }

  /** Erasing a front makes fronts of its children and leaves every other link as it was. */
  lemma VersionsWithoutFront(versions: Versions, d: Links, r: VersionName, versions': Versions)
    requires VersionsOf(versions, d) && IsFront(d, r)
    requires versions'.Keys == versions.Keys - {r}
    requires forall n | n in versions' ::
        versions'[n] == if n in Kids(d, r) then versions[n].(parent := None) else versions[n]
    ensures VersionsOf(versions', d - {r})
  {
    forall n | n in d - {r} ensures versions'[n] == Details(ParentIn(d - {r}, n), Kids(d - {r}, n)) {
      KidsAfterRemove(d, r, n);
    }
  }

  lemma OrphansWithoutRoot(orphans: Orphans, f: Forest, key: VersionName, orphan: VersionName, orphans': Orphans)
    requires OrphansOf(orphans, f) && f.Valid() && f.root.Some? && Kids(f.declared, f.root.value) == {}
    requires key in orphans && orphan in orphans[key]
    requires orphans' == if orphans[key] == {orphan} then orphans - {key} else orphans[key := orphans[key] - {orphan}]
    ensures OrphansOf(orphans', Forest(f.declared - {f.root.value}, Some(orphan)))
  {
    var g := Forest(f.declared - {f.root.value}, Some(orphan));
    forall k
      ensures k in orphans' <==> k !in g.declared && g.OrphansOf(k) != {}
      ensures k in orphans' ==> orphans'[k] == g.OrphansOf(k)
    {
      KidsAfterRemove(f.declared, f.root.value, k);
      assert orphan in f.OrphansOf(key);
      if k != key {
        assert orphan !in Kids(f.declared, k);
        assert g.OrphansOf(k) == f.OrphansOf(k);
      } else {
        assert g.OrphansOf(k) == f.OrphansOf(k) - {orphan};
      }
    }
  }

  lemma OrphansAfterFork(orphans: Orphans, f: Forest, first: VersionName, orphans': Orphans)
    requires OrphansOf(orphans, f) && f.Valid() && f.root.Some?
    requires first in Kids(f.declared, f.root.value)
    requires orphans' == if Kids(f.declared, f.root.value) == {first} then orphans
                         else orphans[f.root.value := Kids(f.declared, f.root.value) - {first}]
    ensures OrphansOf(orphans', Forest(f.declared - {f.root.value}, Some(first)))
  {
    var r := f.root.value;
    var g := Forest(f.declared - {r}, Some(first));
    forall k
      ensures k in orphans' <==> k !in g.declared && g.OrphansOf(k) != {}
      ensures k in orphans' ==> orphans'[k] == g.OrphansOf(k)
    {
      KidsAfterRemove(f.declared, r, k);
      if k == r {
        assert r !in Kids(f.declared, r);
        assert g.OrphansOf(k) == Kids(f.declared, r) - {first};
      } else {
        assert first !in Kids(f.declared, k);
        assert g.OrphansOf(k) == f.OrphansOf(k);
      }
    }
  }

  /** What the links say about the children of the root. */
  lemma RootChildren(versions: Versions, orphans: Orphans, f: Forest)
    requires VersionsOf(versions, f.declared) && OrphansOf(orphans, f) && f.Valid() && f.root.Some?
    ensures var r := f.root.value;
            && r in versions && r !in orphans && r !in Kids(f.declared, r)
            && versions[r].children == Kids(f.declared, r) <= versions.Keys
  {
    var r := f.root.value;
    assert f.declared[r] !in f.declared;
  }

  /** The lowest child of an erased root takes over. */
  lemma RootForked(versions: Versions, orphans: Orphans, f: Forest, first: VersionName, versions': Versions,
                   orphans': Orphans)
    requires VersionsOf(versions, f.declared) && OrphansOf(orphans, f) && f.Valid() && f.root.Some?
    requires Kids(f.declared, f.root.value) != {} && first == Least(Kids(f.declared, f.root.value))
    requires versions'.Keys == versions.Keys - {f.root.value}
    requires forall n | n in versions' ::
        versions'[n] == if n in Kids(f.declared, f.root.value) then versions[n].(parent := None) else versions[n]
    requires orphans' == if Kids(f.declared, f.root.value) == {first} then orphans
                         else orphans[f.root.value := Kids(f.declared, f.root.value) - {first}]
    ensures VersionsOf(versions', EraseRoot(f).declared) && OrphansOf(orphans', EraseRoot(f))
    ensures RootOf(f.root.value, Some(first), EraseRoot(f))
  {
    assert f.(root := Some(f.root.value)) == f;
    hide Grounded;
    VersionsWithoutFront(versions, f.declared, f.root.value, versions');
    OrphansAfterFork(orphans, f, first, orphans');
    hide VersionsOf, OrphansOf;
  }

  lemma FrontIsOrphan(orphans: Orphans, d: Links, r: VersionName, front: VersionName)
    requires OrphansOf(orphans, Forest(d, Some(r))) && IsFront(d, front) && front != r
    ensures d[front] in orphans && front in orphans[d[front]]
    ensures forall k | k in orphans && front in orphans[k] :: k == d[front]
  {
    assert front in Forest(d, Some(r)).OrphansOf(d[front]);
  }

  /** Once r is linked to a parent, an orphan can be chosen as root in its place. */
  lemma OrphansAfterPromotion(orphans: Orphans, d: Links, r: VersionName, front: VersionName, orphans': Orphans)
    requires OrphansOf(orphans, Forest(d, Some(r))) && IsFront(d, front) && r in d && d[r] in d
    requires d[front] in orphans && front in orphans[d[front]]
    requires orphans' == if orphans[d[front]] == {front} then orphans - {d[front]}
                         else orphans[d[front] := orphans[d[front]] - {front}]
    ensures OrphansOf(orphans', Forest(d, Some(front)))
  {
    var f, g := Forest(d, Some(r)), Forest(d, Some(front));
    forall k
      ensures k in orphans' <==> k !in d && g.OrphansOf(k) != {}
      ensures k in orphans' ==> orphans'[k] == g.OrphansOf(k)
    {
      if k !in d {
        assert r !in Kids(d, k);
        if k == d[front] {
          assert g.OrphansOf(k) == f.OrphansOf(k) - {front};
        } else {
          assert g.OrphansOf(k) == f.OrphansOf(k);
        }
      }
    }
  }

  function WaitingIn(orphans: Orphans, n: VersionName): set<VersionName> {
    if n in orphans then orphans[n] else {}
  }

  lemma WaitingFor(s: Store, f: Forest, n: VersionName)
    requires VersionsOf(s.versions, f.declared) && RootOf(s.rootAbsent, s.root, f) && OrphansOf(s.orphans, f)
    requires f.Valid() && n !in f.declared && n.IsInitialised()
    ensures f.OrphansOf(n) == WaitingIn(s.orphans, n)
    ensures AdoptsRoot(f, n) <==> s.rootAbsent.IsInitialised() && s.rootAbsent == n
    ensures Kids(f.declared, n) == f.OrphansOf(n) + if AdoptsRoot(f, n) then {f.root.value} else {}
  {
  }

  /** The links after inserting new_ and linking `adopted` to it; the old root is linked later. */
  function LinkedVersions(versions: Versions, new_: VersionName, details: Details,
                          adopted: set<VersionName>): Versions {
    map n | n in versions.Keys + {new_} ::
      if n == new_ then details
      else Details(if n in adopted then Some(new_) else versions[n].parent,
                   if details.parent == Some(n) then versions[n].children + {new_} else versions[n].children)
  }

  ghost function GrownDetails(f: Forest, old_: VersionName, new_: VersionName): Details {
    Details(if IsRootPut(f, old_, new_) || old_ !in f.declared then None else Some(old_), Kids(f.declared, new_))
  }

  lemma ChildrenGrown(versions: Versions, f: Forest, old_: VersionName, new_: VersionName, n: VersionName)
    requires VersionsOf(versions, f.declared) && f.Valid() && new_ !in f.declared && !BreaksForest(f, old_, new_)
    requires n in f.declared[new_ := old_]
    ensures var v := LinkedVersions(versions, new_, GrownDetails(f, old_, new_), f.OrphansOf(new_));
            n in v && v[n].children == Kids(f.declared[new_ := old_], n)
  {
    KidsAfterAdd(f.declared, old_, new_, n);
    hide Kids, ParentIn, Grounded;
  }

  lemma ParentGrown(versions: Versions, f: Forest, old_: VersionName, new_: VersionName, n: VersionName)
    requires VersionsOf(versions, f.declared) && f.Valid() && new_ !in f.declared && !BreaksForest(f, old_, new_)
    requires n in f.declared[new_ := old_]
    ensures var v := LinkedVersions(versions, new_, GrownDetails(f, old_, new_), f.OrphansOf(new_));
            && n in v
            && ParentIn(f.declared[new_ := old_], n) == if AdoptsRoot(f, new_) && n == f.root.value then Some(new_) else v[n].parent
  {
    assert n in f.OrphansOf(new_) <==> n in f.declared && f.declared[n] == new_ && !f.IsRoot(n);
    hide Kids, Grounded;
  }

  lemma VersionsGrown(versions: Versions, f: Forest, old_: VersionName, new_: VersionName, versions': Versions)
    requires VersionsOf(versions, f.declared) && f.Valid() && new_ !in f.declared && !BreaksForest(f, old_, new_)
    requires versions' == LinkedVersions(versions, new_, GrownDetails(f, old_, new_), f.OrphansOf(new_))
    ensures !AdoptsRoot(f, new_) ==> VersionsOf(versions', f.declared[new_ := old_])
    ensures AdoptsRoot(f, new_) ==>
              VersionsOf(versions'[f.root.value := versions'[f.root.value].(parent := Some(new_))], f.declared[new_ := old_])
  {
    var d' := f.declared[new_ := old_];
    assert versions'.Keys == d'.Keys;
    forall n | n in d'
      ensures versions'[n].children == Kids(d', n)
      ensures ParentIn(d', n) == if AdoptsRoot(f, new_) && n == f.root.value then Some(new_) else versions'[n].parent
    {
      ChildrenGrown(versions, f, old_, new_, n);
      ParentGrown(versions, f, old_, new_, n);
    }
    hide Kids, ParentIn, Grounded, BreaksForest, LinkedVersions, GrownDetails;
  }

  /** The orphans before the root is settled, in each of the cases of Insert. */
  ghost function PlacedOrphans(orphans: Orphans, f: Forest, old_: VersionName, new_: VersionName): Orphans {
    if AdoptsRoot(f, new_) then orphans
    else if IsOrphanPut(f, old_, new_) then WithOrphan(orphans, old_, new_)
    else if IsRootPut(f, old_, new_) && f.root.Some? && f.root.value in f.declared then
      WithOrphan(orphans, f.declared[f.root.value], f.root.value)
    else orphans
  }

  lemma OrphansGrown(orphans: Orphans, f: Forest, old_: VersionName, new_: VersionName)
    requires OrphansOf(orphans, f) && f.Valid() && new_ !in f.declared && new_.IsInitialised()
    requires !BreaksForest(f, old_, new_) && !TwoRoots(f, old_, new_)
    ensures OrphansOf(PlacedOrphans(orphans - {new_}, f, old_, new_), GrownOrphans(f, old_, new_))
  {
    var d' := f.declared[new_ := old_];
    var g := GrownOrphans(f, old_, new_);
    var orphans' := PlacedOrphans(orphans - {new_}, f, old_, new_);
    forall k
      ensures k in orphans' <==> k !in d' && g.OrphansOf(k) != {}
      ensures k in orphans' ==> orphans'[k] == g.OrphansOf(k)
    {
      if k !in d' {
        OrphansGrownAt(f, old_, new_, k);
      }
    }
  }

  /** The new version and all it adopts are linked, but for the link of an adopted root. */
  ghost predicate Grafted(versions: Versions, orphans: Orphans, f: Forest, old_: VersionName, new_: VersionName)
    requires f.Valid()
  {
    && (!AdoptsRoot(f, new_) ==> VersionsOf(versions, f.declared[new_ := old_]))
    && (AdoptsRoot(f, new_) ==>
          && f.root.value in versions
          && VersionsOf(versions[f.root.value := versions[f.root.value].(parent := Some(new_))], f.declared[new_ := old_]))
    && OrphansOf(PlacedOrphans(orphans, f, old_, new_), GrownOrphans(f, old_, new_))
  }

  lemma GraftedByLinking(versions: Versions, orphans: Orphans, f: Forest, old_: VersionName, new_: VersionName,
                         details: Details)
    requires VersionsOf(versions, f.declared) && OrphansOf(orphans, f) && f.Valid()
    requires new_ !in f.declared && new_.IsInitialised() && !BreaksForest(f, old_, new_) && !TwoRoots(f, old_, new_)
    requires details == Details(if IsRootPut(f, old_, new_) || IsOrphanPut(f, old_, new_) then None else Some(old_), Kids(f.declared, new_))
    ensures Grafted(LinkedVersions(versions, new_, details, f.OrphansOf(new_)), orphans - {new_}, f, old_, new_)
  {
    VersionsGrown(versions, f, old_, new_, LinkedVersions(versions, new_, details, f.OrphansOf(new_)));
    OrphansGrown(orphans, f, old_, new_);
  }

  /** The store after a Put with outcome o: it represents the new forest, or it is the old one. */
  ghost predicate PutEffect(o: PutOutcome, before: Store, after: Store, new_: VersionName,
                            r: Result<Option<VersionName>>) {
    && (o.Inserted? ==> Represents(after, o.forest))
    && (!o.Inserted? ==> after == before)
    && r == PutResult(o, new_)
  }

  lemma EffectOfInsert(o: PutOutcome, before: Store, after: Store, new_: VersionName)
    requires o.Inserted? && Represents(after, o.forest)
    ensures PutEffect(o, before, after, new_, Ok(o.removed))
  {
  }

  lemma SameCount(versions: Versions, d: Links)
    requires VersionsOf(versions, d)
    ensures |versions| == |d|
  {
    assert |versions.Keys| == |d.Keys|;
  }

  lemma ParentLosesTip(versions: Versions, d: Links, p: VersionName)
    requires VersionsOf(versions, d)
    ensures Tips(d) - {p} == if p in d && versions[p].children == {} then Tips(d) - {p} else Tips(d)
  {
  }

  lemma TipsInserted(f: Forest, old_: VersionName, new_: VersionName, erase: bool)
    requires f.Valid() && new_ !in f.declared && !BreaksForest(f, old_, new_)
    requires erase ==> !IsRootPut(f, old_, new_) && !AdoptsRoot(f, new_)
    ensures var t := if erase then Tips(f.declared) - {old_} - f.RootSet() else Tips(f.declared) - {old_};
            var e := AfterInsert(f, old_, new_, erase);
            && new_ in e.declared
            && Tips(e.declared) == if Kids(e.declared, new_) == {} then t + {new_} else t
  {
    var g := Grown(f, old_, new_);
    TipsAfterAdd(f.declared, old_, new_);
    KidsAfterAdd(f.declared, old_, new_, new_);
    if erase {
      assert IsFront(g.declared, g.root.value);
      TipsAfterFrontRemoved(g.declared, g.root.value);
      KidsAfterRemove(g.declared, g.root.value, new_);
    }
  }

  /** The forest the orphans stand for before UnorphanRoot. */
  ghost function GrownOrphans(f: Forest, old_: VersionName, new_: VersionName): Forest
    requires f.Valid()
  {
    Forest(f.declared[new_ := old_], if AdoptsRoot(f, new_) && old_ in f.declared then f.root else RootAfterPut(f, old_, new_))
  }

  lemma OrphansGrownAt(f: Forest, old_: VersionName, new_: VersionName, k: VersionName)
    requires f.Valid() && new_ !in f.declared && new_.IsInitialised() && k !in f.declared && k != new_
    requires !BreaksForest(f, old_, new_) && !TwoRoots(f, old_, new_)
    ensures GrownOrphans(f, old_, new_).OrphansOf(k) ==
            if AdoptsRoot(f, new_) then f.OrphansOf(k)
            else if IsOrphanPut(f, old_, new_) then f.OrphansOf(k) + if k == old_ then {new_} else {}
            else if IsRootPut(f, old_, new_) && f.root.Some? then f.OrphansOf(k) + if k == f.declared[f.root.value] then {f.root.value} else {}
            else f.OrphansOf(k)
  {
    KidsAfterAdd(f.declared, old_, new_, k);
    assert new_ !in Kids(f.declared, k);
  }

  function TipResult(d: Links, name: VersionName): Result<()> {
    if name in Tips(d) then Ok(()) else if name in d then Err(InvalidArgument) else Err(NoSuchElement)
  }

  function Reversed(s: seq<VersionName>): (r: seq<VersionName>)
    ensures |r| == |s| && forall i :: 0 <= i < |s| ==> r[i] == s[|s| - 1 - i]
    ensures forall x :: x in r <==> x in s
  {
    if s == [] then [] else Reversed(s[1..]) + [s[0]]
  }

  lemma NothingLeft(f: Forest)
    requires f.Valid() && f.root.Some? && Kids(f.declared, f.root.value) == {} && f.OrphanKeys() == {}
    ensures f.declared - {f.root.value} == map[]
  {
    if n :| n in f.declared && n != f.root.value {
      SomethingLeft(f, n);
    }
  }

  lemma OrphansWithoutOrphan(orphans: Orphans, f: Forest, front: VersionName, orphans': Orphans)
    requires OrphansOf(orphans, f) && IsFront(f.declared, front) && !f.IsRoot(front) && Kids(f.declared, front) == {}
    requires f.declared[front] in orphans
    requires orphans' == if orphans[f.declared[front]] == {front} then orphans - {f.declared[front]}
                         else orphans[f.declared[front] := orphans[f.declared[front]] - {front}]
    ensures OrphansOf(orphans', Forest(f.declared - {front}, f.root))
  {
    var g := Forest(f.declared - {front}, f.root);
    forall k
      ensures k in orphans' <==> k !in g.declared && g.OrphansOf(k) != {}
      ensures k in orphans' ==> orphans'[k] == g.OrphansOf(k)
    {
      KidsAfterRemove(f.declared, front, k);
      assert front in f.OrphansOf(f.declared[front]);
    }
  }

  /** Erasing a childless version which has a parent touches no orphan and no other link. */
  lemma LinksWithoutLeaf(versions: Versions, orphans: Orphans, f: Forest, n: VersionName)
    requires VersionsOf(versions, f.declared) && OrphansOf(orphans, f)
    requires n in f.declared && Kids(f.declared, n) == {} && f.declared[n] in f.declared && f.declared[n] != n
    ensures var p := f.declared[n];
            VersionsOf(versions[p := versions[p].(children := versions[p].children - {n})] - {n}, f.declared - {n})
    ensures OrphansOf(orphans, Forest(f.declared - {n}, f.root))
  {
    var d, p := f.declared, f.declared[n];
    var versions' := versions[p := versions[p].(children := versions[p].children - {n})] - {n};
    forall m | m in d - {n} ensures versions'[m] == Details(ParentIn(d - {n}, m), Kids(d - {n}, m)) {
      KidsAfterRemove(d, n, m);
      assert m !in Kids(d, n);
    }
    var g := Forest(d - {n}, f.root);
    forall k
      ensures k in orphans <==> k !in g.declared && g.OrphansOf(k) != {}
      ensures k in orphans ==> orphans[k] == g.OrphansOf(k)
    {
      KidsAfterRemove(d, n, k);
    }
  }

  /** Erasing a tip which has a parent. */
  lemma TipIsErased(versions: Versions, orphans: Orphans, rootAbsent: VersionName, root: Option<VersionName>,
                    f: Forest, n: VersionName)
    requires VersionsOf(versions, f.declared) && RootOf(rootAbsent, root, f) && OrphansOf(orphans, f) && f.Valid()
    requires n in Tips(f.declared) && f.declared[n] in f.declared
    ensures n in versions && f.declared[n] in versions
    ensures var d, p := f.declared - {n}, f.declared[n];
            var versions' := versions[p := versions[p].(children := versions[p].children - {n})] - {n};
            && VersionsOf(versions', d) && RootOf(rootAbsent, root, Forest(d, f.root))
            && OrphansOf(orphans, Forest(d, f.root))
            && p in d && p != n && versions'[p].children == Kids(d, p)
            && (Kids(d, p) == {} ==> p in Tips(d))
  {
    LeafRemoved(f, n);
    hide Forest.Valid, Grounded;
    LinksWithoutLeaf(versions, orphans, f, n);
    hide OrphansOf;
  }

  /** A count of children always fits the 32 bits it is written with. */
  lemma ChildrenCount(versions: Versions, d: Links, n: VersionName)
    requires VersionsOf(versions, d) && n in d && |versions| < UINT32_SIZE
    ensures |versions[n].children| % UINT32_SIZE == |versions[n].children|
  {
    SubsetSize(versions[n].children, versions.Keys);
  }

  lemma {:induction false} SubsetSize(a: set<VersionName>, b: set<VersionName>)
    requires a <= b
    ensures |a| <= |b|
    decreases |a|
  {
    if x :| x in a {
      SubsetSize(a - {x}, b - {x});
    }
  }
}
