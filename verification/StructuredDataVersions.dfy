/**
 The container: a bounded forest of versions kept in four linked structures which are updated in
 place.  Iterators of the program are version names here; an end iterator is None.
 */
module StructuredDataVersions {
  import opened Options
  import opened VersionNames
  import opened ParentMaps
  import opened Forests
  import opened Pruning
  import opened Stores
  import opened StoreUpdates
  import opened Serialisation
  import opened RoundTrip
  import opened Writing
  import opened Merging
  import opened Parsing

  class StructuredDataVersions {
    var limits: Limits
    var versions: Versions
    var rootAbsent: VersionName
    var root: Option<VersionName>
    var tips: set<VersionName>
    var orphans: Orphans

    ghost function Value(): Store
      reads this
    {
      Store(limits, versions, rootAbsent, root, tips, orphans)
    }

    ghost predicate Valid()
      reads this
    {
      Value().WellFormed()
    }

    /** The declared parents and the root. */
    ghost function Contents(): (f: Forest)
      reads this
      ensures Valid() ==> limits.Valid() && f.Valid() && f.Within(limits) && Represents(Value(), f) && Linked(f)
    {
      if Valid() then WellFormedRepresents(Value()); Value().Abstract() else Value().Abstract()
    }

    /** The links, the root and the orphans are those of f; the tips are left open. */
    ghost predicate Linked(f: Forest)
      reads this
    {
      VersionsOf(versions, f.declared) && RootOf(rootAbsent, root, f) && Stores.OrphansOf(orphans, f)
    }

    constructor (maxVersions: Uint32, maxBranches: Uint32)
      requires Limits(maxVersions, maxBranches).Valid()
      ensures Valid() && Contents() == EMPTY_FOREST
      ensures limits == Limits(maxVersions, maxBranches) && Value() == EmptyStore(limits)
    {
      limits := Limits(maxVersions, maxBranches);
      versions := map[];
      rootAbsent, root := DEFAULT_NAME, None;
      tips := {};
      orphans := map[];
      new;
      assert Represents(Value(), EMPTY_FOREST);
      RepresentsWellFormed(Value(), EMPTY_FOREST);
    }

    /** A container without room for a version and a branch is refused. */
    static method Create(maxVersions: Uint32, maxBranches: Uint32) returns (r: Result<StructuredDataVersions>)
      ensures r.Err? <==> maxVersions == 0 || maxBranches == 0
      ensures r.Err? ==> r.error == InvalidArgument
      ensures r.Ok? ==> fresh(r.value) && r.value.Valid() && r.value.Contents() == EMPTY_FOREST
      ensures r.Ok? ==> r.value.limits == Limits(maxVersions, maxBranches)
    {
      if maxVersions < 1 || maxBranches < 1 {
        return Err(InvalidArgument);
      }
      var container := new StructuredDataVersions(maxVersions, maxBranches);
      return Ok(container);
    }

    // -------------------------------------------------------------- orphans

    /** The absent parent under which an orphan is kept. */
    method FindOrphan(name: VersionName) returns (k: Option<VersionName>)
      ensures k.Some? ==> k.value in orphans && name in orphans[k.value]
      ensures k.None? ==> forall k' | k' in orphans :: name !in orphans[k']
    {
      var keys := orphans.Keys;
      while keys != {}
        invariant keys <= orphans.Keys
        invariant forall k' | k' in orphans && k' !in keys :: name !in orphans[k']
      {
        var key := Least(keys);
        if name in orphans[key] {
          return Some(key);
        }
        keys := keys - {key};
      }
      return None;
    }

    method InsertOrphan(absentParent: VersionName, orphan: VersionName)
      modifies this`orphans
      ensures orphans == WithOrphan(old(orphans), absentParent, orphan)
    {
      if absentParent !in orphans {
        orphans := orphans[absentParent := {}];
      }
      orphans := orphans[absentParent := orphans[absentParent] + {orphan}];
    }

    method EraseOrphan(key: VersionName, orphan: VersionName)
      requires key in orphans && orphan in orphans[key]
      modifies this`orphans
      ensures orphans == if old(orphans)[key] == {orphan} then old(orphans) - {key}
                         else old(orphans)[key := old(orphans)[key] - {orphan}]
    {
      orphans := orphans[key := orphans[key] - {orphan}];
      if orphans[key] == {} {
        orphans := orphans - {key};
      }
    }

    /** Links every orphan waiting for `parent` to it. */
    method Unorphan(parent: VersionName)
      requires parent in orphans && orphans[parent] <= versions.Keys
      modifies this`versions, this`orphans
      ensures versions == map n | n in old(versions) ::
                            if n in old(orphans)[parent] then old(versions)[n].(parent := Some(parent)) else old(versions)[n]
      ensures orphans == old(orphans) - {parent}
    {
      var waiting := orphans[parent];
      while waiting != {}
        invariant waiting <= old(orphans)[parent]
        invariant orphans == old(orphans) && versions.Keys == old(versions).Keys
        invariant forall n | n in versions ::
            versions[n] == if n in old(orphans)[parent] - waiting then old(versions)[n].(parent := Some(parent)) else old(versions)[n]
      {
        var orphan := Least(waiting);
        versions := versions[orphan := versions[orphan].(parent := Some(parent))];
        waiting := waiting - {orphan};
      }
      orphans := orphans - {parent};
    }

    // -------------------------------------------------------------- replacing the root

    /** Erases a childless root; the lowest orphan of the lowest absent parent takes over. */
    method ReplaceRootFromOrphans(ghost f: Forest)
      requires Linked(f) && f.Valid() && root.Some? && orphans != map[]
      requires Kids(f.declared, f.root.value) == {}
      modifies this`versions, this`rootAbsent, this`root, this`orphans
      ensures Linked(EraseRoot(f))
    {
      hide VersionsOf, Grounded;
      ghost var r := f.root.value;
      var key := Least(orphans.Keys);
      var orphan := Least(orphans[key]);
      KeysAre(orphans, f);
      ReplacementIsOrphan(f, key, orphan);
      versions := versions - {root.value};
      rootAbsent := key;
      root := Some(orphan);
      EraseOrphan(key, orphan);
      VersionsWithoutFront(old(versions), f.declared, r, versions);
      OrphansWithoutRoot(old(orphans), f, key, orphan, orphans);
    }

    /** Every child of the erased root but the first becomes an orphan waiting for it. */
    method OrphanOtherChildren(currentRoot: VersionName, children: set<VersionName>, first: VersionName)
      requires children <= versions.Keys && first in children && currentRoot !in orphans
      modifies this`versions, this`orphans
      ensures versions == map n | n in old(versions) ::
                            if n in children - {first} then old(versions)[n].(parent := None) else old(versions)[n]
      ensures orphans == if children == {first} then old(orphans) else old(orphans)[currentRoot := children - {first}]
    {
      var rest := children - {first};
      while rest != {}
        invariant rest <= children - {first}
        invariant versions.Keys == old(versions).Keys
        invariant forall n | n in versions ::
            versions[n] == if n in children - {first} - rest then old(versions)[n].(parent := None) else old(versions)[n]
        invariant orphans == if rest == children - {first} then old(orphans)
                             else old(orphans)[currentRoot := children - {first} - rest]
      {
        var child := Least(rest);
        versions := versions[child := versions[child].(parent := None)];
        InsertOrphan(currentRoot, child);
        ghost var done := children - {first} - rest;
        assert children - {first} - (rest - {child}) == done + {child};
        assert done == {} <==> rest == children - {first};
        rest := rest - {child};
      }
      assert children == {first} <==> children - {first} == {};
      assert children - {first} - {} == children - {first};
    }

    /** The lowest child of the erased root takes over. */
    method ReplaceRootFromChildren(ghost f: Forest)
      requires Linked(f) && f.Valid() && root.Some?
      requires Kids(f.declared, f.root.value) != {}
      modifies this`versions, this`rootAbsent, this`root, this`orphans
      ensures Linked(EraseRoot(f))
    {
      hide VersionsOf, Stores.OrphansOf, Forest.Valid, Kids, EraseRoot;
      RootChildren(versions, orphans, f);
      var currentRoot := root.value;
      var children := versions[currentRoot].children;
      var first := Least(children);
      versions := versions[first := versions[first].(parent := None)];
      OrphanOtherChildren(currentRoot, children, first);
      versions := versions - {currentRoot};
      rootAbsent, root := currentRoot, Some(first);
      RootForked(old(versions), old(orphans), f, first, versions, orphans);
    }

    method ReplaceRoot(ghost f: Forest)
      requires Linked(f) && f.Valid() && root.Some? && f.declared - {f.root.value} != map[]
      modifies this`versions, this`rootAbsent, this`root, this`orphans, this`tips
      ensures Linked(EraseRoot(f))
      ensures tips == old(tips) - {f.root.value}
    {
      hide VersionsOf, Stores.OrphansOf, Forest.Valid, Kids, EraseRoot, Grounded;
      RootChildren(versions, orphans, f);
      if root.value in tips {
        tips := tips - {root.value};
      }
      if versions[root.value].children == {} {
        OrphansRemain(orphans, f);
        ReplaceRootFromOrphans(f);
      } else {
        ReplaceRootFromChildren(f);
      }
    }

    // -------------------------------------------------------------- inserting

    /** Makes the absent parent of the root, just inserted, its parent, and moves root up its branch. */
    method UnorphanRoot(parent: VersionName, isRootOrOrphan: bool, oldVersion: VersionName, ghost d: Links)
      requires root.Some? && root.value in versions
      requires !isRootOrOrphan ==>
                 && Grounded(d) && parent in d && root.value in d
                 && VersionsOf(versions[root.value := versions[root.value].(parent := Some(parent))], d)
                 && Stores.OrphansOf(orphans, Forest(d, root))
      modifies this`versions, this`rootAbsent, this`root, this`orphans
      ensures versions == old(versions[root.value := versions[root.value].(parent := Some(parent))])
      ensures isRootOrOrphan ==> rootAbsent == oldVersion && root == Some(parent) && orphans == old(orphans)
      ensures !isRootOrOrphan ==>
                && root == Some(Front(d, parent)) && rootAbsent == d[Front(d, parent)]
                && Stores.OrphansOf(orphans, Forest(d, root))
    {
      var r := root.value;
      versions := versions[r := versions[r].(parent := Some(parent))];
      if isRootOrOrphan {
        rootAbsent, root := oldVersion, Some(parent);
      } else {
        // Walks up to a front; the old root waits for the new version, so this front is another one.
        var newRoot := parent;
        while versions[newRoot].parent.Some?
          invariant newRoot in d && Front(d, newRoot) == Front(d, parent)
          modifies {}
          decreases |Branch(d, newRoot)|
        {
          BranchStep(d, newRoot);
          newRoot := versions[newRoot].parent.value;
        }
        BranchStep(d, newRoot);
        var key := FindOrphan(newRoot);
        FrontIsOrphan(orphans, d, r, newRoot);
        rootAbsent := key.value;
        root := Some(newRoot);
        EraseOrphan(key.value, newRoot);
        OrphansAfterPromotion(old(orphans), d, r, newRoot, orphans);
      }
    }

    method SetVersionAsChildOfItsParent(v: VersionName)
      requires v in versions && versions[v].parent.Some?
      requires versions[v].parent.value in versions && versions[v].parent.value != v
      modifies this`versions, this`tips
      ensures var p := old(versions)[v].parent.value;
              && versions == old(versions)[p := old(versions)[p].(children := old(versions)[p].children + {v})]
              && tips == if old(versions)[p].children == {} then old(tips) - {p} else old(tips)
    {
      var p := versions[v].parent.value;
      if versions[p].children == {} {
        tips := tips - {p};
      }
      versions := versions[p := versions[p].(children := versions[p].children + {v})];
    }

    // -------------------------------------------------------------- the checks of Put

    /** Walks down from itr, always along the lowest child, looking for v among those lowest children. */
    method CheckVersionNotInBranch(itr: VersionName, v: VersionName, ghost d: Links) returns (found: bool)
      requires VersionsOf(versions, d) && Grounded(d) && itr in d
      ensures found <==> LowestBelow(d, itr, v)
      decreases Subtree(d, itr)
    {
      var current := itr;
      while true
        invariant current in d && Subtree(d, current) <= Subtree(d, itr)
        invariant LowestBelow(d, current, v) <==> LowestBelow(d, itr, v)
        decreases Subtree(d, current)
      {
        LowestBelowStep(d, current, v);
        SubtreeStep(d, current);
        var children := versions[current].children;
        if children == {} {
          return false;
        }
        var first := Least(children);
        if first == v {
          return true;
        }
        found := false;
        var others := children - {first};
        while others != {}
          invariant others <= children - {first}
          invariant found <==> exists c :: c in children - {first} - others && LowestBelow(d, c, v)
        {
          var child := Least(others);
          var thrown := CheckVersionNotInBranch(child, v, d);
          assert children - {first} - (others - {child}) == (children - {first} - others) + {child};
          found := found || thrown;
          others := others - {child};
        }
        assert children - {first} - {} == children - {first};
        if found {
          return true;
        }
        assert forall c :: c in children && LowestBelow(d, c, v) ==> c == first;
        current := first;
      }
    }

    /** True if new_ exists under the same parent; an error if it exists under another one. */
    method NewVersionPreExists(old_: VersionName, new_: VersionName, ghost f: Forest) returns (r: Result<bool>)
      requires Linked(f)
      ensures r == if new_ !in f.declared then Ok(false)
                   else if f.declared[new_] == old_ then Ok(true) else Err(InvalidArgument)
    {
      if new_ !in versions {
        return Ok(false);
      }
      if versions[new_].parent.None? {
        if root == Some(new_) {
          return if rootAbsent == old_ then Ok(true) else Err(InvalidArgument);
        }
        var key := FindOrphan(new_);
        assert new_ in f.OrphansOf(f.declared[new_]);
        return if key == Some(old_) then Ok(true) else Err(InvalidArgument);
      }
      return if versions[new_].parent.value == old_ then Ok(true) else Err(InvalidArgument);
    }

    /** Looks for the parent below each of the orphans waiting for the new version. */
    method CheckOrphans(waiting: set<VersionName>, parent: Option<VersionName>, ghost d: Links)
      returns (children: set<VersionName>, cycle: bool)
      requires VersionsOf(versions, d) && Grounded(d) && waiting <= d.Keys
      ensures children == waiting
      ensures cycle <==> parent.Some? && exists a :: a in waiting && LowestBelow(d, a, parent.value)
    {
      children, cycle := {}, false;
      var rest := waiting;
      while rest != {}
        invariant rest <= waiting && children == waiting - rest
        invariant cycle <==> parent.Some? && exists a :: a in children && LowestBelow(d, a, parent.value)
      {
        var orphan := Least(rest);
        if parent.Some? {
          var thrown := CheckVersionNotInBranch(orphan, parent.value, d);
          cycle := cycle || thrown;
        }
        children := children + {orphan};
        rest := rest - {orphan};
      }
    }

    /** Gathers the versions new_ would adopt and looks for its parent below them. */
    method CheckForUnorphaning(new_: VersionName, parent: Option<VersionName>, ghost f: Forest)
      returns (children: set<VersionName>, unorphansRoot: bool, count: nat, cycle: bool)
      requires Linked(f) && f.Valid() && new_ !in f.declared && new_.IsInitialised()
      requires parent.Some? ==> parent.value in f.declared
      ensures children == Kids(f.declared, new_)
      ensures unorphansRoot == AdoptsRoot(f, new_)
      ensures count == |f.OrphansOf(new_)|
      ensures cycle <==> parent.Some? && exists a :: a in Kids(f.declared, new_) && LowestBelow(f.declared, a, parent.value)
    {
      hide VersionsOf;
      WaitingFor(Value(), f, new_);
      var waiting := if new_ in orphans then orphans[new_] else {};
      count := |waiting|;
      children, cycle := CheckOrphans(waiting, parent, f.declared);
      unorphansRoot := rootAbsent.IsInitialised() && rootAbsent == new_;
      if unorphansRoot {
        if parent.Some? {
          var thrown := CheckVersionNotInBranch(root.value, parent.value, f.declared);
          cycle := cycle || thrown;
        }
        children := children + {root.value};
      }
    }

    /** Decides whether a branch too many can be avoided by erasing the root. */
    method CheckBranchCount(parent: Option<VersionName>, isOrphan: bool, unorphanedCount: nat, eraseExistingRoot: bool,
                            old_: VersionName, new_: VersionName, ghost f: Forest)
      returns (r: Result<bool>)
      requires VersionsOf(versions, f.declared) && tips == Tips(f.declared) && root == f.root
      requires f.root.Some? ==> f.root.value in f.declared
      requires isOrphan == IsOrphanPut(f, old_, new_)
      requires parent == if IsRootPut(f, old_, new_) || isOrphan then None else Some(old_)
      requires unorphanedCount == 0 <==> f.OrphansOf(new_) == {}
      requires AtBranchLimit(f, limits, new_) ==> !IsRootPut(f, old_, new_)
      ensures r == if !(AtBranchLimit(f, limits, new_) && NeedsNewBranch(f, old_, new_)) then Ok(eraseExistingRoot)
                   else if f.RootSet() !! Tips(f.declared) then Err(CannotExceedLimit) else Ok(true)
    {
      if |tips| == limits.maxBranches && unorphanedCount == 0 {
        if isOrphan || versions[parent.value].children != {} {
          // A root without children is a branch of its own.
          var rootIsTip := root.Some? && versions[root.value].children == {};
          assert rootIsTip <==> !(f.RootSet() !! tips);
          return if rootIsTip then Ok(true) else Err(CannotExceedLimit);
        }
      }
      return Ok(eraseExistingRoot);
    }

    /** Adds the version, links the orphans it adopts to it, and it to its parent. */
    method LinkVersion(new_: VersionName, parent: Option<VersionName>, children: set<VersionName>, unorphanCount: nat)
      requires new_ !in versions && parent != Some(new_)
      requires parent.Some? ==> parent.value in versions
      requires new_ in orphans ==> orphans[new_] != {}
      requires unorphanCount == |WaitingIn(orphans, new_)| && WaitingIn(orphans, new_) <= versions.Keys
      modifies this`versions, this`orphans, this`tips
      ensures versions == LinkedVersions(old(versions), new_, Details(parent, children), WaitingIn(old(orphans), new_))
      ensures orphans == old(orphans) - {new_}
      ensures tips == if parent.Some? && old(versions)[parent.value].children == {} then old(tips) - {parent.value} else old(tips)
    {
      versions := versions[new_ := Details(parent, children)];
      if unorphanCount != 0 {
        Unorphan(new_);
      }
      if parent.Some? {
        SetVersionAsChildOfItsParent(new_);
      }
    }

    /** Files new orphans and settles which version is the root. */
    method SettleRoot(new_: VersionName, isRoot: bool, isOrphan: bool, old_: VersionName,
                      unorphansExistingRoot: bool, eraseExistingRoot: bool, ghost f: Forest)
      returns (removed: Option<VersionName>)
      requires f.Valid() && new_ !in f.declared && new_.IsInitialised() && !BreaksForest(f, old_, new_)
      requires !TwoRoots(f, old_, new_)
      requires isRoot == IsRootPut(f, old_, new_) && isOrphan == IsOrphanPut(f, old_, new_)
      requires unorphansExistingRoot == AdoptsRoot(f, new_)
      requires !((isRoot || unorphansExistingRoot) && eraseExistingRoot)
      requires RootOf(rootAbsent, root, f) && Grafted(versions, orphans, f, old_, new_)
      modifies this`versions, this`rootAbsent, this`root, this`orphans, this`tips
      ensures removed == if eraseExistingRoot then f.root else None
      ensures Linked(AfterInsert(f, old_, new_, eraseExistingRoot))
      ensures tips == if eraseExistingRoot then old(tips) - f.RootSet() else old(tips)
    {
      hide VersionsOf;
      ghost var g := Grown(f, old_, new_);
      GrownValid(f, old_, new_);
      if isOrphan && !unorphansExistingRoot {
        InsertOrphan(old_, new_);
      }
      if isRoot && rootAbsent.IsInitialised() && !unorphansExistingRoot {
        // The old root goes on as one of those that wait.
        InsertOrphan(rootAbsent, root.value);
      }
      assert orphans == PlacedOrphans(old(orphans), f, old_, new_);
      removed := None;
      if isRoot {
        if unorphansExistingRoot {
          UnorphanRoot(new_, true, old_, g.declared);
        } else {
          rootAbsent, root := old_, Some(new_);
        }
      } else if unorphansExistingRoot {
        UnorphanRoot(new_, isOrphan, old_, g.declared);
        if !isOrphan {
          BranchAfterAdd(f.declared, old_, new_, old_);
          BranchStep(g.declared, new_);
        }
      } else if eraseExistingRoot {
        removed := root;
        assert new_ in g.declared - {g.root.value};
        ReplaceRoot(g);
      }
    }

    method MarkTip(new_: VersionName, ghost f: Forest)
      requires Linked(f) && new_ in f.declared
      requires Tips(f.declared) == if Kids(f.declared, new_) == {} then tips + {new_} else tips
      modifies this`tips
      ensures Represents(Value(), f)
    {
      if versions[new_].children == {} {
        tips := tips + {new_};
      }
    }

    /** Links the new version; the tips lose its parent, the root and the orphans are settled later. */
    method Graft(new_: VersionName, parent: Option<VersionName>, children: set<VersionName>, old_: VersionName,
                 unorphanCount: nat, ghost f: Forest)
      requires Linked(f) && f.Valid() && tips == Tips(f.declared)
      requires new_ !in f.declared && new_.IsInitialised() && !BreaksForest(f, old_, new_) && !TwoRoots(f, old_, new_)
      requires parent == if IsRootPut(f, old_, new_) || IsOrphanPut(f, old_, new_) then None else Some(old_)
      requires children == Kids(f.declared, new_) && unorphanCount == |f.OrphansOf(new_)|
      modifies this`versions, this`orphans, this`tips
      ensures Grafted(versions, orphans, f, old_, new_) && tips == Tips(f.declared) - {old_}
    {
      hide Grafted, Grounded;
      WaitingFor(Value(), f, new_);
      LinkVersion(new_, parent, children, unorphanCount);
      GraftedByLinking(old(versions), old(orphans), f, old_, new_, Details(parent, children));
      ParentLosesTip(old(versions), f.declared, old_);
    }

    method Insert(new_: VersionName, parent: Option<VersionName>, children: set<VersionName>, isRoot: bool,
                  isOrphan: bool,
                  old_: VersionName, unorphansExistingRoot: bool, unorphanCount: nat, eraseExistingRoot: bool, ghost f: Forest)
      returns (removed: Option<VersionName>)
      requires Linked(f) && f.Valid() && tips == Tips(f.declared)
      requires new_ !in f.declared && new_.IsInitialised() && !BreaksForest(f, old_, new_) && !TwoRoots(f, old_, new_)
      requires isRoot == IsRootPut(f, old_, new_) && isOrphan == IsOrphanPut(f, old_, new_)
      requires parent == if isRoot || isOrphan then None else Some(old_)
      requires children == Kids(f.declared, new_) && unorphansExistingRoot == AdoptsRoot(f, new_)
      requires unorphanCount == |f.OrphansOf(new_)|
      requires !((isRoot || unorphansExistingRoot) && eraseExistingRoot)
      modifies this`versions, this`rootAbsent, this`root, this`orphans, this`tips
      ensures removed == if eraseExistingRoot then f.root else None
      ensures Represents(Value(), AfterInsert(f, old_, new_, eraseExistingRoot))
    {
      hide Grafted, VersionsOf, Stores.OrphansOf, RootOf, Represents, Forest.Valid, Kids, Tips, IsRootPut, IsOrphanPut, AdoptsRoot;
      Graft(new_, parent, children, old_, unorphanCount, f);
      removed := SettleRoot(new_, isRoot, isOrphan, old_, unorphansExistingRoot, eraseExistingRoot, f);
      TipsInserted(f, old_, new_, eraseExistingRoot);
      MarkTip(new_, AfterInsert(f, old_, new_, eraseExistingRoot));
    }

    /**
     Declares new_ under old_.  Nothing changes unless the outcome is Inserted; then the declared
     parents gain exactly that pair and lose at most the root.
     */
    method Put(old_: VersionName, new_: VersionName) returns (r: Result<Option<VersionName>>)
      requires Valid() && PutIsSafe(Contents(), limits, old_, new_)
      modifies this`versions, this`rootAbsent, this`root, this`orphans, this`tips
      ensures Valid()
      ensures var o := old(PutSpec(Contents(), limits, old_, new_));
              && (o.Inserted? ==> Contents() == o.forest)
              && (!o.Inserted? ==> Value() == old(Value()))
              && r == PutResult(o, new_)
    {
      ghost var f := Contents();
      r := CheckAndInsert(old_, new_, f);
      ghost var o := PutSpec(f, limits, old_, new_);
      if o.Inserted? {
        PutKeepsForestIff(f, limits, old_, new_);
        RepresentsWellFormed(Value(), o.forest);
      }
    }

    method CheckAndInsert(old_: VersionName, new_: VersionName,
                          ghost f: Forest) returns (r: Result<Option<VersionName>>)
      requires Represents(Value(), f) && f.Valid() && limits.Valid() && f.Within(limits)
      requires PutIsSafe(f, limits, old_, new_)
      modifies this`versions, this`rootAbsent, this`root, this`orphans, this`tips
      ensures PutEffect(PutSpec(f, old(limits), old_, new_), old(Value()), Value(), new_, r)
    {
      if !new_.IsInitialised() {
        return Err(InvalidArgument);
      }
      var preExists :- NewVersionPreExists(old_, new_, f);
      if preExists {
        return Ok(None);
      }
      var isRoot := !old_.IsInitialised() || versions == map[] || new_.index == 0;
      if isRoot && root.Some? && !rootAbsent.IsInitialised() {
        return Err(InvalidArgument);
      }
      var parent := if !isRoot && old_ in versions then Some(old_) else None;
      var isOrphan := parent.None? && !isRoot;
      var children, unorphansRoot, unorphanCount, cycle := CheckForUnorphaning(new_, parent, f);
      if parent.Some? {
        NoticesCycleIff(f, old_, new_);
      }
      if cycle {
        return Err(InvalidArgument);
      }
      // A root of index 0 and an absent parent of index 0 would be two different roots.
      if isOrphan && root.value.index == 0 && old_.index == 0 && root.value.id != old_.id {
        return Err(InvalidArgument);
      }
      r := InsertWithinLimits(old_, new_, parent, children, isRoot, isOrphan, unorphansRoot, unorphanCount, f);
    }

    method InsertWithinLimits(old_: VersionName, new_: VersionName, parent: Option<VersionName>,
                              children: set<VersionName>,
                              isRoot: bool, isOrphan: bool, unorphansRoot: bool, unorphanCount: nat, ghost f: Forest)
      returns (r: Result<Option<VersionName>>)
      requires Represents(Value(), f) && f.Valid() && limits.Valid() && f.Within(limits)
      requires new_ !in f.declared && new_.IsInitialised() && !TwoRoots(f, old_, new_)
      requires var o := LimitSpec(f, limits, old_, new_); !o.Undefined? && (o.Inserted? ==> !BreaksForest(f, old_, new_))
      requires isRoot == IsRootPut(f, old_, new_) && isOrphan == IsOrphanPut(f, old_, new_)
      requires parent == if isRoot || isOrphan then None else Some(old_)
      requires children == Kids(f.declared, new_) && unorphansRoot == AdoptsRoot(f, new_)
      requires unorphanCount == |f.OrphansOf(new_)|
      modifies this`versions, this`rootAbsent, this`root, this`orphans, this`tips
      ensures PutEffect(LimitSpec(f, old(limits), old_, new_), old(Value()), Value(), new_, r)
    {
      ghost var o := LimitSpec(f, limits, old_, new_);
      SameCount(versions, f.declared);
      assert unorphanCount == 0 <==> f.OrphansOf(new_) == {};
      var eraseExistingRoot := false;
      if |versions| == limits.maxVersions {
        if unorphansRoot || isRoot {
          return Ok(Some(new_));
        }
        eraseExistingRoot := true;
      }
      eraseExistingRoot :- CheckBranchCount(parent, isOrphan, unorphanCount, eraseExistingRoot, old_, new_, f);
      assert o == Inserted(AfterInsert(f, old_, new_, eraseExistingRoot), if eraseExistingRoot then f.root else None);
      var removed := Insert(new_, parent, children, isRoot, isOrphan, old_, unorphansRoot, unorphanCount, eraseExistingRoot, f);
      assert removed == o.removed;
      EffectOfInsert(o, old(Value()), Value(), new_);
      return Ok(removed);
    }

    // -------------------------------------------------------------- queries

    /** All tips, from the highest name to the lowest. */
    method Get() returns (result: seq<VersionName>)
      requires Valid()
      ensures forall n :: n in result <==> n in Tips(Contents().declared)
      ensures forall i, j :: 0 <= i < j < |result| ==> Less(result[j], result[i])
    {
      result := Descending(tips);
    }

    /** An ordered set from its end to its beginning. */
    static method Descending(s: set<VersionName>) returns (result: seq<VersionName>)
      ensures forall n :: n in result <==> n in s
      ensures forall i, j :: 0 <= i < j < |result| ==> Less(result[j], result[i])
    {
      var ascending := [];
      var rest := s;
      while rest != {}
        invariant rest <= s
        invariant forall n :: n in ascending <==> n in s - rest
        invariant forall n, m | n in ascending && m in rest :: Less(n, m)
        invariant forall i, j :: 0 <= i < j < |ascending| ==> Less(ascending[i], ascending[j])
      {
        var least := Least(rest);
        ascending := ascending + [least];
        rest := rest - {least};
      }
      result := Reversed(ascending);
    }

    method CheckBranchTip(name: VersionName, ghost d: Links) returns (r: Result<()>)
      requires versions.Keys == d.Keys && tips == Tips(d)
      ensures r == TipResult(d, name)
    {
      if name !in tips {
        return Err(if name !in versions then NoSuchElement else InvalidArgument);
      }
      return Ok(());
    }

    /** The versions from a tip up to the front of its branch. */
    method GetBranch(branchTip: VersionName) returns (r: Result<seq<VersionName>>)
      requires Valid()
      ensures r.Ok? <==> branchTip in Tips(Contents().declared)
      ensures r.Ok? ==> r.value == Branch(Contents().declared, branchTip)
      ensures r.Err? ==> r.error == if branchTip in Contents().declared then InvalidArgument else NoSuchElement
    {
      ghost var d := Contents().declared;
      var _ :- CheckBranchTip(branchTip, d);
      var result := WalkUp(branchTip, d);
      return Ok(result);
    }

    method WalkUp(from: VersionName, ghost d: Links) returns (result: seq<VersionName>)
      requires VersionsOf(versions, d) && Grounded(d) && from in d
      ensures result == Branch(d, from)
    {
      var itr := Some(from);
      result := [];
      while itr.Some?
        invariant itr.Some? ==> itr.value in d && result + Branch(d, itr.value) == Branch(d, from)
        invariant itr.None? ==> result == Branch(d, from)
        decreases if itr.Some? then |Branch(d, itr.value)| else 0
      {
        BranchStep(d, itr.value);
        result := result + [itr.value];
        itr := versions[itr.value].parent;
      }
    }

    // -------------------------------------------------------------- deleting

    /** Erases a childless front whose tip has already been erased. */
    method EraseFrontOfBranch(front: VersionName, ghost f: Forest)
      requires Linked(f) && f.Valid() && IsFront(f.declared, front) && Kids(f.declared, front) == {}
      requires tips == Tips(f.declared) - {front}
      modifies this`versions, this`rootAbsent, this`root, this`orphans
      ensures Represents(Value(), EraseFront(f, front))
    {
      hide FirstOrphan, VersionsOf, Stores.OrphansOf, Forest.Valid, Grounded, Kids, EraseRoot;
      FrontErased(f, front);
      TipsAfterFrontRemoved(f.declared, front);
      if root == Some(front) {
        KeysAre(orphans, f);
        if orphans == map[] {
          EraseLast(f);
        } else {
          ReplaceRootFromOrphans(f);
        }
      } else {
        EraseOrphanFront(front, f);
      }
    }

    method EraseLast(ghost f: Forest)
      requires Linked(f) && f.Valid() && root.Some? && orphans == map[]
      requires Kids(f.declared, f.root.value) == {} && f.OrphanKeys() == {}
      modifies this`versions, this`rootAbsent, this`root
      ensures Linked(EMPTY_FOREST) && EraseRoot(f) == EMPTY_FOREST
    {
      ReplacementFound(f);
      NothingLeft(f);
      versions := versions - {root.value};
      rootAbsent, root := DEFAULT_NAME, None;
    }

    method EraseOrphanFront(front: VersionName, ghost f: Forest)
      requires Linked(f) && f.Valid() && IsFront(f.declared, front) && Kids(f.declared, front) == {} && root != Some(front)
      modifies this`versions, this`orphans
      ensures Linked(EraseFront(f, front))
    {
      hide VersionsOf, Grounded;
      var key := FindOrphan(front);
      assert front in f.OrphansOf(f.declared[front]);
      EraseOrphan(key.value, front);
      versions := versions - {front};
      VersionsWithoutFront(old(versions), f.declared, front, versions);
      OrphansWithoutOrphan(old(orphans), f, front, orphans);
    }

    /**
     Erases a tip and the versions above it up to a fork: exactly the longest prefix of the branch
     in which every version after the tip has one child.
     */
    method DeleteBranchUntilFork(branchTip: VersionName) returns (r: Result<()>)
      requires Valid()
      modifies this`versions, this`rootAbsent, this`root, this`orphans, this`tips
      ensures Valid()
      ensures r.Ok? <==> branchTip in Tips(old(Contents().declared))
      ensures r.Err? ==> r.error == if branchTip in old(Contents().declared) then InvalidArgument else NoSuchElement
      ensures r.Ok? ==> Contents() == DeleteSpec(old(Contents()), branchTip) && tips == old(tips) - {branchTip}
      ensures r.Err? ==> Value() == old(Value())
    {
      hide Represents;
      ghost var f := Contents();
      r := CheckAndDelete(branchTip, f);
      if r.Ok? {
        DeleteKeepsForest(f, branchTip, limits);
        RepresentsWellFormed(Value(), DeleteSpec(f, branchTip));
      }
    }

    method CheckAndDelete(branchTip: VersionName, ghost f: Forest) returns (r: Result<()>)
      requires Represents(Value(), f) && f.Valid()
      modifies this`versions, this`rootAbsent, this`root, this`orphans, this`tips
      ensures r == TipResult(f.declared, branchTip)
      ensures r.Ok? ==> Represents(Value(), DeleteSpec(f, branchTip)) && tips == old(tips) - {branchTip}
      ensures r.Err? ==> Value() == old(Value())
    {
      r := CheckBranchTip(branchTip, f.declared);
      if r.Ok? {
        DeleteKeepsForest(f, branchTip, limits);
        tips := tips - {branchTip};
        EraseUpwards(branchTip, f);
      }
    }

    /** Erases a tip which has a parent; either the parent is a fork, or it is the next tip. */
    method EraseTip(itr: VersionName, p: VersionName, ghost f: Forest) returns (fork: bool)
      requires Linked(f) && f.Valid() && itr in Tips(f.declared) && tips == Tips(f.declared) - {itr}
      requires f.declared[itr] == p && p in f.declared
      modifies this`versions
      ensures var g := Forest(f.declared - {itr}, f.root);
              && (fork <==> Kids(g.declared, p) != {})
              && (fork ==> Represents(Value(), g))
              && (!fork ==> Linked(g) && p in Tips(g.declared) && tips == Tips(g.declared) - {p})
    {
      hide Forest.Valid, Grounded, VersionsOf, Stores.OrphansOf, RootOf, Kids;
      LeafRemoved(f, itr);
      TipErased(f.declared, itr);
      TipIsErased(versions, orphans, rootAbsent, root, f, itr);
      versions := versions[p := versions[p].(children := versions[p].children - {itr})];
      versions := versions - {itr};
      fork := versions[p].children != {};
    }

    method EraseUpwards(branchTip: VersionName, ghost f: Forest)
      requires Linked(f) && f.Valid() && branchTip in Tips(f.declared) && tips == Tips(f.declared) - {branchTip}
      modifies this`versions, this`rootAbsent, this`root, this`orphans
      ensures Represents(Value(), DeleteSpec(f, branchTip))
    {
      var itr := branchTip;
      ghost var g := f;
      while true
        invariant Linked(g) && g.Valid() && itr in Tips(g.declared) && tips == Tips(g.declared) - {itr}
        invariant DeleteSpec(g, itr) == DeleteSpec(f, branchTip)
        decreases |g.declared|
      {
        var parent := versions[itr].parent;
        if parent.None? {
          DeleteAtFront(g, itr);
          EraseFrontOfBranch(itr, g);
          return;
        }
        DeleteStep(g, itr);
        LeafRemoved(g, itr);
        var fork := EraseTip(itr, parent.value, g);
        if fork {
          return;
        }
        g := Forest(g.declared - {itr}, g.root);
        itr := parent.value;
      }
    }

    method Clear()
      requires Valid()
      modifies this`versions, this`rootAbsent, this`root, this`orphans, this`tips
      ensures Valid() && Contents() == EMPTY_FOREST
    {
      versions := map[];
      rootAbsent, root := DEFAULT_NAME, None;
      tips := {};
      orphans := map[];
      assert Represents(Value(), EMPTY_FOREST);
      RepresentsWellFormed(Value(), EMPTY_FOREST);
    }

    // -------------------------------------------------------------- serialising

    /** Writes the tree of `from` onto the last run, which is open. */
    method BranchToCereal(from: VersionName, branches: seq<SerialBranch>, ghost d: Links) returns (r: seq<SerialBranch>)
      requires from in d && branches != [] && |versions| < UINT32_SIZE && Grounded(d) && VersionsOf(versions, d)
      ensures r == Joined(branches, Encode(d, from))
      decreases Subtree(d, from), 1
    {
      hide Encode, EncodeKids, Joined, AddName, Ascending;
      var itr := from;
      r := branches;
      while true
        invariant itr in d && r != [] && Subtree(d, itr) <= Subtree(d, from)
        invariant Joined(r, Encode(d, itr)) == Joined(branches, Encode(d, from))
        decreases Subtree(d, itr)
      {
        var children := versions[itr].children;
        if children == {} {
          JoinTip(d, itr, r);
          r := AddName(r, SerialName(itr, None));
          return;
        }
        SubtreeStep(d, itr);
        if |children| == 1 {
          JoinSingle(d, itr, r, Least(children));
          r := AddName(r, SerialName(itr, None));
          itr := Least(children);
        } else {
          ChildrenCount(versions, d, itr);
          JoinFork(d, itr, r);
          r := AddName(r, SerialName(itr, Some(|children| % UINT32_SIZE)));
          r := ForksToCereal(itr, Ascending(children), r, d);
          return;
        }
      }
    }

    method ForksToCereal(p: VersionName, children: seq<VersionName>, branches: seq<SerialBranch>, ghost d: Links)
      returns (r: seq<SerialBranch>)
      requires VersionsOf(versions, d) && Grounded(d) && p in d && |versions| < UINT32_SIZE
      requires forall c | c in children :: c in Kids(d, p)
      ensures r == branches + EncodeKids(d, p, children)
      decreases Subtree(d, p), 0
    {
      hide Encode, EncodeKids, Joined;
      r := branches;
      var k := 0;
      assert children[0..] == children;
      while k < |children|
        invariant 0 <= k <= |children|
        invariant r + EncodeKids(d, p, children[k..]) == branches + EncodeKids(d, p, children)
      {
        SubtreeStep(d, p);
        OneMoreKid(d, p, children, k, r);
        r := BranchToCereal(children[k], r + [SerialBranch(None, [])], d);
        k := k + 1;
      }
      NoKids(d, p, children[k..]);
    }

    /** Writes the trees of some fronts, each headed by its absent parent. */
    method FrontToCereal(absent: VersionName, n: VersionName, branches: seq<SerialBranch>,
                         ghost d: Links) returns (r: seq<SerialBranch>)
      requires VersionsOf(versions, d) && Grounded(d) && n in d && |versions| < UINT32_SIZE && absent == d[n]
      ensures r == branches + EncodeFront(d, n)
    {
      hide Encode, EncodeFront, Joined;
      var header := if absent.IsInitialised() then Some(absent) else None;
      JoinFront(d, n, branches);
      r := BranchToCereal(n, branches + [SerialBranch(header, [])], d);
    }

    method Serialise() returns (r: Serialised)
      requires Valid()
      ensures r == SerialiseSpec(Contents(), limits)
    {
      ghost var f := Contents();
      var branches := WriteBranches(f);
      r := Serialised(limits, branches);
    }

    method WriteBranches(ghost f: Forest) returns (branches: seq<SerialBranch>)
      requires Linked(f) && f.Valid() && |versions| < UINT32_SIZE
      ensures branches == SerialiseSpec(f, limits).branches
    {
      hide EncodeFront, EncodeFronts, OrphansInOrder, Ascending, Stores.OrphansOf, VersionsOf;
      FrontsAreFronts(f);
      KeysAre(orphans, f);
      ghost var rest := OrphansInOrder(f, Ascending(f.OrphanKeys()));
      ghost var fronts := FrontsInOrder(f);
      branches := [];
      if root.Some? {
        assert fronts == [root.value] + rest;
        assert forall n | n in rest :: n in fronts;
        OneMoreFront(f.declared, root.value, rest, branches);
        branches := FrontToCereal(rootAbsent, root.value, branches, f.declared);
      } else {
        assert fronts == rest;
      }
      branches := OrphanSetsToCereal(Ascending(orphans.Keys), branches, f);
    }

    method OrphanSetsToCereal(keys: seq<VersionName>, branches: seq<SerialBranch>,
                              ghost f: Forest) returns (r: seq<SerialBranch>)
      requires Linked(f) && f.Valid() && |versions| < UINT32_SIZE && forall k | k in keys :: k in orphans
      requires forall n | n in OrphansInOrder(f, keys) :: n in f.declared
      ensures r == branches + EncodeFronts(f.declared, OrphansInOrder(f, keys))
    {
      hide EncodeFront, EncodeFronts, OrphansInOrder, Ascending;
      ghost var d := f.declared;
      r := branches;
      var k := 0;
      assert keys[0..] == keys;
      while k < |keys|
        invariant 0 <= k <= |keys|
        invariant forall n | n in OrphansInOrder(f, keys[k..]) :: n in d
        invariant r + EncodeFronts(d, OrphansInOrder(f, keys[k..])) == branches + EncodeFronts(d, OrphansInOrder(f, keys))
      {
        assert keys[k] in keys;
        OrphansInOrderStep(f, keys, k);
        r := OrphansToCereal(keys[k], Ascending(orphans[keys[k]]), r, f, OrphansInOrder(f, keys[k + 1..]));
        k := k + 1;
      }
      NoMoreFronts(f, keys[k..]);
    }

    method OrphansToCereal(key: VersionName, waiting: seq<VersionName>, branches: seq<SerialBranch>,
                           ghost f: Forest, ghost more: seq<VersionName>)
      returns (r: seq<SerialBranch>)
      requires Linked(f) && f.Valid() && |versions| < UINT32_SIZE
      requires forall n | n in waiting + more :: n in f.declared
      requires forall n | n in waiting :: f.declared[n] == key
      ensures r + EncodeFronts(f.declared, more) == branches + EncodeFronts(f.declared, waiting + more)
    {
      hide EncodeFront, EncodeFronts;
      r := branches;
      var k := 0;
      assert waiting[0..] == waiting;
      while k < |waiting|
        invariant 0 <= k <= |waiting|
        invariant forall n | n in waiting[k..] + more :: n in f.declared
        invariant r + EncodeFronts(f.declared, waiting[k..] + more) == branches + EncodeFronts(f.declared, waiting + more)
      {
        assert waiting[k] in waiting;
        assert waiting[k..] + more == [waiting[k]] + (waiting[k + 1..] + more);
        OneMoreFront(f.declared, waiting[k], waiting[k + 1..] + more, r);
        r := FrontToCereal(key, waiting[k], r, f.declared);
        k := k + 1;
      }
      assert waiting[k..] + more == more;
    }

    // -------------------------------------------------------------- parsing

    method HandleFirstVersionInBranchFromCereal(parent: Option<VersionName>, branches: seq<SerialBranch>,
        i: nat) returns (ok: bool)
      requires i < |branches| && branches[i].names != [] && (parent.Some? ==> parent.value in versions)
      modifies this`versions, this`rootAbsent, this`root, this`orphans
      ensures ReadsAs(ParseFirst(old(Value()), parent, branches, i), ok, i + 1, Value())
    {
      var n := branches[i].names[0].name;
      if n in versions {
        return false;
      }
      versions := versions[n := Details(None, {})];
      if parent.Some? {
        AddChild(parent.value, n);
      } else {
        var absent := if branches[i].absentParent.Some? then branches[i].absentParent.value else DEFAULT_NAME;
        if root.None? {
          rootAbsent, root := absent, Some(n);
        } else {
          if !absent.IsInitialised() {
            return false;
          }
          InsertOrphan(absent, n);
        }
      }
      return true;
    }

    method AddChild(p: VersionName, c: VersionName)
      requires p in versions && c in versions && p != c
      modifies this`versions
      ensures Value() == LinkChild(old(Value()), p, c) && versions.Keys == old(versions.Keys)
    {
      versions := versions[p := versions[p].(children := versions[p].children + {c})];
      versions := versions[c := versions[c].(parent := Some(p))];
    }

    /** Reads run i and those which continue it; next is the index after them. */
    method BranchFromCereal(parent: Option<VersionName>, branches: seq<SerialBranch>, i: nat) returns (ok: bool,
                            next: nat)
      requires NoEmptyRun(branches) && (parent.Some? ==> parent.value in versions)
      modifies this`versions, this`rootAbsent, this`root, this`orphans, this`tips
      ensures ReadsAs(ParseBranch(old(Value()), parent, branches, i), ok, next, Value())
      decreases Rank(branches, i), 0
    {
      hide ParseNames;
      if i >= |branches| {
        return false, i;
      }
      assert branches[i] in branches;
      ok := HandleFirstVersionInBranchFromCereal(parent, branches, i);
      if !ok {
        return false, i;
      }
      ok, next := NamesFromCereal(branches[i].names, branches, i + 1);
    }

    /** Handles other versions in the branch, then what continues it. */
    method NamesFromCereal(names: seq<SerialName>, branches: seq<SerialBranch>, i: nat) returns (ok: bool, next: nat)
      requires NoEmptyRun(branches) && names != [] && names[0].name in versions
      modifies this`versions, this`rootAbsent, this`root, this`orphans, this`tips
      ensures ReadsAs(ParseNames(old(Value()), names[0], names[1..], branches, i), ok, next, Value())
      decreases Rank(branches, i), 3
    {
      hide ParseForks, ParseBranch, LinkChild;
      ghost var whole := ParseNames(Value(), names[0], names[1..], branches, i);
      var k := 1;
      while k < |names|
        invariant 1 <= k <= |names| && names[k - 1].name in versions
        invariant whole == ParseNames(Value(), names[k - 1], names[k..], branches, i)
      {
        assert names[k..][0] == names[k] && names[k..][1..] == names[k + 1..];
        if names[k].name in versions {
          return false, i;
        }
        versions := versions[names[k].name := Details(None, {})];
        AddChild(names[k - 1].name, names[k].name);
        k := k + 1;
      }
      assert names[k..] == [];
      ok, next := ContinueFromCereal(names[|names| - 1], branches, i);
    }

    /** After the last name of a run: a tip, or as many further runs as it says. */
    method ContinueFromCereal(last: SerialName, branches: seq<SerialBranch>, i: nat) returns (ok: bool, next: nat)
      requires NoEmptyRun(branches) && last.name in versions
      modifies this`versions, this`rootAbsent, this`root, this`orphans, this`tips
      ensures ReadsAs(ParseNames(old(Value()), last, [], branches, i), ok, next, Value())
      decreases Rank(branches, i), 2
    {
      if last.forkingChildCount.None? {
        tips := tips + {last.name};
        return true, i;
      }
      if last.forkingChildCount.value < 2 {
        return false, i;
      }
      ok, next := ForksFromCereal(last.name, last.forkingChildCount.value, branches, i);
    }

    method ForksFromCereal(parent: VersionName, count: nat, branches: seq<SerialBranch>, i: nat) returns (ok: bool,
                           next: nat)
      requires NoEmptyRun(branches) && parent in versions
      modifies this`versions, this`rootAbsent, this`root, this`orphans, this`tips
      ensures ReadsAs(ParseForks(old(Value()), parent, count, branches, i), ok, next, Value())
      decreases Rank(branches, i), 1
    {
      hide ParseBranch;
      var left := count;
      ok, next := true, i;
      ghost var whole := ParseForks(Value(), parent, count, branches, i);
      while left > 0
        invariant ok && parent in versions && next >= i && Rank(branches, next) <= Rank(branches, i)
        invariant whole == ParseForks(Value(), parent, left, branches, next)
        decreases left
      {
        ghost var read := ParseBranch(Value(), Some(parent), branches, next);
        ok, next := BranchFromCereal(Some(parent), branches, next);
        if !ok {
          return;
        }
        left := left - 1;
      }
    }

    /** The parsing constructor; on an error there is no container. */
    static method Parse(serialised: Serialised) returns (r: Result<StructuredDataVersions>)
      requires NoEmptyRun(serialised.branches)
      ensures r.Ok? ==> fresh(r.value) && ParseSpec(serialised) == Ok(r.value.Value())
      ensures r.Err? ==> ParseSpec(serialised) == Err(r.error)
    {
      if serialised.limits.maxVersions < 1 || serialised.limits.maxBranches < 1 {
        return Err(InvalidArgument);
      }
      var sdv := new StructuredDataVersions(serialised.limits.maxVersions, serialised.limits.maxBranches);
      var ok := sdv.BranchesFromCereal(serialised.branches);
      if !ok || |sdv.versions| > sdv.limits.maxVersions || |sdv.tips| > sdv.limits.maxBranches {
        return Err(ParsingError);
      }
      return Ok(sdv);
    }

    method BranchesFromCereal(branches: seq<SerialBranch>) returns (ok: bool)
      requires NoEmptyRun(branches)
      modifies this`versions, this`rootAbsent, this`root, this`orphans, this`tips
      ensures var read := ParseAll(old(Value()), branches, 0);
              (ok <==> read.Read?) && (ok ==> read.store == Value())
    {
      hide ParseBranch;
      ghost var whole := ParseAll(Value(), branches, 0);
      var i: nat := 0;
      while i < |branches|
        invariant whole == ParseAll(Value(), branches, i)
        decreases Rank(branches, i)
      {
        var next;
        ok, next := BranchFromCereal(None, branches, i);
        if !ok {
          return;
        }
        i := next;
      }
      ok := true;
    }

    // -------------------------------------------------------------- merging

    /** The next Put of a merge. */
    method PutNext(old_: VersionName, new_: VersionName, ghost rest: Puts) returns (r: Result<()>)
      requires Valid() && PutAll(Contents(), limits, [(old_, new_)] + rest) != Unsafe
      modifies this`versions, this`rootAbsent, this`root, this`orphans, this`tips
      ensures Valid()
      ensures r.Err? ==> old(PutAll(Contents(), limits, [(old_, new_)] + rest)) == Failed(r.error)
      ensures r.Ok? ==> old(PutAll(Contents(), limits, [(old_, new_)] + rest)) == PutAll(Contents(), limits, rest)
    {
      hide PutAll, PutSpec, PutIsSafe, PutResult, Store.WellFormed, Store.Abstract, Represents, Forest.Valid, Forest.Within;
      FirstPut(Contents(), limits, (old_, new_), rest);
      ErrorOfPut(PutSpec(Contents(), limits, old_, new_), new_);
      var put := Put(old_, new_);
      r := if put.Err? then Err(put.error) else Ok(());
    }

    /** Puts the tree of `from` into another container, parents before children. */
    method ApplyBranch(absentOrParent: VersionName, from: VersionName, newVersions: StructuredDataVersions,
                       ghost d: Links)
      returns (r: Result<()>)
      requires this != newVersions && VersionsOf(versions, d) && Grounded(d) && from in d && absentOrParent == d[from]
      requires newVersions.Valid() && PutAll(newVersions.Contents(), newVersions.limits, TreePuts(d, from)) != Unsafe
      modifies newVersions`versions, newVersions`rootAbsent, newVersions`root, newVersions`orphans, newVersions`tips
      ensures newVersions.Valid()
      ensures MergesAs(old(PutAll(newVersions.Contents(), newVersions.limits, TreePuts(d, from))), r, newVersions.Contents())
      decreases Subtree(d, from), 1
    {
      hide TreePuts, KidsPuts, PutAll, Ascending, PutSpec, PutIsSafe, Store.WellFormed, Store.Abstract, Represents, Forest.Valid, Forest.Within;
      hide Grounded, Subtree;
      var parent, itr := absentOrParent, from;
      ghost var whole := PutAll(newVersions.Contents(), newVersions.limits, TreePuts(d, from));
      while true
        invariant itr in d && parent == d[itr] && Subtree(d, itr) <= Subtree(d, from)
        invariant newVersions.Valid() && whole == PutAll(newVersions.Contents(), newVersions.limits, TreePuts(d, itr))
        decreases Subtree(d, itr)
      {
        TreePutsStep(d, itr);
        SubtreeStep(d, itr);
        r := newVersions.PutNext(parent, itr, KidsPuts(d, itr, Ascending(Kids(d, itr))));
        if r.Err? {
          return;
        }
        var children := versions[itr].children;
        if children == {} {
          NoPuts(newVersions.Contents(), newVersions.limits);
          return Ok(());
        }
        if |children| == 1 {
          parent := itr;
          itr := Least(children);
        } else {
          r := ApplyChildren(itr, Ascending(children), newVersions, d);
          return;
        }
      }
    }

    method ApplyChildren(p: VersionName, children: seq<VersionName>, newVersions: StructuredDataVersions,
                         ghost d: Links)
      returns (r: Result<()>)
      requires this != newVersions && VersionsOf(versions, d) && Grounded(d) && p in d && forall c | c in children :: c in Kids(d, p)
      requires newVersions.Valid()
      requires PutAll(newVersions.Contents(), newVersions.limits, KidsPuts(d, p, children)) != Unsafe
      modifies newVersions`versions, newVersions`rootAbsent, newVersions`root, newVersions`orphans, newVersions`tips
      ensures newVersions.Valid()
      ensures MergesAs(old(PutAll(newVersions.Contents(), newVersions.limits, KidsPuts(d, p, children))), r, newVersions.Contents())
      decreases Subtree(d, p), 0
    {
      hide TreePuts, KidsPuts, PutAll, Store.WellFormed, Store.Abstract, Represents, Forest.Valid, Forest.Within;
      hide VersionsOf, Grounded, Subtree, PutSpec, PutIsSafe;
      ghost var whole := PutAll(newVersions.Contents(), newVersions.limits, KidsPuts(d, p, children));
      var k := 0;
      assert children[0..] == children;
      while k < |children|
        invariant 0 <= k <= |children|
        invariant newVersions.Valid()
        invariant whole == PutAll(newVersions.Contents(), newVersions.limits, KidsPuts(d, p, children[k..]))
      {
        KidsPutsStep(d, p, children, k);
        SubtreeStep(d, p);
        SplitMerge(newVersions.Contents(), newVersions.limits, TreePuts(d, children[k]), KidsPuts(d, p, children[k + 1..]));
        r := ApplyBranch(p, children[k], newVersions, d);
        if r.Err? {
          return;
        }
        k := k + 1;
      }
      NoKidsPuts(d, p, children[k..]);
      NoPuts(newVersions.Contents(), newVersions.limits);
      r := Ok(());
    }

    /** Puts the trees of fronts waiting for the same absent parent. */
    method ApplyFronts(absent: VersionName, fronts: seq<VersionName>, newVersions: StructuredDataVersions,
                       ghost d: Links, ghost more: Puts)
      returns (r: Result<()>)
      requires this != newVersions && VersionsOf(versions, d) && Grounded(d)
      requires forall n | n in fronts :: n in d && d[n] == absent
      requires newVersions.Valid()
      requires PutAll(newVersions.Contents(), newVersions.limits, FrontsPuts(d, fronts) + more) != Unsafe
      modifies newVersions`versions, newVersions`rootAbsent, newVersions`root, newVersions`orphans, newVersions`tips
      ensures newVersions.Valid()
      ensures var whole := old(PutAll(newVersions.Contents(), newVersions.limits, FrontsPuts(d, fronts) + more));
              && (r.Err? ==> whole == Failed(r.error))
              && (r.Ok? ==> whole == PutAll(newVersions.Contents(), newVersions.limits, more))
    {
      hide TreePuts, FrontsPuts, PutAll, Store.WellFormed, Store.Abstract, Represents, Forest.Valid, Forest.Within;
      hide VersionsOf, Grounded, Subtree, PutSpec, PutIsSafe;
      ghost var whole := PutAll(newVersions.Contents(), newVersions.limits, FrontsPuts(d, fronts) + more);
      var k := 0;
      assert fronts[0..] == fronts;
      while k < |fronts|
        invariant 0 <= k <= |fronts|
        invariant newVersions.Valid()
        invariant whole == PutAll(newVersions.Contents(), newVersions.limits, FrontsPuts(d, fronts[k..]) + more)
      {
        FrontsPutsStep(d, fronts, k, more);
        SplitMerge(newVersions.Contents(), newVersions.limits, TreePuts(d, fronts[k]), FrontsPuts(d, fronts[k + 1..]) + more);
        r := ApplyBranch(absent, fronts[k], newVersions, d);
        if r.Err? {
          return;
        }
        k := k + 1;
      }
      NoFrontsPuts(d, fronts[k..], more);
      r := Ok(());
    }

    method ApplyOrphanSets(keys: seq<VersionName>, newVersions: StructuredDataVersions,
                           ghost f: Forest) returns (r: Result<()>)
      requires this != newVersions && Linked(f) && f.Valid() && forall k | k in keys :: k in orphans
      requires newVersions.Valid() && PutAll(newVersions.Contents(), newVersions.limits, OrphanPuts(f, keys)) != Unsafe
      modifies newVersions`versions, newVersions`rootAbsent, newVersions`root, newVersions`orphans, newVersions`tips
      ensures newVersions.Valid()
      ensures MergesAs(old(PutAll(newVersions.Contents(), newVersions.limits, OrphanPuts(f, keys))), r, newVersions.Contents())
    {
      hide TreePuts, FrontsPuts, PutAll, OrphanPuts, Store.WellFormed, Store.Abstract, Represents, Forest.Valid, Forest.Within;
      hide VersionsOf, Stores.OrphansOf, Grounded, Ascending, Forest.OrphansOf;
      ghost var whole := PutAll(newVersions.Contents(), newVersions.limits, OrphanPuts(f, keys));
      var k := 0;
      assert keys[0..] == keys;
      while k < |keys|
        invariant 0 <= k <= |keys|
        invariant newVersions.Valid()
        invariant whole == PutAll(newVersions.Contents(), newVersions.limits, OrphanPuts(f, keys[k..]))
      {
        assert keys[k] in keys;
        OrphansWait(orphans, f, keys[k]);
        OrphanPutsStep(f, keys, k);
        r := ApplyFronts(keys[k], Ascending(orphans[keys[k]]), newVersions, f.declared, OrphanPuts(f, keys[k + 1..]));
        if r.Err? {
          return;
        }
        k := k + 1;
      }
      NoOrphanPuts(f, keys[k..]);
      NoPuts(newVersions.Contents(), newVersions.limits);
      r := Ok(());
    }

    /** Puts the root's tree and then those of the orphans into another container. */
    method ApplyAll(newVersions: StructuredDataVersions, ghost f: Forest) returns (r: Result<()>)
      requires this != newVersions && Linked(f) && f.Valid() && root.Some?
      requires newVersions.Valid() && PutAll(newVersions.Contents(), newVersions.limits, ForestPuts(f)) != Unsafe
      modifies newVersions`versions, newVersions`rootAbsent, newVersions`root, newVersions`orphans, newVersions`tips
      ensures newVersions.Valid()
      ensures MergesAs(old(PutAll(newVersions.Contents(), newVersions.limits, ForestPuts(f))), r, newVersions.Contents())
    {
      hide TreePuts, ForestPuts, PutAll, Ascending, OrphanPuts, Store.WellFormed, Store.Abstract, Represents, Forest.Valid, Forest.Within;
      KeysAre(orphans, f);
      var keys := Ascending(orphans.Keys);
      ForestPutsParts(f, keys);
      SplitMerge(newVersions.Contents(), newVersions.limits, TreePuts(f.declared, root.value), OrphanPuts(f, keys));
      r := ApplyBranch(rootAbsent, root.value, newVersions, f.declared);
      if r.Err? {
        return;
      }
      r := ApplyOrphanSets(keys, newVersions, f);
    }

    /**
     Merges this container into a serialised one and takes the result and its limits.  Any error
     leaves this container unchanged.
     */
    method ApplySerialised(serialised: Serialised) returns (r: Result<()>)
      requires Valid() && Contents().root.Some? && NoEmptyRun(serialised.branches)
      requires var parsed := ParseSpec(serialised);
               parsed.Ok? ==> parsed.value.WellFormed() && MergeSpec(parsed.value, Contents()) != Unsafe
      modifies this
      ensures Valid()
      ensures ApplyEffect(ParseSpec(serialised), old(Contents()), old(Value()), Value(), r)
      ensures r.Ok? ==> limits == serialised.limits
      ensures r.Err? ==> Value() == old(Value())
    {
      hide Store.WellFormed, Store.Abstract, PutAll, ParseSpec, ForestPuts, Forest.Valid, VersionsOf, Stores.OrphansOf;
      ghost var f := Contents();
      var parsed := Parse(serialised);
      if parsed.Err? {
        return Err(parsed.error);
      }
      var newInfo := parsed.value;
      assert MergeSpec(newInfo.Value(), f) == PutAll(newInfo.Contents(), newInfo.limits, ForestPuts(f));
      r := ApplyAll(newInfo, f);
      if r.Ok? {
        ParsedLimits(serialised);
        // A plain exchange of values; the other half of the swap is dropped.
        limits, versions, rootAbsent, root, tips, orphans :=
          newInfo.limits, newInfo.versions, newInfo.rootAbsent, newInfo.root, newInfo.tips, newInfo.orphans;
        assert Value() == newInfo.Value();
      }
    }
  }
}
