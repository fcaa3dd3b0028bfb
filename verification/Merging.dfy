/**
 ApplySerialised on the abstract forest: the versions of one forest are put, tree by tree, into
 another.
 */
module Merging {
  import opened Options
  import opened VersionNames
  import opened ParentMaps
  import opened Forests
  import opened Stores
  import opened Serialisation
  import opened ForestRuns
  import opened RoundTrip

  type Puts = seq<(VersionName, VersionName)>

  /** The puts that rebuild the tree of n, parents before children. */
  ghost function TreePuts(d: Links, n: VersionName): Puts
    requires Grounded(d) && n in d
    decreases Subtree(d, n), 1, 0
  {
    [(d[n], n)] + KidsPuts(d, n, Ascending(Kids(d, n)))
  }

  ghost function KidsPuts(d: Links, p: VersionName, kids: seq<VersionName>): Puts
    requires Grounded(d) && p in d && forall c | c in kids :: c in Kids(d, p)
    decreases Subtree(d, p), 0, |kids|
  {
    SubtreeStep(d, p);
    if kids == [] then [] else TreePuts(d, kids[0]) + KidsPuts(d, p, kids[1..])
  }

  ghost function FrontsPuts(d: Links, fronts: seq<VersionName>): Puts
    requires Grounded(d) && forall n | n in fronts :: n in d
  {
    if fronts == [] then [] else TreePuts(d, fronts[0]) + FrontsPuts(d, fronts[1..])
  }

  ghost function ForestPuts(f: Forest): Puts
    requires f.Valid()
  {
    FrontsAreFronts(f);
    FrontsPuts(f.declared, FrontsInOrder(f))
  }

  datatype Merge = Merged(forest: Forest) | Failed(error: Error) | Unsafe

  /** Putting one pair after another, until one of them throws. */
  ghost function PutAll(f: Forest, limits: Limits, puts: Puts): (m: Merge)
    requires f.Valid() && limits.Valid() && f.Within(limits)
    ensures m.Merged? ==> m.forest.Valid() && m.forest.Within(limits)
    decreases |puts|
  {
    if puts == [] then Merged(f)
    else
      var o := PutSpec(f, limits, puts[0].0, puts[0].1);
      if !PutIsSafe(f, limits, puts[0].0, puts[0].1) then Unsafe
      else if o.Threw? then Failed(o.error)
      else
        StepKeepsForest(f, limits, Put(puts[0].0, puts[0].1));
        PutAll(AfterPut(f, limits, puts[0].0, puts[0].1), limits, puts[1..])
  }

  lemma {:induction false} PutAllAppend(f: Forest, limits: Limits, a: Puts, b: Puts)
    requires f.Valid() && limits.Valid() && f.Within(limits)
    ensures PutAll(f, limits, a + b) == var m := PutAll(f, limits, a); if m.Merged? then PutAll(m.forest, limits, b) else m
    decreases |a|
  {
    if a == [] {
      assert a + b == b;
    } else {
      assert (a + b)[1..] == a[1..] + b;
      PutKeepsForest(f, limits, a);
      if PutIsSafe(f, limits, a[0].0, a[0].1) && !PutSpec(f, limits, a[0].0, a[0].1).Threw? {
        PutAllAppend(AfterPut(f, limits, a[0].0, a[0].1), limits, a[1..], b);
      }
    }
  }

  lemma PutKeepsForest(f: Forest, limits: Limits, a: Puts)
    requires f.Valid() && limits.Valid() && f.Within(limits) && a != []
    ensures PutIsSafe(f, limits, a[0].0, a[0].1) ==>
              AfterPut(f, limits, a[0].0, a[0].1).Valid() && AfterPut(f, limits, a[0].0, a[0].1).Within(limits)
  {
    if PutIsSafe(f, limits, a[0].0, a[0].1) {
      StepKeepsForest(f, limits, Put(a[0].0, a[0].1));
    }
  }

  // ---------------------------------------------------------------- the puts are the declared pairs

  lemma {:induction false} TreePutsAre(d: Links, n: VersionName, p: (VersionName, VersionName))
    requires Grounded(d) && n in d
    ensures p in TreePuts(d, n) <==> p.1 in Subtree(d, n) && p.0 == d[p.1]
    decreases Subtree(d, n), 1, 0
  {
    SubtreeStep(d, n);
    var kids := Ascending(Kids(d, n));
    KidsPutsAre(d, n, kids, p);
    SubtreeIsOwnAndKids(d, n, p.1);
  }

  lemma {:induction false} KidsPutsAre(d: Links, n: VersionName, kids: seq<VersionName>, p: (VersionName, VersionName))
    requires Grounded(d) && n in d && forall c | c in kids :: c in Kids(d, n)
    ensures p in KidsPuts(d, n, kids) <==> (exists c :: c in kids && p.1 in Subtree(d, c)) && p.1 in d && p.0 == d[p.1]
    decreases Subtree(d, n), 0, |kids|
  {
    SubtreeStep(d, n);
    hide TreePuts, Subtree, Grounded;
    if kids != [] {
      assert kids[0] in kids && forall c :: c in kids <==> c == kids[0] || c in kids[1..];
      TreePutsAre(d, kids[0], p);
      KidsPutsAre(d, n, kids[1..], p);
      assert p in KidsPuts(d, n, kids) <==> p in TreePuts(d, kids[0]) || p in KidsPuts(d, n, kids[1..]);
    }
  }

  lemma {:induction false} FrontsPutsAre(d: Links, fronts: seq<VersionName>, p: (VersionName, VersionName))
    requires Grounded(d) && forall n | n in fronts :: n in d
    ensures p in FrontsPuts(d, fronts) <==> (exists c :: c in fronts && p.1 in Subtree(d, c)) && p.1 in d && p.0 == d[p.1]
    decreases |fronts|
  {
    assert forall c, m :: m in Subtree(d, c) ==> m in d;
    hide TreePuts, Subtree, Grounded;
    if fronts != [] {
      assert fronts == [fronts[0]] + fronts[1..];
      assert fronts[0] in fronts && p.1 in Subtree(d, fronts[0]) ==> exists c :: c in fronts && p.1 in Subtree(d, c);
      TreePutsAre(d, fronts[0], p);
      FrontsPutsAre(d, fronts[1..], p);
      assert p in FrontsPuts(d, fronts) <==> p in TreePuts(d, fronts[0]) || p in FrontsPuts(d, fronts[1..]);
    }
  }

  /** The puts of a forest are its declared pairs. */
  lemma ForestPutsAre(f: Forest, p: (VersionName, VersionName))
    requires f.Valid()
    ensures p in ForestPuts(f) <==> p.1 in f.declared && p.0 == f.declared[p.1]
  {
    FrontsAreFronts(f);
    FrontsPutsAre(f.declared, FrontsInOrder(f), p);
    if p.1 in f.declared {
      FrontOfSubtree(f.declared, Front(f.declared, p.1), p.1);
    }
  }

  // ---------------------------------------------------------------- what a merge yields

  lemma {:induction false} CleanMerge(g: Forest, limits: Limits, puts: Puts)
    requires g.Valid() && limits.Valid() && g.Within(limits) && CleanRun(g, limits, puts).Some?
    ensures PutAll(g, limits, puts) == Merged(CleanRun(g, limits, puts).value)
    decreases |puts|
  {
    if puts != [] {
      var o := PutSpec(g, limits, puts[0].0, puts[0].1);
      if o.AlreadyThere? {
        CleanMerge(g, limits, puts[1..]);
      } else {
        PutKeepsForestIff(g, limits, puts[0].0, puts[0].1);
        CleanMerge(o.forest, limits, puts[1..]);
      }
    }
  }

  /** When no inner put throws, refuses or evicts, the merge declares the union of both forests. */
  lemma {:induction false} MergeIsUnion(f: Forest, g: Forest, limits: Limits)
    requires f.Valid() && g.Valid() && limits.Valid() && g.Within(limits)
    requires CleanRun(g, limits, ForestPuts(f)).Some?
    ensures PutAll(g, limits, ForestPuts(f)).Merged?
    ensures PutAll(g, limits, ForestPuts(f)).forest.declared == f.declared + g.declared
    ensures forall n | n in f.declared && n in g.declared :: f.declared[n] == g.declared[n]
  {
    var puts := ForestPuts(f);
    CleanMerge(g, limits, puts);
    CleanRunDeclares(g, limits, puts);
    var e := PutAll(g, limits, puts).forest.declared;
    forall p ensures p in puts <==> p.1 in f.declared && p.0 == f.declared[p.1] {
      ForestPutsAre(f, p);
    }
    UnionByPuts(f.declared, g.declared, puts, e);
  }

  lemma UnionByPuts(d: Links, d': Links, puts: Puts, e: Links)
    requires Extends(d', puts, e)
    requires forall p :: p in puts <==> p.1 in d && p.0 == d[p.1]
    ensures e == d + d'
    ensures forall n | n in d && n in d' :: d[n] == d'[n]
  {
    forall n | n in d ensures n in e && e[n] == d[n] {
      assert (d[n], n) in puts;
    }
    forall n | n in e ensures n in d || n in d' {
      if n !in d' {
        assert (e[n], n) in puts;
      }
    }
  }

  // ---------------------------------------------------------------- a forest applied to itself

  lemma {:induction false} NothingNew(f: Forest, limits: Limits, puts: Puts)
    requires f.Valid() && limits.Valid() && f.Within(limits)
    requires forall p | p in puts :: p.1 in f.declared && f.declared[p.1] == p.0
    ensures PutAll(f, limits, puts) == Merged(f)
    decreases |puts|
  {
    if puts != [] {
      assert puts[0] in puts;
      NothingNew(f, limits, puts[1..]);
    }
  }

  lemma ReadBackValid(f: Forest, limits: Limits)
    requires f.Valid() && f.Within(limits)
    ensures ReadBack(f).Valid() && ReadBack(f).Within(limits)
  {
    var g := ReadBack(f);
    RootReadBack(f);
    if f.root.Some? {
      var r := f.root.value;
      forall n | n in g.declared ensures HasBranch(g.declared, n) {
        RootRenamed(f.declared, r, AbsentRead(f.declared, r), Branch(f.declared, n));
      }
    }
    forall n ensures n in Tips(g.declared) <==> n in Tips(f.declared) {
      if n in f.declared {
        KidsReadBack(f, n);
      }
    }
    assert Tips(g.declared) == Tips(f.declared);
    assert |g.declared.Keys| == |f.declared.Keys|;
  }

  lemma {:induction false} RootRenamed(d: Links, r: VersionName, absent: VersionName, s: seq<VersionName>)
    requires IsFront(d, r) && absent !in d && IsBranch(d, s)
    ensures IsBranch(d[r := absent], s)
    decreases |s|
  {
    if |s| > 1 {
      RootRenamed(d, r, absent, s[1..]);
    }
  }

  /**
   Applying a container's own serialised form leaves it as it is, unless the parent of its root is
   uninitialised but not the default name: that parent loses its index, and the apply fails.
   */
  lemma {:induction false} ApplyOwnSerialised(f: Forest, limits: Limits)
    requires f.Valid() && limits.Valid() && f.Within(limits) && f.root.Some?
    ensures ReadBack(f).Valid() && ReadBack(f).Within(limits)
    ensures var absent := f.declared[f.root.value];
            PutAll(ReadBack(f), limits, ForestPuts(f))
            == if absent.IsInitialised() || absent == DEFAULT_NAME then Merged(f) else Failed(InvalidArgument)
  {
    ReadBackValid(f, limits);
    var r := f.root.value;
    if AbsentRead(f.declared, r) == f.declared[r] {
      assert ReadBack(f).declared == f.declared;
      forall p | p in ForestPuts(f) ensures p.1 in f.declared && f.declared[p.1] == p.0 {
        ForestPutsAre(f, p);
      }
      NothingNew(f, limits, ForestPuts(f));
    } else {
      FrontsFormList(f);
      assert ForestPuts(f)[0] == (f.declared[r], r);
      RootReadBack(f);
    }
  }

  // ---------------------------------------------------------------- steps of a merge

  /** A merge of puts ended with the result r, and left the forest g if it succeeded. */
  ghost predicate MergesAs(m: Merge, r: Result<()>, g: Forest) {
    match m
    case Unsafe => false
    case Failed(error) => r == Err(error)
    case Merged(forest) => r == Ok(()) && g == forest
  }

  lemma {:induction false} FirstPut(f: Forest, limits: Limits, p: (VersionName, VersionName), rest: Puts)
    requires f.Valid() && limits.Valid() && f.Within(limits) && PutAll(f, limits, [p] + rest) != Unsafe
    ensures PutIsSafe(f, limits, p.0, p.1)
    ensures var o := PutSpec(f, limits, p.0, p.1);
            if o.Threw? then PutAll(f, limits, [p] + rest) == Failed(o.error)
            else
              && AfterPut(f, limits, p.0, p.1).Valid() && AfterPut(f, limits, p.0, p.1).Within(limits)
              && PutAll(f, limits, [p] + rest) == PutAll(AfterPut(f, limits, p.0, p.1), limits, rest)
  {
    assert ([p] + rest)[1..] == rest;
    PutKeepsForest(f, limits, [p] + rest);
  }

  /** Splitting a merge at the first tree: it is safe, and what follows starts from where it ends. */
  lemma {:induction false} SplitMerge(f: Forest, limits: Limits, a: Puts, b: Puts)
    requires f.Valid() && limits.Valid() && f.Within(limits) && PutAll(f, limits, a + b) != Unsafe
    ensures PutAll(f, limits, a) != Unsafe
    ensures PutAll(f, limits, a).Failed? ==> PutAll(f, limits, a + b) == PutAll(f, limits, a)
    ensures PutAll(f, limits, a).Merged? ==> PutAll(f, limits, a + b) == PutAll(PutAll(f, limits, a).forest, limits, b)
  {
    PutAllAppend(f, limits, a, b);
  }

  lemma {:induction false} TreePutsStep(d: Links, n: VersionName)
    requires Grounded(d) && n in d
    ensures TreePuts(d, n) == [(d[n], n)] + KidsPuts(d, n, Ascending(Kids(d, n)))
    ensures Kids(d, n) == {} ==> KidsPuts(d, n, Ascending(Kids(d, n))) == []
    ensures |Kids(d, n)| == 1 ==> Least(Kids(d, n)) in d && KidsPuts(d, n, Ascending(Kids(d, n))) == TreePuts(d, Least(Kids(d, n)))
  {
    if |Kids(d, n)| == 1 {
      var c := Least(Kids(d, n));
      OnlyElement(Kids(d, n), c);
      assert {c} - {c} == {};
      assert Ascending({c}) == [c];
      assert TreePuts(d, c) + [] == TreePuts(d, c);
      assert KidsPuts(d, n, [c]) == TreePuts(d, c) + KidsPuts(d, n, [c][1..]);
    }
  }

  lemma {:induction false} KidsPutsStep(d: Links, p: VersionName, kids: seq<VersionName>, k: nat)
    requires Grounded(d) && p in d && k < |kids| && forall c | c in kids :: c in Kids(d, p)
    ensures kids[k] in d && kids[k] in Kids(d, p)
    ensures KidsPuts(d, p, kids[k..]) == TreePuts(d, kids[k]) + KidsPuts(d, p, kids[k + 1..])
  {
    assert kids[k] in kids;
    assert kids[k..][1..] == kids[k + 1..];
  }

  lemma {:induction false} FrontsPutsStep(d: Links, fronts: seq<VersionName>, k: nat, more: Puts)
    requires Grounded(d) && k < |fronts| && forall n | n in fronts :: n in d
    ensures fronts[k] in d
    ensures FrontsPuts(d, fronts[k..]) + more == TreePuts(d, fronts[k]) + (FrontsPuts(d, fronts[k + 1..]) + more)
  {
    hide TreePuts;
    assert fronts[k] in fronts;
    assert fronts[k..][1..] == fronts[k + 1..];
  }

  lemma {:induction false} NoFrontsPuts(d: Links, fronts: seq<VersionName>, more: Puts)
    requires Grounded(d) && fronts == []
    ensures FrontsPuts(d, fronts) + more == more
  {
  }

  lemma {:induction false} NoKidsPuts(d: Links, p: VersionName, kids: seq<VersionName>)
    requires Grounded(d) && p in d && kids == []
    ensures KidsPuts(d, p, kids) == []
  {
  }

  /** The puts of the orphans under the given absent parents. */
  ghost function OrphanPuts(f: Forest, keys: seq<VersionName>): Puts
    requires f.Valid()
  {
    if keys == [] then [] else FrontsPuts(f.declared, Ascending(f.OrphansOf(keys[0]))) + OrphanPuts(f, keys[1..])
  }

  lemma {:induction false} NoOrphanPuts(f: Forest, keys: seq<VersionName>)
    requires f.Valid() && keys == []
    ensures OrphanPuts(f, keys) == []
  {
  }

  lemma {:induction false} OrphanPutsStep(f: Forest, keys: seq<VersionName>, k: nat)
    requires f.Valid() && k < |keys|
    ensures Grounded(f.declared)
    ensures OrphanPuts(f, keys[k..]) == FrontsPuts(f.declared, Ascending(f.OrphansOf(keys[k]))) + OrphanPuts(f, keys[k + 1..])
  {
    assert keys[k..][1..] == keys[k + 1..];
  }

  lemma {:induction false} FrontsPutsAppend(d: Links, a: seq<VersionName>, b: seq<VersionName>)
    requires Grounded(d) && (forall n | n in a :: n in d) && (forall n | n in b :: n in d)
    ensures forall n | n in a + b :: n in d
    ensures FrontsPuts(d, a + b) == FrontsPuts(d, a) + FrontsPuts(d, b)
    decreases |a|
  {
    if a == [] {
      assert a + b == b;
    } else {
      assert (a + b)[1..] == a[1..] + b;
      FrontsPutsAppend(d, a[1..], b);
    }
  }

  lemma {:induction false} OrphanPutsAre(f: Forest, keys: seq<VersionName>)
    requires f.Valid()
    ensures forall n | n in OrphansInOrder(f, keys) :: n in f.declared
    ensures OrphanPuts(f, keys) == FrontsPuts(f.declared, OrphansInOrder(f, keys))
    decreases |keys|
  {
    if keys != [] {
      OrphanPutsAre(f, keys[1..]);
      FrontsPutsAppend(f.declared, Ascending(f.OrphansOf(keys[0])), OrphansInOrder(f, keys[1..]));
    }
  }

  lemma {:induction false} ForestPutsParts(f: Forest, keys: seq<VersionName>)
    requires f.Valid() && f.root.Some? && keys == Ascending(f.OrphanKeys())
    ensures Grounded(f.declared) && f.root.value in f.declared
    ensures ForestPuts(f) == TreePuts(f.declared, f.root.value) + OrphanPuts(f, keys)
  {
    OrphanPutsAre(f, keys);
    FrontsAreFronts(f);
    var d, r := f.declared, f.root.value;
    assert FrontsPuts(d, [r]) == TreePuts(d, r) by {
      assert [r][1..] == [];
      assert TreePuts(d, r) + [] == TreePuts(d, r);
    }
    FrontsPutsAppend(d, [r], OrphansInOrder(f, keys));
  }

  /** Applying forest f to the parsed container. */
  ghost function MergeSpec(parsed: Store, f: Forest): Merge
    requires parsed.WellFormed() && f.Valid()
  {
    WellFormedRepresents(parsed);
    PutAll(parsed.Abstract(), parsed.limits, ForestPuts(f))
  }

  /** What ApplySerialised leaves: the merge with the incoming limits, or on any error what was there. */
  ghost predicate ApplyEffect(parsed: Result<Store>, f: Forest, before: Store, after: Store, r: Result<()>)
    requires f.Valid() && (parsed.Ok? ==> parsed.value.WellFormed())
  {
    match parsed
    case Err(error) => r == Err(error) && after == before
    case Ok(store) =>
      match MergeSpec(store, f)
      case Unsafe => false
      case Failed(error) => r == Err(error) && after == before
      case Merged(forest) => r == Ok(()) && after.limits == store.limits && after.Abstract() == forest
  }

  lemma {:induction false} NoPuts(f: Forest, limits: Limits)
    requires f.Valid() && limits.Valid() && f.Within(limits)
    ensures PutAll(f, limits, []) == Merged(f)
  {
  }
}
