/**
 DeleteBranchUntilFork on the abstract forest: one step at a time, and in closed form.
 */
module Pruning {
  import opened Options
  import opened VersionNames
  import opened ParentMaps
  import opened Forests

  /** The orphan which takes over when the whole branch of the root has gone. */
  function FirstOrphan(f: Forest): Option<VersionName> {
    var keys := f.OrphanKeys();
    if keys != {} && f.OrphansOf(Least(keys)) != {} then Some(Least(f.OrphansOf(Least(keys)))) else None
  }

  lemma LeastAmong(s: set<VersionName>, t: set<VersionName>)
    requires s <= t && s != {} && Least(t) in s
    ensures Least(s) == Least(t)
  {
  }

  lemma SomeOrphan(f: Forest)
    requires f.AllOrphans() != {}
    ensures f.OrphanKeys() != {} && f.OrphansOf(Least(f.OrphanKeys())) != {}
  {
    var n :| n in f.AllOrphans();
    assert f.declared[n] in f.OrphanKeys();
    var k := Least(f.OrphanKeys());
    var m :| m in f.declared && f.declared[m] !in f.declared && !f.IsRoot(m) && f.declared[m] == k;
    assert m in f.OrphansOf(k);
  }

  /**
   The documentation promises that the lowest orphan takes over.  It does if and only if it waits for
   the lowest of the absent parents.
   */
  lemma FirstOrphanIsLowestIff(f: Forest)
    requires f.Valid() && f.AllOrphans() != {}
    ensures f.OrphanKeys() != {}
    ensures FirstOrphan(f) == Some(Least(f.AllOrphans())) <==> f.declared[Least(f.AllOrphans())] == Least(f.OrphanKeys())
  {
    SomeOrphan(f);
    var a, k := Least(f.AllOrphans()), Least(f.OrphanKeys());
    if f.declared[a] == k {
      assert a in f.OrphansOf(k);
      assert f.OrphansOf(k) <= f.AllOrphans();
      LeastAmong(f.OrphansOf(k), f.AllOrphans());
    }
  }

  /** So it is when a childless root is erased. */
  lemma ReplacementIsLowestIff(f: Forest)
    requires f.Valid() && f.root.Some? && Kids(f.declared, f.root.value) == {} && f.AllOrphans() != {}
    ensures f.OrphanKeys() != {}
    ensures EraseRoot(f).root == Some(Least(f.AllOrphans())) <==> f.declared[Least(f.AllOrphans())] == Least(f.OrphanKeys())
  {
    FirstOrphanIsLowestIff(f);
    FrontErased(f, f.root.value);
  }

  /** With root 1-1 childless, 9-1 waits for 3-7 and 5-2 for 4-8: the higher of the two orphans becomes root. */
  lemma HigherOrphanMayReplaceRoot()
    ensures var r, a, b := VersionName(1, Identity(1)), VersionName(9, Identity(1)), VersionName(5, Identity(2));
            var f := Forest(map[r := DEFAULT_NAME, a := VersionName(3, Identity(7)), b := VersionName(4, Identity(8))], Some(r));
            && f.Valid() && Kids(f.declared, r) == {} && f.AllOrphans() == {a, b} && Least(f.AllOrphans()) == b
            && EraseRoot(f).root == Some(a)
  {
    var r, a, b := VersionName(1, Identity(1)), VersionName(9, Identity(1)), VersionName(5, Identity(2));
    var k, l := VersionName(3, Identity(7)), VersionName(4, Identity(8));
    var d := map[r := DEFAULT_NAME, a := k, b := l];
    var f := Forest(d, Some(r));
    BranchIs(d, [r]);
    BranchIs(d, [a]);
    BranchIs(d, [b]);
    assert f.Valid();
    assert a in f.AllOrphans() && b in f.AllOrphans() && f.AllOrphans() == {a, b};
    assert d[a] in f.OrphanKeys() && d[b] in f.OrphanKeys() && f.OrphanKeys() == {k, l};
    assert a in f.OrphansOf(k) && f.OrphansOf(k) == {a};
    assert f.(root := Some(r)) == f;
  }

  /** Erasing a childless front. */
  function EraseFront(f: Forest, n: VersionName): Forest {
    Forest(f.declared - {n}, if f.IsRoot(n) then FirstOrphan(f) else f.root)
  }

  /** Erasing a tip, then its parent if that became a tip, and so on up to a fork or a front. */
  ghost function Prune(f: Forest, n: VersionName): Forest
    requires f.Valid() && n in f.declared && Kids(f.declared, n) == {}
    decreases |f.declared|
  {
    if IsFront(f.declared, n) then EraseFront(f, n)
    else
      LeafRemoved(f, n);
      var rest := Forest(f.declared - {n}, f.root);
      var parent := f.declared[n];
      if Kids(rest.declared, parent) != {} then rest else Prune(rest, parent)
  }

  lemma LeafRemoved(f: Forest, n: VersionName)
    requires f.Valid() && n in f.declared && Kids(f.declared, n) == {} && f.declared[n] in f.declared
    ensures Forest(f.declared - {n}, f.root).Valid()
    ensures f.declared[n] in f.declared - {n}
    ensures |f.declared - {n}| == |f.declared| - 1
  {
    GroundedWithoutLeaf(f.declared, n);
    assert (f.declared - {n}).Keys == f.declared.Keys - {n};
    assert f.declared[n] != n by {
      assert n !in Kids(f.declared, n);
    }
    assert f.declared[n] in f.declared - {n};
    assert f.root.Some?;
  }

  lemma FrontErased(f: Forest, n: VersionName)
    requires f.Valid() && IsFront(f.declared, n) && Kids(f.declared, n) == {}
    ensures EraseFront(f, n).Valid()
    ensures f.IsRoot(n) ==> EraseFront(f, n) == EraseRoot(f)
  {
    if f.IsRoot(n) {
      assert f.(root := Some(n)) == f;
      ErasedValid(f);
    } else {
      GroundedWithoutFront(f.declared, n);
      assert f.root.value in f.declared - {n};
    }
  }

  lemma {:induction false} PruneValid(f: Forest, n: VersionName)
    requires f.Valid() && n in f.declared && Kids(f.declared, n) == {}
    ensures Prune(f, n).Valid()
    ensures Tips(Prune(f, n).declared) == Tips(f.declared) - {n}
    ensures |Prune(f, n).declared| < |f.declared|
    decreases |f.declared|
  {
    var d := f.declared;
    if IsFront(d, n) {
      FrontErased(f, n);
      TipsAfterFrontRemoved(d, n);
      assert (d - {n}).Keys == d.Keys - {n};
    } else {
      LeafRemoved(f, n);
      var rest := Forest(d - {n}, f.root);
      var parent := d[n];
      KidsAfterRemove(d, n, parent);
      TipsAfterLeafRemoved(d, n);
      if Kids(rest.declared, parent) == {} {
        PruneValid(rest, parent);
      }
    }
  }

  lemma TipsAfterLeafRemoved(d: Links, n: VersionName)
    requires n in d && Kids(d, n) == {} && d[n] in d && d[n] != n
    ensures Tips(d - {n}) == Tips(d) - {n} + if Kids(d - {n}, d[n]) == {} then {d[n]} else {}
  {
    forall m ensures m in Tips(d - {n}) <==> m in Tips(d) - {n} + if Kids(d - {n}, d[n]) == {} then {d[n]} else {} {
      KidsAfterRemove(d, n, m);
    }
    assert n in Kids(d, d[n]);
  }

  /** Once a tip is gone its parent is a fork, or the only new tip. */
  lemma TipErased(d: Links, n: VersionName)
    requires n in d && Kids(d, n) == {} && d[n] in d && d[n] != n
    ensures Kids(d - {n}, d[n]) != {} ==> Tips(d) - {n} == Tips(d - {n})
    ensures Kids(d - {n}, d[n]) == {} ==> d[n] in Tips(d - {n}) && Tips(d) - {n} == Tips(d - {n}) - {d[n]}
  {
    TipsAfterLeafRemoved(d, n);
    assert n in Kids(d, d[n]);
    assert d[n] !in Tips(d);
  }

  // ---------------------------------------------------------------- the closed form

  /** How far up the branch every version above the tip has a single child. */
  ghost function PruneLength(d: Links, s: seq<VersionName>): (k: nat)
    requires s != []
    ensures 1 <= k <= |s|
    ensures forall i :: 0 < i < k ==> |Kids(d, s[i])| == 1
    ensures k < |s| ==> |Kids(d, s[k])| != 1
  {
    if |s| == 1 || |Kids(d, s[1])| != 1 then 1 else 1 + PruneLength(d, s[1..])
  }

  /** The prefix of its branch that goes with a tip. */
  ghost function Pruned(d: Links, tip: VersionName): set<VersionName>
    requires HasBranch(d, tip)
  {
    var s := Branch(d, tip);
    set x | x in s[..PruneLength(d, s)]
  }

  ghost function DeleteSpec(f: Forest, tip: VersionName): Forest
    requires f.Valid() && tip in f.declared
  {
    Without(f, Pruned(f.declared, tip))
  }

  ghost function Without(f: Forest, gone: set<VersionName>): Forest {
    Forest(f.declared - gone, if f.root.Some? && f.root.value in gone then FirstOrphan(f) else f.root)
  }

  lemma {:induction false} PruneLengthSame(d: Links, d': Links, s: seq<VersionName>)
    requires s != []
    requires forall i :: 0 < i < |s| ==> Kids(d, s[i]) == Kids(d', s[i])
    ensures PruneLength(d, s) == PruneLength(d', s)
    decreases |s|
  {
    if |s| > 1 {
      PruneLengthSame(d, d', s[1..]);
    }
  }

  /** One step of the closed form. */
  lemma PrunedStep(d: Links, n: VersionName)
    requires Grounded(d) && n in d && Kids(d, n) == {} && d[n] in d
    ensures HasBranch(d - {n}, d[n])
    ensures Pruned(d, n) == {n} + if Kids(d - {n}, d[n]) == {} then Pruned(d - {n}, d[n]) else {}
  {
    var d', p := d - {n}, d[n];
    BranchStep(d, n);
    assert p != n by {
      assert n !in Kids(d, n);
    }
    BranchAfterLeafRemoved(d, n, p);
    var s, t := Branch(d, n), Branch(d, p);
    assert s == [n] + t && s[1..] == t;
    KidsAfterRemove(d, n, p);
    assert n in Kids(d, p);
    hide Grounded;
    if Kids(d', p) == {} {
      assert Kids(d, p) == {n};
      BranchKids(d, n, t);
      PruneLengthSame(d, d', t);
      hide Kids;
      OneMorePruned(d, n, t);
    } else {
      var c :| c in Kids(d', p);
      assert {n, c} <= Kids(d, p);
      if |Kids(d, p)| == 1 {
        SingletonSet(Kids(d, p), n, c);
      }
      hide Kids;
      assert s[..1] == [n];
    }
  }

  lemma {:induction false} OneMorePruned(d: Links, n: VersionName, t: seq<VersionName>)
    requires t != [] && |Kids(d, t[0])| == 1
    ensures ([n] + t)[..PruneLength(d, [n] + t)] == [n] + t[..PruneLength(d, t)]
  {
    assert ([n] + t)[1..] == t;
  }

  lemma SingletonSet(s: set<VersionName>, a: VersionName, b: VersionName)
    requires |s| == 1 && a in s && b in s
    ensures a == b
  {
    assert |s - {a}| == 0;
    assert b !in s - {a};
  }

  lemma {:induction false} BranchKids(d: Links, n: VersionName, t: seq<VersionName>)
    requires Grounded(d) && n in d && IsBranch(d, t) && t[0] == d[n]
    ensures forall i :: 0 < i < |t| ==> Kids(d, t[i]) == Kids(d - {n}, t[i])
  {
    forall i | 0 < i < |t| ensures Kids(d, t[i]) == Kids(d - {n}, t[i]) {
      KidsAfterRemove(d, n, t[i]);
      if t[i] == t[0] {
        BranchSuffix(d, t, i);
        BranchUnique(d, t, t[i..]);
        assert false;
      }
    }
  }

  lemma DeleteAtFront(f: Forest, n: VersionName)
    requires f.Valid() && IsFront(f.declared, n) && Kids(f.declared, n) == {}
    ensures DeleteSpec(f, n) == EraseFront(f, n)
  {
    BranchStep(f.declared, n);
    assert Branch(f.declared, n)[..1] == [n];
    assert Pruned(f.declared, n) == {n};
  }

  lemma DeleteStep(f: Forest, n: VersionName)
    requires f.Valid() && n in f.declared && Kids(f.declared, n) == {} && f.declared[n] in f.declared
    ensures Forest(f.declared - {n}, f.root).Valid() && f.declared[n] in f.declared - {n}
    ensures DeleteSpec(f, n) == var rest := Forest(f.declared - {n}, f.root);
                                if Kids(rest.declared, f.declared[n]) != {} then rest else DeleteSpec(rest, f.declared[n])
  {
    var d := f.declared;
    var d', p := d - {n}, d[n];
    LeafRemoved(f, n);
    PrunedStep(d, n);
    SameFirstOrphan(f, n);
    var gone := if Kids(d', p) == {} then Pruned(d', p) else {};
    WithoutStep(f, n, gone);
    if Kids(d', p) != {} {
      assert d' - {} == d';
    }
  }

  lemma WithoutStep(f: Forest, n: VersionName, gone: set<VersionName>)
    requires !f.IsRoot(n) && FirstOrphan(Forest(f.declared - {n}, f.root)) == FirstOrphan(f)
    ensures Without(f, {n} + gone) == Without(Forest(f.declared - {n}, f.root), gone)
  {
    assert f.declared - ({n} + gone) == f.declared - {n} - gone;
  }

  /** Pruning step by step takes exactly the prefix of the branch. */
  lemma {:induction false} PruneIsDelete(f: Forest, n: VersionName)
    requires f.Valid() && n in f.declared && Kids(f.declared, n) == {}
    ensures Prune(f, n) == DeleteSpec(f, n)
    decreases |f.declared|
  {
    if IsFront(f.declared, n) {
      DeleteAtFront(f, n);
    } else {
      LeafRemoved(f, n);
      DeleteStep(f, n);
      var rest, p := Forest(f.declared - {n}, f.root), f.declared[n];
      if Kids(rest.declared, p) == {} {
        PruneIsDelete(rest, p);
      }
    }
  }

  lemma SameOrphanKeys(f: Forest, n: VersionName)
    requires n in f.declared && Kids(f.declared, n) == {} && f.declared[n] in f.declared
    ensures Forest(f.declared - {n}, f.root).OrphanKeys() == f.OrphanKeys()
  {
    var g := Forest(f.declared - {n}, f.root);
    forall k ensures k in g.OrphanKeys() <==> k in f.OrphanKeys() {
      if k in g.OrphanKeys() {
        var m :| m in g.declared && g.declared[m] !in g.declared && !g.IsRoot(m) && g.declared[m] == k;
        assert m !in Kids(f.declared, n);
        assert f.declared[m] == k && k !in f.declared;
      }
      if k in f.OrphanKeys() {
        var m :| m in f.declared && f.declared[m] !in f.declared && !f.IsRoot(m) && f.declared[m] == k;
        assert m in g.declared && g.declared[m] == k;
      }
    }
  }

  lemma SameFirstOrphan(f: Forest, n: VersionName)
    requires f.Valid() && n in f.declared && Kids(f.declared, n) == {} && f.declared[n] in f.declared
    ensures FirstOrphan(Forest(f.declared - {n}, f.root)) == FirstOrphan(f)
  {
    var g := Forest(f.declared - {n}, f.root);
    SameOrphanKeys(f, n);
    forall k | k !in f.declared ensures g.OrphansOf(k) == f.OrphansOf(k) {
      KidsAfterRemove(f.declared, n, k);
    }
    if f.OrphanKeys() != {} {
      assert Least(f.OrphanKeys()) !in f.declared;
    }
  }

  /** Deleting a branch keeps the forest, both limits, and every tip but the one given. */
  lemma DeleteKeepsForest(f: Forest, n: VersionName, limits: Limits)
    requires f.Valid() && n in Tips(f.declared)
    ensures DeleteSpec(f, n).Valid()
    ensures Tips(DeleteSpec(f, n).declared) == Tips(f.declared) - {n}
    ensures f.Within(limits) ==> DeleteSpec(f, n).Within(limits)
  {
    PruneValid(f, n);
    PruneIsDelete(f, n);
  }

  /**
   What goes with a tip are the first k versions of its branch: each above the tip has one child, and
   the one where it stops, if any, has several.  Everything else stays as it was.
   */
  lemma DeletesUntilFork(f: Forest, tip: VersionName) returns (k: nat)
    requires f.Valid() && tip in Tips(f.declared)
    ensures var s := Branch(f.declared, tip);
            && 1 <= k <= |s| && (forall i | 0 < i < k :: |Kids(f.declared, s[i])| == 1) && (k < |s| ==> |Kids(f.declared, s[k])| > 1)
            && DeleteSpec(f, tip).declared == (map n | n in f.declared && n !in s[..k] :: f.declared[n])
            && (f.root.Some? && f.root.value !in s[..k] ==> DeleteSpec(f, tip).root == f.root)
  {
    var d := f.declared;
    var s := Branch(d, tip);
    k := PruneLength(d, s);
    BranchElements(d, s);
    if k < |s| {
      assert s[k - 1] in Kids(d, s[k]);
      assert |Kids(d, s[k])| != 0;
    }
    assert d - Pruned(d, tip) == map n | n in d && n !in s[..k] :: d[n];
  }
}
