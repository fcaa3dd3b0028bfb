/**
 The abstract version forest: declared parents and the chosen root.  Put and DeleteBranchUntilFork
 are specified on it, and the properties of whole runs are proved of it.
 */
module Forests {
  import opened Options
  import opened VersionNames
  import opened ParentMaps

  datatype Error = InvalidArgument | NoSuchElement | CannotExceedLimit | ParsingError

  datatype Forest = Forest(declared: Links, root: Option<VersionName>) {

    predicate IsRoot(n: VersionName) {
      root == Some(n)
    }

    function RootSet(): set<VersionName> {
      if root.Some? then {root.value} else {}
    }

    /** The absent parents under which orphans are kept. */
    function OrphanKeys(): set<VersionName> {
      set n | n in declared && declared[n] !in declared && !IsRoot(n) :: declared[n]
    }

    /** The versions other than the root waiting for the absent parent k. */
    function OrphansOf(k: VersionName): set<VersionName> {
      Kids(declared, k) - RootSet()
    }

    /** Every version without a present parent, the root aside. */
    function AllOrphans(): set<VersionName> {
      set n | n in declared && declared[n] !in declared && !IsRoot(n)
    }

    ghost predicate Valid() {
      && Grounded(declared)
      && (declared == map[] <==> root.None?)
      && (root.Some? ==> IsFront(declared, root.value))
      && (forall n | n in declared :: n.IsInitialised())
      && (forall n | n in declared && !IsRoot(n) :: declared[n].IsInitialised())
    }

    ghost predicate Within(limits: Limits) {
      |declared| <= limits.maxVersions && |Tips(declared)| <= limits.maxBranches
    }
  }

  const EMPTY_FOREST := Forest(map[], None)

  datatype Result<+T> = Ok(value: T) | Err(error: Error) {
    predicate IsFailure() {
      Err?
    }

    function PropagateFailure<U>(): Result<U>
      requires Err?
    {
      Err(error)
    }

    function Extract(): T
      requires Ok?
    {
      value
    }
  }

  const UINT32_SIZE := 0x1_0000_0000

  type Uint32 = n: nat | n < UINT32_SIZE

  datatype Limits = Limits(maxVersions: Uint32, maxBranches: Uint32) {
    predicate Valid() {
      maxVersions >= 1 && maxBranches >= 1
    }
  }

  /** What a Put may do.  Undefined stands for the calls on which the program's behaviour is not defined. */
  datatype PutOutcome =
    | Threw(error: Error)
    | AlreadyThere
    | Refused
    | Inserted(forest: Forest, removed: Option<VersionName>)
    | Undefined(fault: Fault)

  datatype Fault = DereferencesEnd | FailsAssertion | Hangs

  /** What the caller of Put sees. */
  function PutResult(o: PutOutcome, new_: VersionName): Result<Option<VersionName>> {
    match o
    case Threw(error) => Err(error)
    case AlreadyThere => Ok(None)
    case Refused => Ok(Some(new_))
    case Inserted(_, removed) => Ok(removed)
    case Undefined(_) => Ok(None)
  }

  lemma ErrorOfPut(o: PutOutcome, new_: VersionName)
    ensures PutResult(o, new_).Err? <==> o.Threw?
    ensures o.Threw? ==> PutResult(o, new_) == Err(o.error)
  {
  }

  /** The version which takes over when the front r, or what is left of its branch, is erased. */
  function Replacement(f: Forest, r: VersionName): Option<VersionName> {
    var kids := Kids(f.declared, r);
    var keys := f.(root := Some(r)).OrphanKeys();
    if kids != {} then Some(Least(kids))
    else if keys != {} && f.(root := Some(r)).OrphansOf(Least(keys)) != {} then
      Some(Least(f.(root := Some(r)).OrphansOf(Least(keys))))
    else None
  }

  /** Erasing the root: the other links are untouched, only the choice of root changes. */
  function EraseRoot(f: Forest): Forest
    requires f.root.Some?
  {
    Forest(f.declared - {f.root.value}, Replacement(f, f.root.value))
  }

  predicate IsRootPut(f: Forest, old_: VersionName, new_: VersionName) {
    !old_.IsInitialised() || f.declared == map[] || new_.index == 0
  }

  predicate IsOrphanPut(f: Forest, old_: VersionName, new_: VersionName) {
    !IsRootPut(f, old_, new_) && old_ !in f.declared
  }

  predicate AdoptsRoot(f: Forest, new_: VersionName) {
    f.root.Some? && f.root.value in f.declared && f.declared[f.root.value] == new_
  }

  /** The only circular puts the walk down from the adopted versions notices. */
  ghost predicate NoticesCycle(f: Forest, old_: VersionName, new_: VersionName)
    requires f.Valid()
  {
    && old_ in f.declared
    && f.declared[Front(f.declared, old_)] == new_
    && f.declared[old_] in f.declared
    && HasLowest(f.declared, f.declared[old_], old_)
  }

  /** Looking below every adopted version for the parent notices exactly these puts. */
  lemma NoticesCycleIff(f: Forest, old_: VersionName, new_: VersionName)
    requires f.Valid() && old_ in f.declared && new_ !in f.declared
    ensures NoticesCycle(f, old_, new_) <==>
            exists a :: a in Kids(f.declared, new_) && LowestBelow(f.declared, a, old_)
  {
    var d := f.declared;
    forall a | a in Kids(d, new_)
      ensures LowestBelow(d, a, old_) <==> Front(d, old_) == a && d[old_] in d && HasLowest(d, d[old_], old_)
    {
      LowestBelowFront(d, a, old_);
    }
    if NoticesCycle(f, old_, new_) {
      assert Front(d, old_) in Kids(d, new_);
    }
  }

  predicate TwoRoots(f: Forest, old_: VersionName, new_: VersionName) {
    && IsRootPut(f, old_, new_)
    && f.root.Some? && f.root.value in f.declared
    && !f.declared[f.root.value].IsInitialised()
  }

  predicate ImpliesOtherRoot(f: Forest, old_: VersionName, new_: VersionName) {
    && IsOrphanPut(f, old_, new_)
    && f.root.Some? && f.root.value.index == 0 && old_.index == 0 && f.root.value.id != old_.id
  }

  predicate AtBranchLimit(f: Forest, limits: Limits, new_: VersionName) {
    |Tips(f.declared)| == limits.maxBranches && f.OrphansOf(new_) == {}
  }

  predicate NeedsNewBranch(f: Forest, old_: VersionName, new_: VersionName) {
    IsOrphanPut(f, old_, new_) || Kids(f.declared, old_) != {}
  }

  ghost function RootAfterPut(f: Forest, old_: VersionName, new_: VersionName): Option<VersionName>
    requires f.Valid()
  {
    if IsRootPut(f, old_, new_) then Some(new_)
    else if AdoptsRoot(f, new_) then
      Some(if old_ in f.declared then Front(f.declared, old_) else new_)
    else f.root
  }

  ghost function Grown(f: Forest, old_: VersionName, new_: VersionName): Forest
    requires f.Valid()
  {
    Forest(f.declared[new_ := old_], RootAfterPut(f, old_, new_))
  }

  /** The forest with new_ declared under old_, less the root if it has to go. */
  ghost function AfterInsert(f: Forest, old_: VersionName, new_: VersionName, erase: bool): Forest
    requires f.Valid()
  {
    var g := Grown(f, old_, new_);
    if erase && g.root.Some? then EraseRoot(g) else g
  }

  /** The two limits: evict the root, refuse, or fail. */
  ghost function LimitSpec(f: Forest, limits: Limits, old_: VersionName, new_: VersionName): PutOutcome
    requires f.Valid()
  {
    var branchTooMany := AtBranchLimit(f, limits, new_) && NeedsNewBranch(f, old_, new_);
    var erase := |f.declared| == limits.maxVersions || branchTooMany;
    if |f.declared| == limits.maxVersions && (IsRootPut(f, old_, new_) || AdoptsRoot(f, new_)) then Refused
    else if AtBranchLimit(f, limits, new_) && IsRootPut(f, old_, new_) then Undefined(DereferencesEnd)
    else if branchTooMany && f.RootSet() !! Tips(f.declared) then Threw(CannotExceedLimit)
    else if branchTooMany && AdoptsRoot(f, new_) then Undefined(FailsAssertion)
    else if !IsRootPut(f, old_, new_) && AdoptsRoot(f, new_) && old_ in f.declared && f.declared[Front(f.declared, old_)] == new_ then
      Undefined(Hangs)
    else Inserted(AfterInsert(f, old_, new_, erase), if erase then f.root else None)
  }

  ghost function PutSpec(f: Forest, limits: Limits, old_: VersionName, new_: VersionName): PutOutcome
    requires f.Valid()
  {
    if !new_.IsInitialised() then Threw(InvalidArgument)
    else if new_ in f.declared then
      if f.declared[new_] == old_ then AlreadyThere else Threw(InvalidArgument)
    else if TwoRoots(f, old_, new_) then Threw(InvalidArgument)
    else if !IsRootPut(f, old_, new_) && NoticesCycle(f, old_, new_) then Threw(InvalidArgument)
    else if ImpliesOtherRoot(f, old_, new_) then Threw(InvalidArgument)
    else LimitSpec(f, limits, old_, new_)
  }

  /** The inserting puts after which the container is no longer a forest. */
  ghost predicate BreaksForest(f: Forest, old_: VersionName, new_: VersionName)
    requires f.Valid()
  {
    ClosesCycle(f.declared, old_, new_) || (IsRootPut(f, old_, new_) && old_ in f.declared)
  }

  ghost predicate PutIsSafe(f: Forest, limits: Limits, old_: VersionName, new_: VersionName)
    requires f.Valid()
  {
    var o := PutSpec(f, limits, old_, new_);
    !o.Undefined? && (o.Inserted? ==> !BreaksForest(f, old_, new_))
  }

  // ---------------------------------------------------------------- what an inserting Put keeps

  lemma GrownValid(f: Forest, old_: VersionName, new_: VersionName)
    requires f.Valid() && new_ !in f.declared && new_.IsInitialised() && !BreaksForest(f, old_, new_)
    requires !TwoRoots(f, old_, new_)
    ensures Grown(f, old_, new_).Valid()
  {
    var d := f.declared;
    var g := Grown(f, old_, new_);
    GroundedAfterAdd(d, old_, new_);
    assert new_ in g.declared;
    assert IsFront(g.declared, g.root.value);
    forall n | n in g.declared && !g.IsRoot(n) ensures g.declared[n].IsInitialised() {
      if n != new_ && f.IsRoot(n) && IsRootPut(f, old_, new_) {
        assert d[n].IsInitialised();
      }
    }
  }

  lemma SomethingLeft(f: Forest, n: VersionName)
    requires f.Valid() && f.root.Some? && n in f.declared && n != f.root.value
    ensures Kids(f.declared, f.root.value) != {} || f.OrphanKeys() != {}
  {
    var d, r := f.declared, f.root.value;
    BranchAfterFrontRemoved(d, r, n);
    var t := Front(d - {r}, n);
    if d[t] == r {
      assert t in Kids(d, r);
    } else {
      assert d[t] in f.OrphanKeys();
    }
  }

  /** Some version replaces the erased root unless nothing is left. */
  lemma ReplacementFound(f: Forest)
    requires f.Valid() && f.root.Some?
    ensures f.declared - {f.root.value} == map[] <==> Replacement(f, f.root.value).None?
    ensures Replacement(f, f.root.value).Some? ==> IsFront(f.declared - {f.root.value}, Replacement(f, f.root.value).value)
  {
    var d, r := f.declared, f.root.value;
    assert f.(root := Some(r)) == f;
    var rest := d - {r};
    if Kids(d, r) != {} {
      var c := Least(Kids(d, r));
      assert c in rest;
    } else if f.OrphanKeys() != {} {
      var k := Least(f.OrphanKeys());
      var n :| n in d && d[n] !in d && !f.IsRoot(n) && d[n] == k;
      assert n in f.OrphansOf(k) && n in rest;
    } else if rest != map[] {
      var n :| n in rest;
      SomethingLeft(f, n);
      assert false;
    }
  }

  lemma ErasedValid(f: Forest)
    requires f.Valid() && f.root.Some?
    ensures EraseRoot(f).Valid()
  {
    var d, r := f.declared, f.root.value;
    GroundedWithoutFront(d, r);
    ReplacementFound(f);
    assert f.(root := Some(r)) == f;
    var e := EraseRoot(f);
    forall n | n in e.declared && !e.IsRoot(n) ensures e.declared[n].IsInitialised() {
      assert n in d && !f.IsRoot(n);
    }
  }

  lemma SwapSize(t: set<VersionName>, a: VersionName, b: VersionName)
    requires b !in t
    ensures |t - {a} + {b}| == |t - {a}| + 1
    ensures |t - {a}| == if a in t then |t| - 1 else |t|
  {
    assert a in t ==> t == t - {a} + {a};
    assert a !in t ==> t == t - {a};
  }

  lemma GrownSize(d: Links, old_: VersionName, new_: VersionName)
    requires new_ !in d
    ensures |d[new_ := old_]| == |d| + 1
  {
    assert d[new_ := old_].Keys == d.Keys + {new_};
  }

  lemma GrownTips(d: Links, old_: VersionName, new_: VersionName)
    requires new_ !in d && old_ != new_
    ensures |Tips(d[new_ := old_])| <= |Tips(d)| + 1
    ensures old_ in Tips(d) || Kids(d, new_) != {} ==> |Tips(d[new_ := old_])| <= |Tips(d)|
  {
    var t, t' := Tips(d), Tips(d[new_ := old_]);
    assert t' == t - {old_} + if Kids(d, new_) == {} then {new_} else {} by {
      TipsAfterAdd(d, old_, new_);
    }
    SwapSize(t, old_, new_);
    if Kids(d, new_) != {} {
      assert t' == t - {old_};
    }
  }

  lemma NotErasedWithin(f: Forest, limits: Limits, old_: VersionName, new_: VersionName)
    requires f.Valid() && f.Within(limits) && new_ !in f.declared && old_ != new_
    requires |f.declared| < limits.maxVersions
    requires AtBranchLimit(f, limits, new_) ==> old_ in f.declared && !NeedsNewBranch(f, old_, new_)
    ensures Grown(f, old_, new_).Within(limits)
  {
    GrownSize(f.declared, old_, new_);
    GrownTips(f.declared, old_, new_);
    assert f.OrphansOf(new_) != {} ==> Kids(f.declared, new_) != {};
    assert AtBranchLimit(f, limits, new_) ==> old_ in Tips(f.declared);
  }

  lemma ErasedWithin(f: Forest, limits: Limits, old_: VersionName, new_: VersionName)
    requires f.Valid() && f.Within(limits) && !BreaksForest(f, old_, new_) && new_ !in f.declared
    requires f.root.Some? && !IsRootPut(f, old_, new_) && !AdoptsRoot(f, new_)
    requires AtBranchLimit(f, limits, new_) && NeedsNewBranch(f, old_, new_) ==> f.root.value in Tips(f.declared)
    ensures AfterInsert(f, old_, new_, true).Within(limits)
  {
    var g, r := Grown(f, old_, new_), f.root.value;
    GrownSize(f.declared, old_, new_);
    GrownTips(f.declared, old_, new_);
    TipsAfterFrontRemoved(g.declared, r);
    KidsAfterAdd(f.declared, old_, new_, r);
    assert (g.declared - {r}).Keys == g.declared.Keys - {r};
    assert f.OrphansOf(new_) != {} ==> Kids(f.declared, new_) != {};
    if AtBranchLimit(f, limits, new_) {
      if NeedsNewBranch(f, old_, new_) {
        assert r in Tips(g.declared);
      } else {
        assert old_ in Tips(f.declared);
      }
    }
  }

  /** Erasing the root does not open a cycle, nor does it turn a linked root into a front. */
  lemma BrokenStaysBroken(f: Forest, limits: Limits, old_: VersionName, new_: VersionName)
    requires f.Valid() && BreaksForest(f, old_, new_)
    requires PutSpec(f, limits, old_, new_).Inserted?
    ensures !PutSpec(f, limits, old_, new_).forest.Valid()
  {
    var o := PutSpec(f, limits, old_, new_);
    var d' := f.declared[new_ := old_];
    if ClosesCycle(f.declared, old_, new_) {
      CycleNotGrounded(f.declared, old_, new_);
      if o.removed.Some? && o.forest.Valid() {
        assert new_ in o.forest.declared;
        BranchWithFront(d', o.removed.value, Branch(o.forest.declared, new_));
        assert false;
      }
    }
  }

  /** An inserting Put leaves a forest within both limits exactly when it does not break the forest. */
  lemma PutKeepsForestIff(f: Forest, limits: Limits, old_: VersionName, new_: VersionName)
    requires f.Valid() && limits.Valid() && f.Within(limits)
    requires PutSpec(f, limits, old_, new_).Inserted?
    ensures !BreaksForest(f, old_, new_) <==>
            (var g := PutSpec(f, limits, old_, new_).forest; g.Valid() && g.Within(limits))
  {
    var g := Grown(f, old_, new_);
    var o := PutSpec(f, limits, old_, new_);
    if !BreaksForest(f, old_, new_) {
      GrownValid(f, old_, new_);
      if o.removed.Some? {
        ErasedValid(g);
        ErasedWithin(f, limits, old_, new_);
      } else {
        NotErasedWithin(f, limits, old_, new_);
      }
    } else if o.forest.Valid() {
      BrokenStaysBroken(f, limits, old_, new_);
    }
  }
}
