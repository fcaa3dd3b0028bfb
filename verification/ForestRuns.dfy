/**
 What holds over whole runs of the container, and when the documented guard against circular
 chains works.
 */
module ForestRuns {
  import opened Options
  import opened VersionNames
  import opened ParentMaps
  import opened Forests
  import opened Pruning
  import opened Stores

  // ---------------------------------------------------------------- one put

  ghost function AfterPut(f: Forest, limits: Limits, old_: VersionName, new_: VersionName): Forest
    requires f.Valid()
  {
    var o := PutSpec(f, limits, old_, new_);
    if o.Inserted? then o.forest else f
  }

  /**
   A put is a put-if-absent on the declared parents: nothing but the pair is added, nothing but the
   root is lost, and what was lost or refused is what the caller is told.
   */
  lemma PutConserves(f: Forest, limits: Limits, old_: VersionName, new_: VersionName)
    requires f.Valid() && limits.Valid() && f.Within(limits) && PutIsSafe(f, limits, old_, new_)
    ensures var g := AfterPut(f, limits, old_, new_);
            match PutResult(PutSpec(f, limits, old_, new_), new_)
            case Err(_) => g == f
            case Ok(None) => g.declared == f.declared[new_ := old_]
            case Ok(Some(lost)) =>
              && new_ !in f.declared && lost !in g.declared
              && (lost == new_ || f.IsRoot(lost))
              && g.declared == f.declared[new_ := old_] - {lost}
              && |g.declared| == |f.declared|
  {
    var o := PutSpec(f, limits, old_, new_);
    hide Replacement, NoticesCycle, BreaksForest, ImpliesOtherRoot, NeedsNewBranch, Grounded, Tips, Kids;
    match o
    case Refused => assert f.declared[new_ := old_] - {new_} == f.declared;
    case AlreadyThere => assert f.declared[new_ := old_] == f.declared;
    case Inserted(_, removed) => InsertConserves(f, limits, old_, new_);
    case _ =>
  }

  lemma InsertConserves(f: Forest, limits: Limits, old_: VersionName, new_: VersionName)
    requires f.Valid() && limits.Valid() && f.Within(limits) && PutSpec(f, limits, old_, new_).Inserted?
    ensures var o := PutSpec(f, limits, old_, new_);
            && new_ !in f.declared
            && match o.removed
               case None => o.forest.declared == f.declared[new_ := old_]
               case Some(lost) =>
                 && f.IsRoot(lost) && o.forest.declared == f.declared[new_ := old_] - {lost}
                 && |o.forest.declared| == |f.declared|
  {
    hide Replacement, NoticesCycle, ImpliesOtherRoot, NeedsNewBranch, Grounded, Tips, Kids;
    var o := PutSpec(f, limits, old_, new_);
    if o.removed.Some? {
      Exchanged(f.declared, old_, new_, o.removed.value);
    }
  }

  lemma Exchanged(d: Links, old_: VersionName, new_: VersionName, lost: VersionName)
    requires new_ !in d && lost in d[new_ := old_]
    ensures |d[new_ := old_] - {lost}| == |d|
  {
    GrownSize(d, old_, new_);
    var d' := d[new_ := old_];
    assert (d' - {lost}).Keys == d'.Keys - {lost};
  }

  // ---------------------------------------------------------------- circular chains

  /** The put would make a version its own ancestor. */
  ghost predicate IsCircular(f: Forest, old_: VersionName, new_: VersionName)
    requires f.Valid()
  {
    new_ !in f.declared && !Grounded(f.declared[new_ := old_])
  }

  /**
   The documentation promises an error for every circular put.  The code gives one exactly when
   the put would make a second root or, for a version with an index, when the parent is itself
   linked to a parent, as the lowest-named of its children.
   */
  lemma CircularPutRefusedIff(f: Forest, limits: Limits, old_: VersionName, new_: VersionName)
    requires f.Valid() && limits.Valid() && f.Within(limits)
    requires new_.IsInitialised() && IsCircular(f, old_, new_)
    ensures PutSpec(f, limits, old_, new_) == Threw(InvalidArgument) <==>
            if IsRootPut(f, old_, new_) then TwoRoots(f, old_, new_)
            else old_ in f.declared && f.declared[old_] in f.declared && HasLowest(f.declared, f.declared[old_], old_)
  {
    GroundedAfterAdd(f.declared, old_, new_);
  }

  /** A version put under itself becomes an orphan that waits for itself, wherever the limits leave room. */
  lemma SelfPutIsAccepted(f: Forest, limits: Limits, v: VersionName)
    requires f.Valid() && v.IsInitialised() && v !in f.declared && !IsRootPut(f, v, v)
    requires |f.declared| < limits.maxVersions && |Tips(f.declared)| < limits.maxBranches
    ensures IsCircular(f, v, v) && PutSpec(f, limits, v, v) == Inserted(Grown(f, v, v), None)
    ensures Grown(f, v, v).declared[v] == v
  {
    GroundedAfterAdd(f.declared, v, v);
  }

  function Named(index: nat, value: nat): VersionName {
    VersionName(index, Identity(value))
  }

  /** Root 0-1 and orphan 7-2 waiting for 5-3; declaring 5-3 under 7-2 closes a cycle unnoticed. */
  lemma CircularPutCanBeAccepted()
    ensures var f := Forest(map[Named(0, 1) := DEFAULT_NAME, Named(7, 2) := Named(5, 3)], Some(Named(0, 1)));
            && f.Valid() && IsCircular(f, Named(7, 2), Named(5, 3))
            && PutSpec(f, Limits(10, 10), Named(7, 2), Named(5, 3)).Inserted?
  {
    var d := map[Named(0, 1) := DEFAULT_NAME, Named(7, 2) := Named(5, 3)];
    var f := Forest(d, Some(Named(0, 1)));
    BranchIs(d, [Named(0, 1)]);
    BranchIs(d, [Named(7, 2)]);
    assert f.Valid();
    GroundedAfterAdd(d, Named(7, 2), Named(5, 3));
    assert !NoticesCycle(f, Named(7, 2), Named(5, 3));
    assert Named(7, 2) in Kids(d, Named(5, 3));
    assert Named(7, 2) in f.OrphansOf(Named(5, 3));
    assert |d| == 2;
  }

  /**
   The search for cycles is left out for an index of 0: with root 5-1, which waits for 3-9, and 8-3
   under 7-2, which waits for 0-9, declaring 0-9 under 8-3 closes a cycle although 8-3 is a lowest child.
   */
  lemma CircularRootPutCanBeAccepted()
    ensures var f := Forest(map[Named(5, 1) := Named(3, 9), Named(7, 2) := Named(0, 9), Named(8, 3) := Named(7, 2)], Some(Named(5, 1)));
            && f.Valid() && IsCircular(f, Named(8, 3), Named(0, 9)) && IsRootPut(f, Named(8, 3), Named(0, 9))
            && HasLowest(f.declared, Named(7, 2), Named(8, 3))
            && PutSpec(f, Limits(10, 10), Named(8, 3), Named(0, 9)).Inserted?
  {
    var d := map[Named(5, 1) := Named(3, 9), Named(7, 2) := Named(0, 9), Named(8, 3) := Named(7, 2)];
    var f := Forest(d, Some(Named(5, 1)));
    BranchIs(d, [Named(5, 1)]);
    BranchIs(d, [Named(7, 2)]);
    BranchIs(d, [Named(8, 3), Named(7, 2)]);
    assert f.Valid();
    ThreeCircular(d, f);
  }

  lemma ThreeCircular(d: Links, f: Forest)
    requires d == map[Named(5, 1) := Named(3, 9), Named(7, 2) := Named(0, 9), Named(8, 3) := Named(7, 2)]
    requires f == Forest(d, Some(Named(5, 1))) && f.Valid()
    ensures IsCircular(f, Named(8, 3), Named(0, 9)) && HasLowest(d, Named(7, 2), Named(8, 3))
    ensures PutSpec(f, Limits(10, 10), Named(8, 3), Named(0, 9)).Inserted?
  {
    assert ClosesCycle(d, Named(8, 3), Named(0, 9)) by {
      BranchIs(d, [Named(8, 3), Named(7, 2)]);
    }
    GroundedAfterAdd(d, Named(8, 3), Named(0, 9));
    assert Named(8, 3) in Kids(d, Named(7, 2));
    assert Kids(d, Named(7, 2)) == {Named(8, 3)};
    assert |d| == 3;
    assert Named(7, 2) in f.OrphansOf(Named(0, 9));
  }

  // ---------------------------------------------------------------- indices that grow

  /** Every version declared under an initialised parent has a larger index than it. */
  ghost predicate IndexOrdered(d: Links) {
    forall n | n in d :: d[n].IsInitialised() ==> d[n].index < n.index
  }

  ghost predicate OrderedPair(old_: VersionName, new_: VersionName) {
    old_.IsInitialised() ==> old_.index < new_.index
  }

  lemma {:induction false} IndicesFallUpwards(d: Links, s: seq<VersionName>)
    requires IndexOrdered(d) && IsBranch(d, s) && forall n | n in d :: n.IsInitialised()
    ensures s[|s| - 1] in d && s[|s| - 1].index <= s[0].index
    decreases |s|
  {
    if |s| > 1 {
      IndicesFallUpwards(d, s[1..]);
    }
  }

  /** With growing indices no put is circular, none is refused as circular, and none hangs. */
  lemma OrderedPutIsSafe(f: Forest, limits: Limits, old_: VersionName, new_: VersionName)
    requires f.Valid() && IndexOrdered(f.declared) && new_.IsInitialised() && OrderedPair(old_, new_)
    ensures new_ !in f.declared ==> !BreaksForest(f, old_, new_) && !NoticesCycle(f, old_, new_)
    ensures PutSpec(f, limits, old_, new_) != Undefined(Hangs)
    ensures PutIsSafe(f, limits, old_, new_) <==> !PutSpec(f, limits, old_, new_).Undefined?
  {
    if old_ in f.declared {
      IndicesFallUpwards(f.declared, Branch(f.declared, old_));
    }
  }

  lemma OrderedStaysOrdered(f: Forest, limits: Limits, op: Op)
    requires f.Valid() && IndexOrdered(f.declared) && (op.Put? ==> OrderedPair(op.old_, op.new_))
    ensures IndexOrdered(Step(f, limits, op).declared)
  {
  }

  // ---------------------------------------------------------------- runs

  datatype Op = Put(old_: VersionName, new_: VersionName) | DeleteBranchUntilFork(tip: VersionName) | Clear

  ghost function Step(f: Forest, limits: Limits, op: Op): Forest
    requires f.Valid()
  {
    match op
    case Put(old_, new_) => AfterPut(f, limits, old_, new_)
    case DeleteBranchUntilFork(tip) => if tip in Tips(f.declared) then DeleteSpec(f, tip) else f
    case Clear => EMPTY_FOREST
  }

  ghost predicate StepIsSafe(f: Forest, limits: Limits, op: Op)
    requires f.Valid()
  {
    op.Put? ==> PutIsSafe(f, limits, op.old_, op.new_)
  }

  lemma StepKeepsForest(f: Forest, limits: Limits, op: Op)
    requires f.Valid() && limits.Valid() && f.Within(limits) && StepIsSafe(f, limits, op)
    ensures Step(f, limits, op).Valid() && Step(f, limits, op).Within(limits)
  {
    match op
    case Put(old_, new_) =>
      if PutSpec(f, limits, old_, new_).Inserted? {
        PutKeepsForestIff(f, limits, old_, new_);
      }
    case DeleteBranchUntilFork(tip) =>
      if tip in Tips(f.declared) {
        DeleteKeepsForest(f, tip, limits);
      }
    case Clear =>
  }

  /** The forest after a run, or None if some put of it is not safe. */
  ghost function Run(f: Forest, limits: Limits, ops: seq<Op>): Option<Forest>
    requires f.Valid() && limits.Valid() && f.Within(limits)
    decreases |ops|
  {
    if ops == [] then Some(f)
    else if !StepIsSafe(f, limits, ops[0]) then None
    else
      StepKeepsForest(f, limits, ops[0]);
      Run(Step(f, limits, ops[0]), limits, ops[1..])
  }

  /** Every state of every safe run is a forest within its limits. */
  lemma {:induction false} RunKeepsForest(f: Forest, limits: Limits, ops: seq<Op>)
    requires f.Valid() && limits.Valid() && f.Within(limits)
    requires Run(f, limits, ops).Some?
    ensures Run(f, limits, ops).value.Valid() && Run(f, limits, ops).value.Within(limits)
    decreases |ops|
  {
    if ops != [] {
      StepKeepsForest(f, limits, ops[0]);
      RunKeepsForest(Step(f, limits, ops[0]), limits, ops[1..]);
    }
  }

  /** Some put of the run dereferences an end iterator or fails an assertion, both of them at the branch limit. */
  ghost predicate MeetsFault(f: Forest, limits: Limits, ops: seq<Op>)
    requires f.Valid() && limits.Valid() && f.Within(limits)
    decreases |ops|
  {
    ops != [] &&
    if ops[0].Put? && PutSpec(f, limits, ops[0].old_, ops[0].new_) in {Undefined(DereferencesEnd), Undefined(FailsAssertion)} then true
    else if StepIsSafe(f, limits, ops[0]) then
      StepKeepsForest(f, limits, ops[0]);
      MeetsFault(Step(f, limits, ops[0]), limits, ops[1..])
    else false
  }

  ghost predicate OrderedOps(ops: seq<Op>) {
    forall op | op in ops :: op.Put? ==> OrderedPair(op.old_, op.new_)
  }

  lemma OrderedStepIsSafeIff(f: Forest, limits: Limits, op: Op)
    requires f.Valid() && IndexOrdered(f.declared) && (op.Put? ==> OrderedPair(op.old_, op.new_))
    ensures StepIsSafe(f, limits, op) <==>
            !(op.Put? && PutSpec(f, limits, op.old_, op.new_) in {Undefined(DereferencesEnd), Undefined(FailsAssertion)})
  {
    if op.Put? && op.new_.IsInitialised() {
      OrderedPutIsSafe(f, limits, op.old_, op.new_);
    }
  }

  /**
   Every run with growing indices, from the empty container say, ends as a forest within both limits
   and with growing indices, unless a put of it meets one of the two faults at the branch limit.
   */
  lemma {:induction false} OrderedRunIsSafe(f: Forest, limits: Limits, ops: seq<Op>)
    requires f.Valid() && limits.Valid() && f.Within(limits) && IndexOrdered(f.declared) && OrderedOps(ops)
    ensures Run(f, limits, ops).None? <==> MeetsFault(f, limits, ops)
    ensures Run(f, limits, ops).Some? ==>
              var g := Run(f, limits, ops).value; g.Valid() && g.Within(limits) && IndexOrdered(g.declared)
    decreases |ops|
  {
    hide StepIsSafe, Step, IndexOrdered, OrderedPair;
    if ops != [] {
      assert ops[0] in ops;
      OrderedStepIsSafeIff(f, limits, ops[0]);
      if StepIsSafe(f, limits, ops[0]) {
        StepKeepsForest(f, limits, ops[0]);
        OrderedStaysOrdered(f, limits, ops[0]);
        OrderedRunIsSafe(Step(f, limits, ops[0]), limits, ops[1..]);
      }
    }
  }

  /** The forest after a run in which nothing is refused, evicted or thrown. */
  ghost function CleanRun(f: Forest, limits: Limits, puts: seq<(VersionName, VersionName)>): Option<Forest>
    requires f.Valid() && limits.Valid() && f.Within(limits)
    decreases |puts|
  {
    if puts == [] then Some(f)
    else
      var o := PutSpec(f, limits, puts[0].0, puts[0].1);
      if o.AlreadyThere? then CleanRun(f, limits, puts[1..])
      else if o.Inserted? && o.removed.None? && !BreaksForest(f, puts[0].0, puts[0].1) then
        PutKeepsForestIff(f, limits, puts[0].0, puts[0].1);
        CleanRun(o.forest, limits, puts[1..])
      else None
  }

  /** e declares what d declares and the given pairs, and nothing else. */
  ghost predicate Extends(d: Links, puts: seq<(VersionName, VersionName)>, e: Links) {
    && (forall n | n in d :: n in e && e[n] == d[n])
    && (forall p | p in puts :: p.1 in e && e[p.1] == p.0)
    && (forall n | n in e :: n in d || (e[n], n) in puts)
  }

  lemma ExtendsStep(d: Links, puts: seq<(VersionName, VersionName)>, e: Links)
    requires puts != [] && (puts[0].1 in d ==> d[puts[0].1] == puts[0].0)
    requires Extends(d[puts[0].1 := puts[0].0], puts[1..], e)
    ensures Extends(d, puts, e)
  {
    var p := puts[0];
    var d' := d[p.1 := p.0];
    assert puts == [p] + puts[1..];
    assert p.1 in d' && d'[p.1] == p.0;
    forall n | n in e ensures n in d || (e[n], n) in puts {
      if n in d' && n !in d {
        assert n == p.1 && (e[n], n) == p;
      }
    }
  }

  lemma ExtendsUnique(d: Links, a: seq<(VersionName, VersionName)>, b: seq<(VersionName, VersionName)>, e: Links,
                      e': Links)
    requires Extends(d, a, e) && Extends(d, b, e') && forall p :: p in a <==> p in b
    ensures e == e'
  {
    forall n ensures n in e <==> n in e' {
    }
  }

  /** After a clean run exactly the pairs put are declared besides those declared before. */
  lemma {:induction false} CleanRunDeclares(f: Forest, limits: Limits, puts: seq<(VersionName, VersionName)>)
    requires f.Valid() && limits.Valid() && f.Within(limits)
    requires CleanRun(f, limits, puts).Some?
    ensures Extends(f.declared, puts, CleanRun(f, limits, puts).value.declared)
    decreases |puts|
  {
    if puts != [] {
      var o := PutSpec(f, limits, puts[0].0, puts[0].1);
      if o.AlreadyThere? {
        CleanRunDeclares(f, limits, puts[1..]);
        assert f.declared[puts[0].1 := puts[0].0] == f.declared;
      } else {
        PutKeepsForestIff(f, limits, puts[0].0, puts[0].1);
        CleanRunDeclares(o.forest, limits, puts[1..]);
      }
      ExtendsStep(f.declared, puts, CleanRun(f, limits, puts).value.declared);
    }
  }

  /**
   The order of arrival does not matter: two clean runs of the same puts end with the same declared
   parents, hence the same links and tips, whichever version each of them took for the root.
   */
  lemma {:induction false} OrderIndependence(f: Forest, limits: Limits, a: seq<(VersionName, VersionName)>,
      b: seq<(VersionName, VersionName)>,
                          s: Store, t: Store)
    requires f.Valid() && limits.Valid() && f.Within(limits)
    requires multiset(a) == multiset(b)
    requires CleanRun(f, limits, a).Some? && Represents(s, CleanRun(f, limits, a).value)
    requires CleanRun(f, limits, b).Some? && Represents(t, CleanRun(f, limits, b).value)
    ensures s.versions == t.versions && s.tips == t.tips
    ensures CleanRun(f, limits, a).value.declared == CleanRun(f, limits, b).value.declared
  {
    CleanRunDeclares(f, limits, a);
    CleanRunDeclares(f, limits, b);
    forall p ensures p in a <==> p in b {
      assert p in a <==> p in multiset(a);
      assert p in b <==> p in multiset(b);
    }
    var d, d' := CleanRun(f, limits, a).value.declared, CleanRun(f, limits, b).value.declared;
    ExtendsUnique(f.declared, a, b, d, d');
    SameVersions(s.versions, t.versions, d);
  }

  lemma SameVersions(v: Versions, w: Versions, d: Links)
    requires VersionsOf(v, d) && VersionsOf(w, d)
    ensures v == w
  {
  }

  /** The root may differ: the version which arrived first is taken for it. */
  lemma ChosenRootMayDiffer()
    ensures var a, b := (Named(1, 1), Named(2, 2)), (Named(1, 3), Named(2, 4));
            var limits := Limits(10, 10);
            && CleanRun(EMPTY_FOREST, limits, [a, b]).Some? && CleanRun(EMPTY_FOREST, limits, [b, a]).Some?
            && CleanRun(EMPTY_FOREST, limits, [a, b]).value.root != CleanRun(EMPTY_FOREST, limits, [b, a]).value.root
  {
    var a, b := (Named(1, 1), Named(2, 2)), (Named(1, 3), Named(2, 4));
    TwoFronts(a, b);
    TwoFronts(b, a);
  }

  lemma TwoFronts(a: (VersionName, VersionName), b: (VersionName, VersionName))
    requires {a.0, a.1} !! {b.0, b.1} && a.0 != a.1 && b.0 != b.1 && a.0.index > 0 && b.0.index > 0 && a.1.index > 0
    requires b.1.index > 0
    requires a.0.IsInitialised() && a.1.IsInitialised() && b.0.IsInitialised() && b.1.IsInitialised()
    ensures CleanRun(EMPTY_FOREST, Limits(10, 10), [a, b]) == Some(Forest(map[a.1 := a.0, b.1 := b.0], Some(a.1)))
  {
    var limits := Limits(10, 10);
    var f := Forest(map[a.1 := a.0], Some(a.1));
    assert Tips(EMPTY_FOREST.declared) == {};
    assert !BreaksForest(EMPTY_FOREST, a.0, a.1);
    assert EMPTY_FOREST.declared[a.1 := a.0] == f.declared;
    assert PutSpec(EMPTY_FOREST, limits, a.0, a.1) == Inserted(f, None);
    PutKeepsForestIff(EMPTY_FOREST, limits, a.0, a.1);
    SecondFront(f, a, b);
    var g := Forest(map[a.1 := a.0, b.1 := b.0], Some(a.1));
    PutKeepsForestIff(f, limits, b.0, b.1);
    assert [a, b][1..] == [b] && [b][1..] == [];
    assert CleanRun(g, limits, []) == Some(g);
    assert CleanRun(f, limits, [b]) == Some(g);
  }

  lemma SecondFront(f: Forest, a: (VersionName, VersionName), b: (VersionName, VersionName))
    requires {a.0, a.1} !! {b.0, b.1} && b.0 != b.1 && b.0.index > 0 && b.1.index > 0
    requires f == Forest(map[a.1 := a.0], Some(a.1)) && f.Valid()
    requires b.0.IsInitialised() && b.1.IsInitialised()
    ensures !BreaksForest(f, b.0, b.1)
    ensures PutSpec(f, Limits(10, 10), b.0, b.1) == Inserted(Forest(map[a.1 := a.0, b.1 := b.0], Some(a.1)), None)
  {
    assert b.0 !in f.declared && b.1 !in f.declared;
    assert Tips(f.declared) <= {a.1};
    assert Tips(f.declared) == {} || Tips(f.declared) == {a.1};
    assert |f.declared| == 1;
    assert f.declared[b.1 := b.0] == map[a.1 := a.0, b.1 := b.0];
    assert !AdoptsRoot(f, b.1);
  }
}
