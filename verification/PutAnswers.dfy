/**
 What the caller of a Put is told and what becomes of the versions, said of the declared parents, the
 root and the two limits alone.
 */
module PutAnswers {
  import opened Options
  import opened VersionNames
  import opened ParentMaps
  import opened Forests
  import opened ForestRuns
  import opened Pruning

  /** The version is put as a root: its parent is not initialised, the container is empty, or its index is 0. */
  predicate PutAsRoot(f: Forest, old_: VersionName, new_: VersionName) {
    old_.id.Uninitialised? || |f.declared| == 0 || new_.index == 0
  }

  predicate RootWaitsFor(f: Forest, new_: VersionName) {
    f.root.Some? && f.root.value in f.declared && f.declared[f.root.value] == new_
  }

  /** Some version other than the root waits for n. */
  ghost predicate OrphanWaitsFor(f: Forest, n: VersionName) {
    exists o :: o in f.declared && f.declared[o] == n && f.root != Some(o)
  }

  ghost predicate HasChild(f: Forest, p: VersionName) {
    exists c :: c in f.declared && f.declared[c] == p
  }

  ghost predicate IsLowestChild(f: Forest, p: VersionName, v: VersionName) {
    && v in f.declared && f.declared[v] == p
    && forall c | c in f.declared && f.declared[c] == p :: c == v || Less(v, c)
  }

  /** The answer of a put, and the forest it leaves. */
  ghost predicate Answers(f: Forest, limits: Limits, old_: VersionName, new_: VersionName, r: Result<Option<VersionName>>, g: Forest)
    requires f.Valid()
  {
    r == PutResult(PutSpec(f, limits, old_, new_), new_) && g == AfterPut(f, limits, old_, new_)
  }

  /** A version that is there stays as it is: putting it again under its parent does nothing, and under another is an error. */
  lemma PresentPut(f: Forest, limits: Limits, old_: VersionName, new_: VersionName, r: Result<Option<VersionName>>, g: Forest)
    requires f.Valid() && new_ in f.declared && Answers(f, limits, old_, new_, r, g)
    ensures g == f && r == if f.declared[new_] == old_ then Ok(None) else Err(InvalidArgument)
  {
    assert new_.IsInitialised();
  }

  /**
   A full container hands a version back that is put as a root or that its root waits for, and is left
   as it was; any other version takes the place of the root.
   */
  lemma FullPut(f: Forest, limits: Limits, old_: VersionName, new_: VersionName, r: Result<Option<VersionName>>, g: Forest)
    requires f.Valid() && limits.Valid() && f.Within(limits) && PutIsSafe(f, limits, old_, new_)
    requires Answers(f, limits, old_, new_, r, g) && new_ !in f.declared && |f.declared| == limits.maxVersions && r.Ok?
    ensures f.root.Some?
    ensures r == Ok(Some(new_)) && g == f <==> old_.id.Uninitialised? || new_.index == 0 || RootWaitsFor(f, new_)
    ensures !(r == Ok(Some(new_)) && g == f) ==> r == Ok(f.root) && g.declared == f.declared[new_ := old_] - {f.root.value}
  {
  }

  /** With room under both limits nothing is lost. */
  lemma RoomyPut(f: Forest, limits: Limits, old_: VersionName, new_: VersionName, r: Result<Option<VersionName>>, g: Forest)
    requires f.Valid() && limits.Valid() && f.Within(limits) && PutIsSafe(f, limits, old_, new_)
    requires Answers(f, limits, old_, new_, r, g) && new_ !in f.declared && r.Ok?
    requires |f.declared| < limits.maxVersions && |Tips(f.declared)| < limits.maxBranches
    ensures r == Ok(None) && g.declared == f.declared[new_ := old_]
  {
  }

  /**
   The new version would start a branch at the branch limit: no orphan waits for it, and its parent is
   absent, or has a child already.
   */
  ghost predicate OneBranchTooMany(f: Forest, limits: Limits, old_: VersionName, new_: VersionName) {
    && |Tips(f.declared)| == limits.maxBranches && !OrphanWaitsFor(f, new_)
    && (old_ !in f.declared || HasChild(f, old_))
  }

  lemma WaitingIff(f: Forest, n: VersionName)
    ensures f.OrphansOf(n) == {} <==> !OrphanWaitsFor(f, n)
    ensures Kids(f.declared, n) == {} <==> !HasChild(f, n)
  {
    if f.OrphansOf(n) != {} {
      var o :| o in f.OrphansOf(n);
    }
    if o :| o in f.declared && f.declared[o] == n && f.root != Some(o) {
      assert o in f.OrphansOf(n);
    }
    if Kids(f.declared, n) != {} {
      var c :| c in Kids(f.declared, n);
    }
    if c :| c in f.declared && f.declared[c] == n {
      assert c in Kids(f.declared, n);
    }
  }

  lemma TermsAre(f: Forest, limits: Limits, old_: VersionName, new_: VersionName)
    requires f.Valid() && f.root.Some?
    ensures IsRootPut(f, old_, new_) <==> PutAsRoot(f, old_, new_)
    ensures AdoptsRoot(f, new_) <==> RootWaitsFor(f, new_)
    ensures AtBranchLimit(f, limits, new_) <==> |Tips(f.declared)| == limits.maxBranches && !OrphanWaitsFor(f, new_)
    ensures NeedsNewBranch(f, old_, new_) <==> (!PutAsRoot(f, old_, new_) && old_ !in f.declared) || HasChild(f, old_)
    ensures f.RootSet() !! Tips(f.declared) <==> HasChild(f, f.root.value)
  {
    WaitingIff(f, new_);
    WaitingIff(f, old_);
    WaitingIff(f, f.root.value);
    assert f.root.value in f.declared;
    hide Grounded, OrphanWaitsFor, HasChild, Kids;
  }

  lemma EmptyPut(f: Forest, limits: Limits, old_: VersionName, new_: VersionName)
    requires f.Valid() && limits.Valid() && f.root.None?
    ensures LimitSpec(f, limits, old_, new_).Inserted? && PutAsRoot(f, old_, new_)
    ensures !OneBranchTooMany(f, limits, old_, new_)
  {
    assert f.declared == map[] && Tips(f.declared) == {};
  }

  /** With room for a version, the root goes exactly if there would be one branch too many; it is a branch by itself then. */
  lemma BranchingPut(f: Forest, limits: Limits, old_: VersionName, new_: VersionName, r: Result<Option<VersionName>>, g: Forest)
    requires f.Valid() && limits.Valid() && f.Within(limits) && PutIsSafe(f, limits, old_, new_)
    requires Answers(f, limits, old_, new_, r, g) && new_ !in f.declared && r.Ok? && |f.declared| < limits.maxVersions
    ensures if OneBranchTooMany(f, limits, old_, new_) then
              && f.root.Some? && !HasChild(f, f.root.value)
              && r == Ok(f.root) && g.declared == f.declared[new_ := old_] - {f.root.value}
            else r == Ok(None) && g.declared == f.declared[new_ := old_]
  {
    hide Grounded, Replacement, NoticesCycle, TwoRoots, ImpliesOtherRoot, BreaksForest, Tips, Kids, OrphanWaitsFor, HasChild, AtBranchLimit, NeedsNewBranch, AdoptsRoot, Front;
    if f.root.Some? {
      TermsAre(f, limits, old_, new_);
    } else {
      EmptyPut(f, limits, old_, new_);
    }
  }

  /** The arguments which a put of an absent version refuses. */
  ghost predicate BadArguments(f: Forest, old_: VersionName, new_: VersionName)
    requires f.Valid()
  {
    || new_.id.Uninitialised?
    || (PutAsRoot(f, old_, new_) && f.root.Some? && f.declared[f.root.value].id.Uninitialised?)
    || (&& !PutAsRoot(f, old_, new_) && old_ in f.declared && f.declared[old_] in f.declared
        && f.declared[Front(f.declared, old_)] == new_ && IsLowestChild(f, f.declared[old_], old_))
    || (&& !PutAsRoot(f, old_, new_) && old_ !in f.declared && f.root.Some?
        && f.root.value.index == 0 && old_.index == 0 && f.root.value.id != old_.id)
  }

  lemma LowestIff(f: Forest, p: VersionName, v: VersionName)
    ensures HasLowest(f.declared, p, v) <==> IsLowestChild(f, p, v)
  {
    var kids := Kids(f.declared, p);
    if IsLowestChild(f, p, v) {
      assert v in kids;
      assert Least(kids) == v by {
        assert f.declared[Least(kids)] == p;
      }
    }
    if HasLowest(f.declared, p, v) {
      forall c | c in f.declared && f.declared[c] == p ensures c == v || Less(v, c) {
        assert c in kids;
      }
    }
  }

  lemma BadArgumentsAre(f: Forest, old_: VersionName, new_: VersionName)
    requires f.Valid()
    ensures PutAsRoot(f, old_, new_) <==> IsRootPut(f, old_, new_)
    ensures BadArguments(f, old_, new_) <==>
            || !new_.IsInitialised() || TwoRoots(f, old_, new_)
            || (!IsRootPut(f, old_, new_) && NoticesCycle(f, old_, new_)) || ImpliesOtherRoot(f, old_, new_)
  {
    if old_ in f.declared {
      LowestIff(f, f.declared[old_], old_);
    }
    hide Grounded, HasLowest, IsLowestChild;
  }

  /** The container is full, and a version put as a root, or one that its root waits for, is handed back. */
  ghost predicate HandedBack(f: Forest, limits: Limits, old_: VersionName, new_: VersionName) {
    |f.declared| == limits.maxVersions && (PutAsRoot(f, old_, new_) || RootWaitsFor(f, new_))
  }

  lemma LimitsAre(f: Forest, limits: Limits, old_: VersionName, new_: VersionName)
    requires f.Valid() && f.root.Some? && new_ !in f.declared
    ensures var o := LimitSpec(f, limits, old_, new_);
            && o != Threw(InvalidArgument) && (o.Threw? ==> o.error == CannotExceedLimit) && !o.AlreadyThere?
            && (o.Threw? <==> !HandedBack(f, limits, old_, new_) && OneBranchTooMany(f, limits, old_, new_)
                              && !PutAsRoot(f, old_, new_) && HasChild(f, f.root.value))
            && (o.Undefined? <==>
                  && !HandedBack(f, limits, old_, new_)
                  && (|| (PutAsRoot(f, old_, new_) && |Tips(f.declared)| == limits.maxBranches && !OrphanWaitsFor(f, new_))
                      || (!PutAsRoot(f, old_, new_) && RootWaitsFor(f, new_)
                          && if OneBranchTooMany(f, limits, old_, new_) then !HasChild(f, f.root.value)
                             else old_ in f.declared && f.declared[Front(f.declared, old_)] == new_)))
  {
    hide Grounded, OrphanWaitsFor, HasChild, AfterInsert, Kids, Tips, PutAsRoot, IsRootPut, AdoptsRoot, RootWaitsFor, AtBranchLimit, NeedsNewBranch, Forest.RootSet, Front;
    TermsAre(f, limits, old_, new_);
  }

  /** A put of an absent version fails exactly for such arguments, or if a branch is too many which the root cannot give way to. */
  lemma PutFails(f: Forest, limits: Limits, old_: VersionName, new_: VersionName, r: Result<Option<VersionName>>, g: Forest)
    requires f.Valid() && limits.Valid() && f.Within(limits) && PutIsSafe(f, limits, old_, new_)
    requires Answers(f, limits, old_, new_, r, g) && new_ !in f.declared
    ensures r == Err(InvalidArgument) <==> BadArguments(f, old_, new_)
    ensures r == Err(CannotExceedLimit) <==>
            && !BadArguments(f, old_, new_) && !HandedBack(f, limits, old_, new_)
            && OneBranchTooMany(f, limits, old_, new_) && HasChild(f, f.root.value)
    ensures r.Err? ==> g == f && r.error in {InvalidArgument, CannotExceedLimit}
  {
    BadArgumentsAre(f, old_, new_);
    hide BadArguments, TwoRoots, NoticesCycle, ImpliesOtherRoot, LimitSpec, BreaksForest, Grounded;
    if f.root.Some? {
      LimitsAre(f, limits, old_, new_);
    } else {
      EmptyPut(f, limits, old_, new_);
    }
    hide OneBranchTooMany, HandedBack, HasChild;
  }

  /**
   The program has no defined behaviour exactly for a root at the branch limit; for a version the root
   waits for, when it would be the childless root that has to go; and when the walk up does not end.
   */
  lemma PutUndefinedIff(f: Forest, limits: Limits, old_: VersionName, new_: VersionName)
    requires f.Valid() && limits.Valid() && f.Within(limits)
    ensures PutSpec(f, limits, old_, new_).Undefined? <==>
            && new_ !in f.declared && !BadArguments(f, old_, new_) && !HandedBack(f, limits, old_, new_) && f.root.Some?
            && (|| (PutAsRoot(f, old_, new_) && |Tips(f.declared)| == limits.maxBranches && !OrphanWaitsFor(f, new_))
                || (!PutAsRoot(f, old_, new_) && RootWaitsFor(f, new_)
                    && if OneBranchTooMany(f, limits, old_, new_) then !HasChild(f, f.root.value)
                       else old_ in f.declared && f.declared[Front(f.declared, old_)] == new_))
  {
    BadArgumentsAre(f, old_, new_);
    hide BadArguments, TwoRoots, NoticesCycle, ImpliesOtherRoot, LimitSpec, BreaksForest, Grounded;
    if f.root.None? {
      EmptyPut(f, limits, old_, new_);
    } else if new_ !in f.declared {
      LimitsAre(f, limits, old_, new_);
    }
    hide OneBranchTooMany, HandedBack, HasChild, OrphanWaitsFor;
  }

  /** Unless the version is put as a root, the branch of the old root now starts with the root. */
  lemma RootStaysInBranch(f: Forest, limits: Limits, old_: VersionName, new_: VersionName, g: Forest)
    requires f.Valid() && limits.Valid() && f.Within(limits) && PutIsSafe(f, limits, old_, new_)
    requires new_ !in f.declared && PutSpec(f, limits, old_, new_) == Inserted(g, None)
    ensures HasBranch(g.declared, new_) && (f.root.Some? ==> HasBranch(g.declared, f.root.value))
    ensures g.root == Some(if PutAsRoot(f, old_, new_) then new_ else Front(g.declared, f.root.value))
  {
    var d, d' := f.declared, f.declared[new_ := old_];
    GroundedAfterAdd(d, old_, new_);
    NewBranch(d, old_, new_);
    var t := [new_] + if old_ in d then Branch(d, old_) else [];
    BranchIs(d', t);
    BadArgumentsAre(f, old_, new_);
    if f.root.Some? {
      BranchAfterAdd(d, old_, new_, f.root.value);
      FrontIsFront(d, f.root.value);
    }
  }

  /** When the root goes, the lowest of its children takes its place. */
  lemma LowestChildReplaces(f: Forest)
    requires f.Valid() && f.root.Some? && HasChild(f, f.root.value)
    ensures EraseRoot(f).root.Some? && IsLowestChild(f, f.root.value, EraseRoot(f).root.value)
  {
    WaitingIff(f, f.root.value);
    var v := EraseRoot(f).root.value;
    assert v in Kids(f.declared, f.root.value);
    forall c | c in f.declared && f.declared[c] == f.root.value ensures c == v || Less(v, c) {
      assert c in Kids(f.declared, f.root.value);
    }
  }

  /** The root that is left by an insert which had it go. */
  lemma EvictedRootReplaced(f: Forest, limits: Limits, old_: VersionName, new_: VersionName, g: Forest)
    requires f.Valid() && limits.Valid() && f.Within(limits) && PutIsSafe(f, limits, old_, new_)
    requires new_ !in f.declared && f.root.Some? && PutSpec(f, limits, old_, new_) == Inserted(g, f.root)
    ensures var h := Forest(f.declared[new_ := old_], f.root);
            && h.Valid() && g == EraseRoot(h)
            && (HasChild(h, f.root.value) ==> g.root.Some? && IsLowestChild(h, f.root.value, g.root.value))
  {
    var h := Grown(f, old_, new_);
    GrownValid(f, old_, new_);
    assert h.root == f.root;
    if HasChild(h, f.root.value) {
      LowestChildReplaces(h);
    }
    hide Replacement, Grounded;
  }
}
