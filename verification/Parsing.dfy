/** When what is read is a forest, whatever runs of names were written. */
module Parsing {
  import opened Options
  import opened VersionNames
  import opened ParentMaps
  import opened Forests
  import opened Stores
  import opened Serialisation

  /** Every name is initialised, and none is also the absent parent of the root or of an orphan. */
  ghost predicate StoreApart(e: Store) {
    && (forall n | n in e.versions :: n.IsInitialised())
    && (e.root.Some? ==> e.rootAbsent !in e.versions)
    && (forall k | k in e.orphans :: k !in e.versions)
  }

  // ---------------------------------------------------------------- reading only adds

  ghost predicate Grows(s: Store, e: Store) {
    && s.versions.Keys <= e.versions.Keys && s.orphans.Keys <= e.orphans.Keys && s.limits == e.limits
    && (s.root.Some? ==> e.root == s.root && e.rootAbsent == s.rootAbsent)
  }

  lemma ChildGrows(s: Store, n: VersionName, c: VersionName)
    requires n in s.versions && c !in s.versions
    ensures Grows(s, ChildRead(s, n, c)) && ChildRead(s, n, c).versions.Keys == s.versions.Keys + {c}
  {
  }

  lemma FirstGrows(s: Store, parent: Option<VersionName>, branches: seq<SerialBranch>, i: nat)
    requires i < |branches| && branches[i].names != [] && (parent.Some? ==> parent.value in s.versions)
    ensures var r := ParseFirst(s, parent, branches, i); r.Read? ==> Grows(s, r.store)
  {
  }

  lemma {:induction false} BranchGrows(s: Store, parent: Option<VersionName>, branches: seq<SerialBranch>, i: nat)
    requires NoEmptyRun(branches) && (parent.Some? ==> parent.value in s.versions)
    ensures var r := ParseBranch(s, parent, branches, i); r.Read? ==> Grows(s, r.store)
    decreases Rank(branches, i), 0, 0
  {
    if i < |branches| {
      assert branches[i] in branches;
      FirstGrows(s, parent, branches, i);
      var first := ParseFirst(s, parent, branches, i);
      if first.Read? {
        NamesGrow(first.store, branches[i].names[0], branches[i].names[1..], branches, i + 1);
      }
    }
  }

  lemma {:induction false} NamesGrow(s: Store, previous: SerialName, names: seq<SerialName>, branches: seq<SerialBranch>, i: nat)
    requires NoEmptyRun(branches) && previous.name in s.versions
    ensures var r := ParseNames(s, previous, names, branches, i); r.Read? ==> Grows(s, r.store)
    decreases Rank(branches, i), 2, |names|
  {
    if names != [] {
      if names[0].name !in s.versions {
        ChildGrows(s, previous.name, names[0].name);
        NamesGrow(ChildRead(s, previous.name, names[0].name), names[0], names[1..], branches, i);
      }
    } else if previous.forkingChildCount.Some? {
      ForksGrow(s, previous.name, previous.forkingChildCount.value, branches, i);
    }
  }

  lemma {:induction false} ForksGrow(s: Store, parent: VersionName, count: nat, branches: seq<SerialBranch>, i: nat)
    requires NoEmptyRun(branches) && parent in s.versions
    ensures var r := ParseForks(s, parent, count, branches, i); r.Read? ==> Grows(s, r.store)
    decreases Rank(branches, i), 1, count
  {
    if count > 0 {
      BranchGrows(s, Some(parent), branches, i);
      var read := ParseBranch(s, Some(parent), branches, i);
      if read.Read? {
        ForksGrow(read.store, parent, count - 1, branches, read.next);
      }
    }
  }

  lemma {:induction false} AllGrow(s: Store, branches: seq<SerialBranch>, i: nat)
    requires NoEmptyRun(branches)
    ensures var r := ParseAll(s, branches, i); r.Read? ==> Grows(s, r.store)
    decreases Rank(branches, i)
  {
    if i < |branches| {
      BranchGrows(s, None, branches, i);
      var read := ParseBranch(s, None, branches, i);
      if read.Read? {
        AllGrow(read.store, branches, read.next);
      }
    }
  }

  // ---------------------------------------------------------------- what has been read is a forest

  /** The structures are those of f, but for the tips among the versions whose trees have yet to be read. */
  ghost predicate Shape(s: Store, f: Forest, open: set<VersionName>) {
    && f.Valid() && VersionsOf(s.versions, f.declared) && RootOf(s.rootAbsent, s.root, f)
    && Stores.OrphansOf(s.orphans, f) && s.tips == Tips(f.declared) - open
  }

  /** No version waits for n, or is linked to it. */
  ghost predicate Unused(d: Links, n: VersionName) {
    forall m | m in d :: d[m] != n
  }

  ghost predicate Keeps(d: Links, e: Links) {
    forall n | n in d :: n in e && e[n] == d[n]
  }

  lemma WaitsOutside(s: Store, f: Forest, open: set<VersionName>, c: VersionName)
    requires Shape(s, f, open) && !Unused(f.declared, c) && c !in s.versions
    ensures c in s.orphans || (s.root.Some? && s.rootAbsent == c)
  {
    var m :| m in f.declared && f.declared[m] == c;
    if !f.IsRoot(m) {
      assert m in f.OrphansOf(c);
    }
  }

  /** No version read so far waits for a name yet to be read. */
  lemma NoneWaits(s: Store, f: Forest, open: set<VersionName>, e: Store, c: VersionName)
    requires Shape(s, f, open) && Grows(s, e) && StoreApart(e) && c in e.versions && c !in s.versions
    ensures Unused(f.declared, c)
  {
    hide Shape, Unused;
    if !Unused(f.declared, c) {
      WaitsOutside(s, f, open, c);
    }
  }

  lemma AddedLinks(s: Store, d: Links, p: VersionName, c: VersionName)
    requires VersionsOf(s.versions, d) && p in d && c !in d && Unused(d, c)
    ensures p in s.versions && c !in s.versions && VersionsOf(ChildRead(s, p, c).versions, d[c := p])
  {
    var d' := d[c := p];
    forall n | n in d' ensures ChildRead(s, p, c).versions[n] == Details(ParentIn(d', n), Kids(d', n)) {
      KidsAfterAdd(d, p, c, n);
      assert n == c ==> Kids(d, n) == {};
    }
  }

  lemma SameOrphans(f: Forest, g: Forest, p: VersionName, c: VersionName, orphans: Orphans)
    requires Stores.OrphansOf(orphans, f) && p in f.declared && c !in f.declared && Unused(f.declared, c)
    requires g == Forest(f.declared[c := p], f.root)
    ensures Stores.OrphansOf(orphans, g)
  {
    forall k ensures k !in g.declared ==> g.OrphansOf(k) == f.OrphansOf(k) {
      KidsAfterAdd(f.declared, p, c, k);
    }
    assert f.OrphansOf(c) == {};
  }

  lemma ChildShaped(s: Store, f: Forest, p: VersionName, c: VersionName)
    requires Shape(s, f, {p}) && p in f.declared && c !in f.declared && c.IsInitialised() && Unused(f.declared, c)
    ensures var g := Forest(f.declared[c := p], f.root);
            && p in s.versions && c !in s.versions
            && Shape(ChildRead(s, p, c), g, {c}) && c in Tips(g.declared) && Keeps(f.declared, g.declared) && c in Kids(g.declared, p)
  {
    var g := Forest(f.declared[c := p], f.root);
    assert f.root.Some? && c in Kids(g.declared, p);
    hide Forest.Valid, VersionsOf, Stores.OrphansOf, Tips, Unused, Kids;
    AddedLinks(s, f.declared, p, c);
    SameOrphans(f, g, p, c, s.orphans);
    AddedValid(f, p, c, g);
    AddedTips(f.declared, p, c);
  }

  lemma AddedTips(d: Links, p: VersionName, c: VersionName)
    requires c !in d && p != c && Unused(d, c)
    ensures Tips(d[c := p]) - {c} == Tips(d) - {p} && c in Tips(d[c := p])
    ensures p !in d ==> Tips(d[c := p]) - {c} == Tips(d)
  {
    TipsAfterAdd(d, p, c);
    assert Kids(d, c) == {};
    hide Kids;
    assert c !in Tips(d);
  }

  lemma AddedValid(f: Forest, p: VersionName, c: VersionName, g: Forest)
    requires f.Valid() && c !in f.declared && c.IsInitialised() && Unused(f.declared, c) && p != c
    requires p in f.declared || f.root.None? || p.IsInitialised()
    requires g == Forest(f.declared[c := p], if f.root.None? then Some(c) else f.root)
    ensures g.Valid()
  {
    GroundedAfterAdd(f.declared, p, c);
    if f.root.Some? {
      assert f.declared[f.root.value] != c;
    }
    hide Grounded;
  }

  lemma FrontLinks(s: Store, d: Links, n: VersionName, absent: VersionName)
    requires VersionsOf(s.versions, d) && n !in d && absent !in d && absent != n && Unused(d, n)
    ensures VersionsOf(InsertVersion(s, n).versions, d[n := absent])
  {
    var d' := d[n := absent];
    forall m | m in d' ensures InsertVersion(s, n).versions[m] == Details(ParentIn(d', m), Kids(d', m)) {
      KidsAfterAdd(d, absent, n, m);
      assert m == n ==> Kids(d, m) == {};
    }
  }

  lemma FrontOrphans(s: Store, f: Forest, n: VersionName, absent: VersionName)
    requires Stores.OrphansOf(s.orphans, f) && n !in f.declared && absent !in f.declared && absent != n && Unused(f.declared, n)
    requires (f.declared == map[] <==> f.root.None?) && (f.root.Some? ==> f.root.value in f.declared)
    ensures var g := Forest(f.declared[n := absent], if f.root.None? then Some(n) else f.root);
            Stores.OrphansOf(if f.root.None? then s.orphans else WithOrphan(s.orphans, absent, n), g)
  {
    var g := Forest(f.declared[n := absent], if f.root.None? then Some(n) else f.root);
    forall k ensures Kids(g.declared, k) == if k == absent then Kids(f.declared, k) + {n} else Kids(f.declared, k) {
      KidsAfterAdd(f.declared, absent, n, k);
    }
    assert Kids(f.declared, n) == {};
    if f.root.None? {
      forall k ensures g.OrphansOf(k) == {} && f.OrphansOf(k) == {} {
        assert Kids(f.declared, k) == {};
        assert Kids(g.declared, k) <= {n} && g.RootSet() == {n};
        assert g.OrphansOf(k) == Kids(g.declared, k) - {n} == {};
        assert f.OrphansOf(k) <= Kids(f.declared, k);
      }
    } else {
      forall k ensures g.OrphansOf(k) == if k == absent then f.OrphansOf(k) + {n} else f.OrphansOf(k) {
      }
    }
  }

  lemma FrontRootOf(s: Store, f: Forest, n: VersionName, absent: VersionName)
    requires RootOf(s.rootAbsent, s.root, f) && n !in f.declared
    ensures var t := FrontRead(s, n, absent);
            && RootOf(t.rootAbsent, t.root, Forest(f.declared[n := absent], if f.root.None? then Some(n) else f.root))
            && t.versions == InsertVersion(s, n).versions && t.tips == s.tips && s.root == f.root
            && t.orphans == if f.root.None? then s.orphans else WithOrphan(s.orphans, absent, n)
  {
  }

  lemma FrontShaped(s: Store, f: Forest, n: VersionName, absent: VersionName)
    requires Shape(s, f, {}) && n !in f.declared && n.IsInitialised() && Unused(f.declared, n)
    requires absent !in f.declared && absent != n && (s.root.Some? ==> absent.IsInitialised())
    ensures var g := Forest(f.declared[n := absent], if f.root.None? then Some(n) else f.root);
            Shape(FrontRead(s, n, absent), g, {n}) && n in Tips(g.declared) && Keeps(f.declared, g.declared)
  {
    var g := Forest(f.declared[n := absent], if f.root.None? then Some(n) else f.root);
    assert (f.declared == map[] <==> f.root.None?) && (f.root.Some? ==> f.root.value in f.declared);
    FrontRootOf(s, f, n, absent);
    hide Forest.Valid, VersionsOf, Stores.OrphansOf, RootOf, FrontRead, Tips, Unused, Kids;
    FrontLinks(s, f.declared, n, absent);
    FrontOrphans(s, f, n, absent);
    AddedValid(f, absent, n, g);
    AddedTips(f.declared, absent, n);
    assert Tips(f.declared) - {} == Tips(f.declared);
  }

  /** What reading the first name of a run does, if all that is read in the end is apart. */
  lemma FirstShaped(s: Store, f: Forest, parent: Option<VersionName>, branches: seq<SerialBranch>, i: nat, e: Store)
    returns (g: Forest)
    requires i < |branches| && branches[i].names != [] && (parent.Some? ==> parent.value in s.versions)
    requires Shape(s, f, if parent.Some? then {parent.value} else {}) && StoreApart(e)
    requires ParseFirst(s, parent, branches, i).Read? && Grows(ParseFirst(s, parent, branches, i).store, e)
    ensures var n := branches[i].names[0].name;
            && Shape(ParseFirst(s, parent, branches, i).store, g, {n}) && n in Tips(g.declared) && Keeps(f.declared, g.declared)
            && (parent.Some? ==> n in Kids(g.declared, parent.value))
  {
    var n, t := branches[i].names[0].name, ParseFirst(s, parent, branches, i).store;
    FirstGrows(s, parent, branches, i);
    NoneWaits(s, f, if parent.Some? then {parent.value} else {}, e, n);
    hide Shape, Unused, Keeps;
    assert f.declared.Keys == s.versions.Keys by {
      ShapeSays(s, f, if parent.Some? then {parent.value} else {});
    }
    if parent.Some? {
      ChildShaped(s, f, parent.value, n);
      g := Forest(f.declared[n := parent.value], f.root);
    } else {
      var absent := if branches[i].absentParent.Some? then branches[i].absentParent.value else DEFAULT_NAME;
      assert s.root == f.root by {
        ShapeSays(s, f, {});
      }
      assert absent !in e.versions by {
        assert s.root.Some? ==> absent in t.orphans;
      }
      FrontShaped(s, f, n, absent);
      g := Forest(f.declared[n := absent], if f.root.None? then Some(n) else f.root);
    }
  }

  lemma ShapeSays(s: Store, f: Forest, open: set<VersionName>)
    requires Shape(s, f, open)
    ensures f.declared.Keys == s.versions.Keys && s.root == f.root
  {
  }

  lemma {:induction false} BranchShaped(s: Store, f: Forest, parent: Option<VersionName>, branches: seq<SerialBranch>, i: nat, e: Store)
    returns (g: Forest)
    requires NoEmptyRun(branches) && (parent.Some? ==> parent.value in s.versions)
    requires Shape(s, f, if parent.Some? then {parent.value} else {}) && StoreApart(e)
    requires ParseBranch(s, parent, branches, i).Read? && Grows(ParseBranch(s, parent, branches, i).store, e)
    ensures Shape(ParseBranch(s, parent, branches, i).store, g, {}) && Keeps(f.declared, g.declared)
    ensures parent.Some? ==> parent.value in g.declared && parent.value !in Tips(g.declared)
    decreases Rank(branches, i), 0, 0
  {
    hide Shape, StoreApart;
    assert branches[i] in branches;
    var names := branches[i].names;
    var first := ParseFirst(s, parent, branches, i);
    NamesGrow(first.store, names[0], names[1..], branches, i + 1);
    var f1 := FirstShaped(s, f, parent, branches, i, e);
    g := NamesShaped(first.store, f1, names[0], names[1..], branches, i + 1, e);
    if parent.Some? {
      ShapeSays(s, f, {parent.value});
      assert names[0].name in Kids(g.declared, parent.value);
    }
  }

  lemma {:induction false} NamesShaped(s: Store, f: Forest, previous: SerialName, names: seq<SerialName>,
                                       branches: seq<SerialBranch>, i: nat, e: Store)
    returns (g: Forest)
    requires NoEmptyRun(branches) && previous.name in s.versions
    requires Shape(s, f, {previous.name}) && previous.name in Tips(f.declared) && StoreApart(e)
    requires ParseNames(s, previous, names, branches, i).Read? && Grows(ParseNames(s, previous, names, branches, i).store, e)
    ensures Shape(ParseNames(s, previous, names, branches, i).store, g, {}) && Keeps(f.declared, g.declared)
    decreases Rank(branches, i), 2, |names|
  {
    if names != [] {
      var p, c := previous.name, names[0].name;
      ChildGrows(s, p, c);
      NamesGrow(ChildRead(s, p, c), names[0], names[1..], branches, i);
      NoneWaits(s, f, {p}, e, c);
      ShapeSays(s, f, {p});
      ChildShaped(s, f, p, c);
      hide Shape;
      g := NamesShaped(ChildRead(s, p, c), Forest(f.declared[c := p], f.root), names[0], names[1..], branches, i, e);
    } else if previous.forkingChildCount.Some? {
      g := ForksShaped(s, f, previous.name, previous.forkingChildCount.value, branches, i, e);
    } else {
      g := f;
    }
  }

  lemma Reopened(s: Store, f: Forest, p: VersionName)
    requires p !in Tips(f.declared)
    ensures Shape(s, f, {p}) <==> Shape(s, f, {})
  {
    assert Tips(f.declared) - {} == Tips(f.declared) - {p};
    hide Tips, Forest.Valid, VersionsOf, Stores.OrphansOf, RootOf;
  }

  lemma {:induction false} ForksShaped(s: Store, f: Forest, parent: VersionName, count: nat, branches: seq<SerialBranch>, i: nat,
                                       e: Store)
    returns (g: Forest)
    requires NoEmptyRun(branches) && parent in s.versions
    requires Shape(s, f, {parent}) && (count == 0 ==> parent !in Tips(f.declared)) && StoreApart(e)
    requires ParseForks(s, parent, count, branches, i).Read? && Grows(ParseForks(s, parent, count, branches, i).store, e)
    ensures Shape(ParseForks(s, parent, count, branches, i).store, g, {}) && Keeps(f.declared, g.declared)
    decreases Rank(branches, i), 1, count
  {
    hide Shape, StoreApart, ParseBranch, Tips;
    if count > 0 {
      var read := ParseBranch(s, Some(parent), branches, i);
      ForksGrow(read.store, parent, count - 1, branches, read.next);
      var f1 := BranchShaped(s, f, Some(parent), branches, i, e);
      Reopened(read.store, f1, parent);
      g := ForksShaped(read.store, f1, parent, count - 1, branches, read.next, e);
    } else {
      g := f;
      Reopened(s, f, parent);
    }
  }

  lemma {:induction false} AllShaped(s: Store, f: Forest, branches: seq<SerialBranch>, i: nat, e: Store) returns (g: Forest)
    requires NoEmptyRun(branches) && Shape(s, f, {}) && StoreApart(e)
    requires ParseAll(s, branches, i).Read? && Grows(ParseAll(s, branches, i).store, e)
    ensures Shape(ParseAll(s, branches, i).store, g, {})
    decreases Rank(branches, i)
  {
    hide Shape, StoreApart;
    if i < |branches| {
      var read := ParseBranch(s, None, branches, i);
      AllGrow(read.store, branches, read.next);
      var f1 := BranchShaped(s, f, None, branches, i, e);
      g := AllShaped(read.store, f1, branches, read.next, e);
    } else {
      g := f;
    }
  }

  // ---------------------------------------------------------------- what the runs say themselves

  /** The number of runs that continue a run. */
  function ForkCount(names: seq<SerialName>): nat {
    if names != [] && names[|names| - 1].forkingChildCount.Some? then names[|names| - 1].forkingChildCount.value else 0
  }

  /** How many of the runs from n on still belong to the tree that the runs before n have begun. */
  function Due(branches: seq<SerialBranch>, n: nat): nat
    requires n <= |branches|
  {
    if n == 0 then 0
    else
      var before := Due(branches, n - 1);
      (if before == 0 then 0 else before - 1) + ForkCount(branches[n - 1].names)
  }

  function NamesOf(names: seq<SerialName>): set<VersionName> {
    set n | n in names :: n.name
  }

  /** The names of the first n runs. */
  function Names(branches: seq<SerialBranch>, n: nat): set<VersionName>
    requires n <= |branches|
  {
    if n == 0 then {} else Names(branches, n - 1) + NamesOf(branches[n - 1].names)
  }

  function AbsentOf(b: SerialBranch): VersionName {
    if b.absentParent.Some? then b.absentParent.value else DEFAULT_NAME
  }

  /** The absent parents of those among the first n runs which begin a tree. */
  function Absents(branches: seq<SerialBranch>, n: nat): set<VersionName>
    requires n <= |branches|
  {
    if n == 0 then {}
    else Absents(branches, n - 1) + if Due(branches, n - 1) == 0 then {AbsentOf(branches[n - 1])} else {}
  }

  /** Every name is initialised, and no tree waits for one of them. */
  predicate RunsApart(branches: seq<SerialBranch>) {
    (forall n | n in Names(branches, |branches|) :: n.IsInitialised()) && Names(branches, |branches|) !! Absents(branches, |branches|)
  }

  ghost function AbsentsRead(s: Store): set<VersionName> {
    s.orphans.Keys + if s.root.Some? then {s.rootAbsent} else {}
  }

  /** The first n runs have been read. */
  ghost predicate ReadTo(s: Store, branches: seq<SerialBranch>, n: nat) {
    n <= |branches| && s.versions.Keys == Names(branches, n) && AbsentsRead(s) == Absents(branches, n)
  }

  lemma {:induction false} FirstReads(s: Store, parent: Option<VersionName>, branches: seq<SerialBranch>, i: nat)
    requires i < |branches| && branches[i].names != [] && (parent.Some? ==> parent.value in s.versions)
    requires ReadTo(s, branches, i) && (parent.Some? <==> Due(branches, i) > 0) && ParseFirst(s, parent, branches, i).Read?
    ensures var t := ParseFirst(s, parent, branches, i).store;
            && t.versions.Keys + NamesOf(branches[i].names[1..]) == Names(branches, i + 1)
            && AbsentsRead(t) == Absents(branches, i + 1) && branches[i].names[0].name in t.versions
  {
    hide Names, Absents, NamesOf, AbsentsRead, ParseFirst, Due;
    FirstName(branches[i].names);
    NextRun(branches, i);
    FirstAbsent(s, parent, branches, i);
    var first := {branches[i].names[0].name};
    assert s.versions.Keys + first + NamesOf(branches[i].names[1..]) == s.versions.Keys + (first + NamesOf(branches[i].names[1..]));
  }

  lemma NextRun(branches: seq<SerialBranch>, i: nat)
    requires i < |branches|
    ensures Names(branches, i + 1) == Names(branches, i) + NamesOf(branches[i].names)
    ensures Due(branches, i + 1) == (if Due(branches, i) == 0 then 0 else Due(branches, i) - 1) + ForkCount(branches[i].names)
  {
  }

  lemma FirstName(names: seq<SerialName>)
    requires names != []
    ensures NamesOf(names) == {names[0].name} + NamesOf(names[1..])
  {
    assert names == [names[0]] + names[1..];
  }

  lemma FirstAbsent(s: Store, parent: Option<VersionName>, branches: seq<SerialBranch>, i: nat)
    requires i < |branches| && branches[i].names != [] && (parent.Some? ==> parent.value in s.versions)
    requires (parent.Some? <==> Due(branches, i) > 0) && ParseFirst(s, parent, branches, i).Read?
    ensures AbsentsRead(s) == Absents(branches, i) ==> AbsentsRead(ParseFirst(s, parent, branches, i).store) == Absents(branches, i + 1)
  {
    var n, t := branches[i].names[0].name, ParseFirst(s, parent, branches, i).store;
    if parent.Some? {
      assert t.orphans == s.orphans && t.root == s.root && t.rootAbsent == s.rootAbsent;
    } else {
      assert t == FrontRead(s, n, AbsentOf(branches[i]));
    }
    hide Names;
  }

  lemma {:induction false} BranchReads(s: Store, parent: Option<VersionName>, branches: seq<SerialBranch>, i: nat)
    requires NoEmptyRun(branches) && (parent.Some? ==> parent.value in s.versions)
    requires i <= |branches|
    requires ReadTo(s, branches, i) && (parent.Some? <==> Due(branches, i) > 0) && ParseBranch(s, parent, branches, i).Read?
    ensures var r := ParseBranch(s, parent, branches, i);
            ReadTo(r.store, branches, r.next) && Due(branches, r.next) == if parent.Some? then Due(branches, i) - 1 else 0
    decreases Rank(branches, i), 0, 0
  {
    hide ReadTo, Names, Absents, ParseFirst, NamesOf, AbsentsRead, ParseNames, Due, ForkCount;
    assert branches[i] in branches;
    var names := branches[i].names;
    FirstReads(s, parent, branches, i);
    NextRun(branches, i);
    assert [names[0]] + names[1..] == names;
    NamesRead(ParseFirst(s, parent, branches, i).store, names[0], names[1..], branches, i + 1,
              if parent.Some? then Due(branches, i) - 1 else 0);
  }

  lemma {:induction false} NamesRead(s: Store, previous: SerialName, names: seq<SerialName>, branches: seq<SerialBranch>, i: nat,
                                     due: nat)
    requires NoEmptyRun(branches) && previous.name in s.versions && i <= |branches|
    requires s.versions.Keys + NamesOf(names) == Names(branches, i) && AbsentsRead(s) == Absents(branches, i)
    requires Due(branches, i) == due + ForkCount([previous] + names) && ParseNames(s, previous, names, branches, i).Read?
    ensures var r := ParseNames(s, previous, names, branches, i); ReadTo(r.store, branches, r.next) && Due(branches, r.next) == due
    decreases Rank(branches, i), 2, |names|
  {
    hide Names, Absents, Due;
    if names != [] {
      var t := ChildRead(s, previous.name, names[0].name);
      FirstName(names);
      ChildGrows(s, previous.name, names[0].name);
      assert AbsentsRead(t) == AbsentsRead(s);
      NamesRead(t, names[0], names[1..], branches, i, due);
    } else if previous.forkingChildCount.Some? {
      assert [previous] + names == [previous] && NamesOf(names) == {};
      ForksRead(s, previous.name, previous.forkingChildCount.value, branches, i, due);
    } else {
      assert [previous] + names == [previous] && NamesOf(names) == {};
    }
  }

  lemma {:induction false} ForksRead(s: Store, parent: VersionName, count: nat, branches: seq<SerialBranch>, i: nat, due: nat)
    requires NoEmptyRun(branches) && parent in s.versions && ReadTo(s, branches, i) && Due(branches, i) == due + count
    requires ParseForks(s, parent, count, branches, i).Read?
    ensures var r := ParseForks(s, parent, count, branches, i); ReadTo(r.store, branches, r.next) && Due(branches, r.next) == due
    decreases Rank(branches, i), 1, count
  {
    hide Names, Absents, Due, ParseBranch;
    if count > 0 {
      BranchReads(s, Some(parent), branches, i);
      var read := ParseBranch(s, Some(parent), branches, i);
      ForksRead(read.store, parent, count - 1, branches, read.next, due);
    }
  }

  lemma {:induction false} AllRead(s: Store, branches: seq<SerialBranch>, i: nat)
    requires NoEmptyRun(branches) && ReadTo(s, branches, i) && Due(branches, i) == 0 && ParseAll(s, branches, i).Read?
    ensures ReadTo(ParseAll(s, branches, i).store, branches, |branches|)
    decreases Rank(branches, i)
  {
    hide Names, Absents, Due, ParseBranch;
    if i < |branches| {
      BranchReads(s, None, branches, i);
      var read := ParseBranch(s, None, branches, i);
      AllRead(read.store, branches, read.next);
    }
  }

  lemma StoreApartIff(e: Store, branches: seq<SerialBranch>)
    requires ReadTo(e, branches, |branches|)
    ensures StoreApart(e) <==> RunsApart(branches)
  {
    hide Names, Absents;
    if StoreApart(e) {
      forall n | n in e.versions ensures n !in AbsentsRead(e) {
      }
    } else {
      assert e.root.Some? ==> e.rootAbsent in AbsentsRead(e);
      assert forall k | k in e.orphans :: k in AbsentsRead(e);
    }
  }

  /**
   What is read without an error is a well-formed container if and only if the names in the runs are
   initialised and none of them is the absent parent of a tree; the program checks neither.
   */
  lemma ParsedWellFormedIff(serialised: Serialised)
    requires NoEmptyRun(serialised.branches) && ParseSpec(serialised).Ok?
    ensures ParseSpec(serialised).value.WellFormed() <==> RunsApart(serialised.branches)
  {
    var e, s := ParseSpec(serialised).value, EmptyStore(serialised.limits);
    AllRead(s, serialised.branches, 0);
    StoreApartIff(e, serialised.branches);
    hide RunsApart, ReadTo;
    StoreWellFormedIff(serialised);
  }

  lemma StoreWellFormedIff(serialised: Serialised)
    requires NoEmptyRun(serialised.branches) && ParseSpec(serialised).Ok?
    ensures ParseSpec(serialised).value.WellFormed() <==> StoreApart(ParseSpec(serialised).value)
  {
    var e := ParseSpec(serialised).value;
    if StoreApart(e) {
      var s := EmptyStore(serialised.limits);
      NothingRead(serialised.limits);
      AllGrow(s, serialised.branches, 0);
      var g := AllShaped(s, EMPTY_FOREST, serialised.branches, 0, e);
      FitsWellFormed(e, g);
    }
  }

  lemma NothingRead(limits: Limits)
    ensures Shape(EmptyStore(limits), EMPTY_FOREST, {})
  {
    assert Tips(EMPTY_FOREST.declared) == {};
  }

  lemma FitsWellFormed(e: Store, g: Forest)
    requires Shape(e, g, {}) && e.limits.Valid() && |e.versions| <= e.limits.maxVersions && |e.tips| <= e.limits.maxBranches
    ensures e.WellFormed() && e.Abstract() == g
  {
    assert |e.versions.Keys| == |g.declared.Keys|;
    RepresentsWellFormed(e, g);
  }

  /** The absent parent of an earlier run may be read later: 6-6 then waits for 5-5, which is there. */
  lemma ReadingMayNotBeWellFormed()
    ensures var root, a, b := VersionName(0, Identity(1)), VersionName(6, Identity(6)), VersionName(5, Identity(5));
            var runs := [SerialBranch(None, [SerialName(root, None)]), SerialBranch(Some(b), [SerialName(a, None)]),
                         SerialBranch(Some(VersionName(9, Identity(9))), [SerialName(b, None)])];
            && NoEmptyRun(runs) && ParseSpec(Serialised(Limits(10, 10), runs)).Ok?
            && !ParseSpec(Serialised(Limits(10, 10), runs)).value.WellFormed()
  {
    var root, a, b := VersionName(0, Identity(1)), VersionName(6, Identity(6)), VersionName(5, Identity(5));
    var c := VersionName(9, Identity(9));
    var runs := [SerialBranch(None, [SerialName(root, None)]), SerialBranch(Some(b), [SerialName(a, None)]),
                 SerialBranch(Some(c), [SerialName(b, None)])];
    assert NoEmptyRun(runs);
    hide ParseAll, ParseSpec, OneName, Store.WellFormed;
    ThreeRunsRead(runs, root, a, b, c);
    ThreeNames(root, a, b, c);
    SpecIs(Limits(10, 10), runs, OneName(OneName(OneName(EmptyStore(Limits(10, 10)), root, None), a, Some(b)), b, Some(c)), 3);
  }

  lemma {:induction false} SpecIs(limits: Limits, branches: seq<SerialBranch>, e: Store, n: nat)
    requires NoEmptyRun(branches) && ParseAll(EmptyStore(limits), branches, 0) == Read(e, n)
    requires limits.Valid() && e.limits == limits && |e.versions| <= limits.maxVersions && |e.tips| <= limits.maxBranches
    ensures ParseSpec(Serialised(limits, branches)) == Ok(e)
  {
  }

  lemma {:induction false} ThreeRunsRead(runs: seq<SerialBranch>, root: VersionName, a: VersionName, b: VersionName, c: VersionName)
    requires NoEmptyRun(runs) && |runs| == 3 && root != a && root != b && a != b && b.IsInitialised() && c.IsInitialised()
    requires runs[0] == SerialBranch(None, [SerialName(root, None)]) && runs[1] == SerialBranch(Some(b), [SerialName(a, None)])
    requires runs[2] == SerialBranch(Some(c), [SerialName(b, None)])
    ensures ParseAll(EmptyStore(Limits(10, 10)), runs, 0) ==
            Read(OneName(OneName(OneName(EmptyStore(Limits(10, 10)), root, None), a, Some(b)), b, Some(c)), 3)
  {
    hide ParseAll, OneName, Store.WellFormed, NoEmptyRun;
    var s0 := EmptyStore(Limits(10, 10));
    var s1 := OneName(s0, root, None);
    var s2 := OneName(s1, a, Some(b));
    OneNameRead(s0, runs, 0, root, None);
    OneNameRead(s1, runs, 1, a, Some(b));
    OneNameRead(s2, runs, 2, b, Some(c));
    EndReached(OneName(s2, b, Some(c)), runs);
  }

  /** The store after a run of a single name, a tip. */
  function OneName(s: Store, n: VersionName, absent: Option<VersionName>): (t: Store)
    ensures t.limits == s.limits && t.versions.Keys == s.versions.Keys + {n} && t.tips == s.tips + {n}
    ensures t.root == if s.root.None? then Some(n) else s.root
    ensures s.root.Some? && absent.Some? ==> t.orphans.Keys == s.orphans.Keys + {absent.value}
  {
    FrontRead(s, n, if absent.Some? then absent.value else DEFAULT_NAME).(tips := s.tips + {n})
  }

  lemma OneMoreName(s: set<VersionName>, n: VersionName)
    ensures |s + {n}| <= |s| + 1
  {
    if n in s {
      assert s + {n} == s;
    }
  }

  lemma ThreeNames(root: VersionName, a: VersionName, b: VersionName, c: VersionName)
    ensures var s := OneName(OneName(OneName(EmptyStore(Limits(10, 10)), root, None), a, Some(b)), b, Some(c));
            s.limits == Limits(10, 10) && |s.versions| <= 3 && |s.tips| <= 3 && !s.WellFormed()
  {
    hide OneName;
    var s0 := EmptyStore(Limits(10, 10));
    var s1 := OneName(s0, root, None);
    var s2 := OneName(s1, a, Some(b));
    var s3 := OneName(s2, b, Some(c));
    OneMoreName(s0.versions.Keys, root);
    OneMoreName(s1.versions.Keys, a);
    OneMoreName(s2.versions.Keys, b);
    OneMoreName(s0.tips, root);
    OneMoreName(s1.tips, a);
    OneMoreName(s2.tips, b);
    assert |s3.versions| == |s3.versions.Keys|;
    assert b in s3.orphans && b in s3.versions;
  }

  lemma {:induction false} EndReached(s: Store, branches: seq<SerialBranch>)
    requires NoEmptyRun(branches)
    ensures ParseAll(s, branches, |branches|) == Read(s, |branches|)
  {
  }

  lemma OneNameRead(s: Store, branches: seq<SerialBranch>, i: nat, n: VersionName, absent: Option<VersionName>)
    requires NoEmptyRun(branches) && i < |branches| && branches[i] == SerialBranch(absent, [SerialName(n, None)])
    requires n !in s.versions && (s.root.Some? ==> absent.Some? && absent.value.IsInitialised())
    ensures ParseAll(s, branches, i) == ParseAll(OneName(s, n, absent), branches, i + 1)
  {
    assert branches[i] in branches;
    var names := branches[i].names;
    var t := FrontRead(s, n, if absent.Some? then absent.value else DEFAULT_NAME);
    assert ParseFirst(s, None, branches, i) == Read(t, i + 1);
    assert names[1..] == [];
    assert ParseNames(t, names[0], names[1..], branches, i + 1) == Read(OneName(s, n, absent), i + 1);
    hide ParseFirst, ParseNames;
    assert ParseBranch(s, None, branches, i) == Read(OneName(s, n, absent), i + 1);
  }

  /** A limit of zero is an error, and any other error is one of parsing; otherwise the limits are those written. */
  lemma ParsedLimits(serialised: Serialised)
    requires NoEmptyRun(serialised.branches)
    ensures var r := ParseSpec(serialised);
            && (serialised.limits.maxVersions == 0 || serialised.limits.maxBranches == 0 <==> r == Err(InvalidArgument))
            && (r.Err? ==> r.error in {InvalidArgument, ParsingError})
            && (r.Ok? ==> r.value.limits == serialised.limits
                          && |r.value.versions| <= serialised.limits.maxVersions && |r.value.tips| <= serialised.limits.maxBranches)
  {
    AllGrow(EmptyStore(serialised.limits), serialised.branches, 0);
    hide ParseAll;
  }
}
