/** Which runs of names can be read, and what container they make, said of the runs alone. */
module AcceptedRuns {
  import opened Options
  import opened VersionNames
  import opened Forests
  import opened Stores
  import opened Serialisation
  import opened Parsing

  // ---------------------------------------------------------------- said of the runs

  /** The versions which the runs from n on are to continue, the next first. */
  function Awaiting(branches: seq<SerialBranch>, n: nat): seq<VersionName>
    requires NoEmptyRun(branches) && n <= |branches|
  {
    if n == 0 then []
    else
      var before, names := Awaiting(branches, n - 1), branches[n - 1].names;
      assert branches[n - 1] in branches;
      Times(ForkCount(names), names[|names| - 1].name) + if before == [] then [] else before[1..]
  }

  function Times(count: nat, n: VersionName): seq<VersionName> {
    seq(count, i => n)
  }

  /** The version above the k-th name of run n. */
  function ParentOf(branches: seq<SerialBranch>, n: nat, k: nat): Option<VersionName>
    requires NoEmptyRun(branches) && n < |branches| && k < |branches[n].names|
  {
    if k > 0 then Some(branches[n].names[k - 1].name)
    else if Awaiting(branches, n) == [] then None
    else Some(Awaiting(branches, n)[0])
  }

  /** The first k names of run n are new. */
  predicate NamesNew(branches: seq<SerialBranch>, n: nat, k: nat)
    requires n < |branches| && k <= |branches[n].names|
  {
    forall j | 0 <= j < k ::
      branches[n].names[j].name !in Names(branches, n) && branches[n].names[j].name !in NamesOf(branches[n].names[..j])
  }

  /** A run which begins another tree than the root's has an absent parent. */
  predicate StartFits(branches: seq<SerialBranch>, n: nat)
    requires NoEmptyRun(branches) && n < |branches|
  {
    n > 0 && Awaiting(branches, n) == [] ==> AbsentOf(branches[n]).IsInitialised()
  }

  /** No run forks into fewer than two. */
  predicate ForkFits(b: SerialBranch) {
    b.names != [] && b.names[|b.names| - 1].forkingChildCount.Some? ==> b.names[|b.names| - 1].forkingChildCount.value >= 2
  }

  predicate RunFits(branches: seq<SerialBranch>, n: nat)
    requires NoEmptyRun(branches) && n < |branches|
  {
    NamesNew(branches, n, |branches[n].names|) && StartFits(branches, n) && ForkFits(branches[n])
  }

  ghost predicate FitTo(branches: seq<SerialBranch>, n: nat)
    requires NoEmptyRun(branches) && n <= |branches|
  {
    forall m | 0 <= m < n :: RunFits(branches, m)
  }

  /** Every run fits, and none is still to come. */
  ghost predicate Fit(branches: seq<SerialBranch>)
    requires NoEmptyRun(branches)
  {
    FitTo(branches, |branches|) && Awaiting(branches, |branches|) == []
  }

  predicate Ends(b: SerialBranch) {
    b.names != [] && b.names[|b.names| - 1].forkingChildCount.None?
  }

  /** The last names of those among the first n runs which do not fork. */
  function EndNames(branches: seq<SerialBranch>, n: nat): set<VersionName>
    requires n <= |branches|
  {
    if n == 0 then {}
    else
      var b := branches[n - 1];
      EndNames(branches, n - 1) + if Ends(b) then {b.names[|b.names| - 1].name} else {}
  }

  // ---------------------------------------------------------------- what has been read

  /** The names read are those of the first n runs and the first k of run n. */
  ghost predicate KeysRead(s: Store, branches: seq<SerialBranch>, n: nat, k: nat) {
    && n <= |branches| && (k > 0 ==> n < |branches| && k <= |branches[n].names|)
    && s.versions.Keys == Names(branches, n) + if k > 0 then NamesOf(branches[n].names[..k]) else {}
  }

  ghost predicate ParentsRead(s: Store, branches: seq<SerialBranch>, n: nat, k: nat)
    requires NoEmptyRun(branches)
  {
    forall m, j | 0 <= m < |branches| && 0 <= j < |branches[m].names| && (m < n || (m == n && j < k)) ::
      var name := branches[m].names[j].name;
      name in s.versions && s.versions[name].parent == ParentOf(branches, m, j)
  }

  /** Run m begins the tree of an orphan x which waits for a. */
  predicate BeginsOrphan(branches: seq<SerialBranch>, m: nat, a: VersionName, x: VersionName)
    requires NoEmptyRun(branches) && m < |branches|
  {
    m > 0 && Awaiting(branches, m) == [] && branches[m].names != [] && branches[m].names[0].name == x && AbsentOf(branches[m]) == a
  }

  predicate Waits(orphans: Orphans, a: VersionName, x: VersionName) {
    a in orphans && x in orphans[a]
  }

  predicate NoEmptySet(orphans: Orphans) {
    forall a | a in orphans :: orphans[a] != {}
  }

  ghost predicate Begun(branches: seq<SerialBranch>, n: nat, a: VersionName, x: VersionName)
    requires NoEmptyRun(branches) && n <= |branches|
  {
    exists m | 0 <= m < n :: BeginsOrphan(branches, m, a, x)
  }

  lemma BegunNext(branches: seq<SerialBranch>, n: nat, a: VersionName, x: VersionName)
    requires NoEmptyRun(branches) && n < |branches|
    ensures Begun(branches, n + 1, a, x) <==> Begun(branches, n, a, x) || BeginsOrphan(branches, n, a, x)
  {
    hide BeginsOrphan;
  }

  /** The root comes from the first run, and the orphans from the others which begin a tree. */
  ghost predicate FrontsRead(s: Store, branches: seq<SerialBranch>, n: nat)
    requires NoEmptyRun(branches) && n <= |branches|
  {
    && (n == 0 ==> s.root == None && s.orphans == map[])
    && (n > 0 ==> branches[0].names != [] && s.root == Some(branches[0].names[0].name) && s.rootAbsent == AbsentOf(branches[0]))
    && (forall a, x :: Waits(s.orphans, a, x) <==> Begun(branches, n, a, x))
    && NoEmptySet(s.orphans)
  }

  /** The first n runs and the first k names of run n have been read. */
  ghost predicate Described(s: Store, branches: seq<SerialBranch>, n: nat, k: nat)
    requires NoEmptyRun(branches)
  {
    && KeysRead(s, branches, n, k) && ParentsRead(s, branches, n, k) && s.Mirrored()
    && s.tips == EndNames(branches, n) && FrontsRead(s, branches, n + if k > 0 then 1 else 0)
  }

  // ---------------------------------------------------------------- reading a name

  lemma NamesOfNext(names: seq<SerialName>, k: nat)
    requires k < |names|
    ensures NamesOf(names[..k + 1]) == NamesOf(names[..k]) + {names[k].name}
    ensures NamesOf(names[..0]) == {}
  {
    assert names[..k + 1] == names[..k] + [names[k]];
  }

  lemma KeyRead(s: Store, t: Store, branches: seq<SerialBranch>, n: nat, k: nat)
    requires KeysRead(s, branches, n, k) && n < |branches| && k < |branches[n].names|
    requires t.versions.Keys == s.versions.Keys + {branches[n].names[k].name}
    ensures KeysRead(t, branches, n, k + 1)
  {
    NamesOfNext(branches[n].names, k);
    hide Names, NamesOf;
  }

  lemma ParentRead(s: Store, t: Store, branches: seq<SerialBranch>, n: nat, k: nat)
    requires NoEmptyRun(branches) && ParentsRead(s, branches, n, k) && n < |branches| && k < |branches[n].names|
    requires var c := branches[n].names[k].name; c !in s.versions && c in t.versions && t.versions[c].parent == ParentOf(branches, n, k)
    requires forall x | x in s.versions :: x in t.versions && t.versions[x].parent == s.versions[x].parent
    ensures ParentsRead(t, branches, n, k + 1)
  {
    hide ParentOf;
  }

  lemma ChildLinks(s: Store, p: VersionName, c: VersionName)
    requires s.Mirrored() && p in s.versions && c !in s.versions
    ensures var t := ChildRead(s, p, c);
            && t.Mirrored() && t.versions.Keys == s.versions.Keys + {c} && t.versions[c].parent == Some(p)
            && forall x | x in s.versions :: x in t.versions && t.versions[x].parent == s.versions[x].parent
  {
    var t := ChildRead(s, p, c);
    forall q, x ensures t.LinksDown(q, x) <==> t.LinksUp(x, q) {
      assert s.LinksDown(q, x) <==> s.LinksUp(x, q);
      assert !s.LinksUp(c, q) && !s.LinksDown(q, c);
    }
  }

  lemma FrontLinks(s: Store, n: VersionName, absent: VersionName)
    requires s.Mirrored() && n !in s.versions
    ensures var t := FrontRead(s, n, absent);
            && t.Mirrored() && t.versions.Keys == s.versions.Keys + {n} && t.versions[n].parent == None
            && forall x | x in s.versions :: x in t.versions && t.versions[x].parent == s.versions[x].parent
  {
    var t := FrontRead(s, n, absent);
    forall q, x ensures t.LinksDown(q, x) <==> t.LinksUp(x, q) {
      assert s.LinksDown(q, x) <==> s.LinksUp(x, q);
      assert !s.LinksUp(n, q) && !s.LinksDown(n, x);
    }
  }

  lemma NameDescribed(s: Store, branches: seq<SerialBranch>, n: nat, k: nat)
    requires NoEmptyRun(branches) && Described(s, branches, n, k) && n < |branches| && 0 < k < |branches[n].names|
    requires branches[n].names[k].name !in s.versions
    ensures branches[n].names[k - 1].name in s.versions
    ensures Described(ChildRead(s, branches[n].names[k - 1].name, branches[n].names[k].name), branches, n, k + 1)
  {
    hide KeysRead, Store.Mirrored, FrontsRead, EndNames;
    var p, c := branches[n].names[k - 1].name, branches[n].names[k].name;
    assert p in s.versions;
    hide ParentsRead;
    ChildLinks(s, p, c);
    KeyRead(s, ChildRead(s, p, c), branches, n, k);
    ParentRead(s, ChildRead(s, p, c), branches, n, k);
    FrontsSame(s, ChildRead(s, p, c), branches, n + 1);
  }

  lemma FrontsSame(s: Store, t: Store, branches: seq<SerialBranch>, n: nat)
    requires NoEmptyRun(branches) && n <= |branches| && FrontsRead(s, branches, n)
    requires t.root == s.root && t.rootAbsent == s.rootAbsent && t.orphans == s.orphans
    ensures FrontsRead(t, branches, n)
  {
    assert t.orphans == s.orphans;
    assert NoEmptySet(t.orphans);
    assert forall a, x :: Waits(t.orphans, a, x) <==> Begun(branches, n, a, x);
    hide Begun, Waits, NoEmptySet;
  }

  lemma {:induction false} ContinuedFronts(s: Store, t: Store, branches: seq<SerialBranch>, n: nat)
    requires NoEmptyRun(branches) && n < |branches| && FrontsRead(s, branches, n) && Awaiting(branches, n) != []
    requires t.root == s.root && t.rootAbsent == s.rootAbsent && t.orphans == s.orphans
    ensures FrontsRead(t, branches, n + 1)
  {
    assert n > 0;
    hide Begun, Awaiting, Waits, NoEmptySet;
    forall a, x ensures Begun(branches, n + 1, a, x) <==> Begun(branches, n, a, x) {
      BegunNext(branches, n, a, x);
    }
    hide BeginsOrphan;
  }

  lemma OrphanRead(orphans: Orphans, b: VersionName, y: VersionName)
    ensures forall a, x :: Waits(WithOrphan(orphans, b, y), a, x) <==> Waits(orphans, a, x) || (a == b && x == y)
    ensures NoEmptySet(orphans) ==> NoEmptySet(WithOrphan(orphans, b, y))
  {
  }

  lemma {:induction false} BegunFronts(s: Store, branches: seq<SerialBranch>, n: nat)
    requires NoEmptyRun(branches) && n < |branches| && FrontsRead(s, branches, n) && Awaiting(branches, n) == [] && branches[n].names != []
    ensures FrontsRead(FrontRead(s, branches[n].names[0].name, AbsentOf(branches[n])), branches, n + 1)
  {
    var y, b := branches[n].names[0].name, AbsentOf(branches[n]);
    var t := FrontRead(s, y, b);
    hide Begun, Awaiting, Waits, NoEmptySet;
    OrphanRead(s.orphans, b, y);
    hide WithOrphan;
    forall a, x ensures Begun(branches, n + 1, a, x) <==> Begun(branches, n, a, x) || (n > 0 && a == b && x == y) {
      BegunNext(branches, n, a, x);
    }
    hide BeginsOrphan;
    assert t.orphans == if n == 0 then s.orphans else WithOrphan(s.orphans, b, y);
    assert forall a, x :: Waits(t.orphans, a, x) <==> Waits(s.orphans, a, x) || (n > 0 && a == b && x == y);
  }

  lemma {:induction false} FirstDescribed(s: Store, branches: seq<SerialBranch>, n: nat)
    requires NoEmptyRun(branches) && n < |branches| && Described(s, branches, n, 0) && branches[n].names != []
    requires branches[n].names[0].name !in s.versions
    ensures Awaiting(branches, n) != [] && Awaiting(branches, n)[0] in s.versions ==>
              Described(ChildRead(s, Awaiting(branches, n)[0], branches[n].names[0].name), branches, n, 1)
    ensures Awaiting(branches, n) == [] ==>
              Described(FrontRead(s, branches[n].names[0].name, AbsentOf(branches[n])), branches, n, 1)
  {
    hide KeysRead, Store.Mirrored, FrontsRead, EndNames, ParentsRead, Awaiting;
    var c := branches[n].names[0].name;
    if Awaiting(branches, n) == [] {
      var t := FrontRead(s, c, AbsentOf(branches[n]));
      FrontLinks(s, c, AbsentOf(branches[n]));
      KeyRead(s, t, branches, n, 0);
      ParentRead(s, t, branches, n, 0);
      BegunFronts(s, branches, n);
    } else if Awaiting(branches, n)[0] in s.versions {
      var t := ChildRead(s, Awaiting(branches, n)[0], c);
      ChildLinks(s, Awaiting(branches, n)[0], c);
      KeyRead(s, t, branches, n, 0);
      ParentRead(s, t, branches, n, 0);
      ContinuedFronts(s, t, branches, n);
    }
  }

  lemma NextEnd(branches: seq<SerialBranch>, n: nat)
    requires n < |branches|
    ensures EndNames(branches, n + 1) == EndNames(branches, n) + if Ends(branches[n]) then {branches[n].names[|branches[n].names| - 1].name} else {}
  {
  }

  lemma ParentsEnded(s: Store, t: Store, branches: seq<SerialBranch>, n: nat)
    requires NoEmptyRun(branches) && n < |branches| && ParentsRead(s, branches, n, |branches[n].names|) && t.versions == s.versions
    ensures ParentsRead(t, branches, n + 1, 0)
  {
    hide ParentOf;
  }

  lemma KeysEnded(s: Store, t: Store, branches: seq<SerialBranch>, n: nat)
    requires n < |branches| && branches[n].names != [] && KeysRead(s, branches, n, |branches[n].names|) && t.versions == s.versions
    ensures KeysRead(t, branches, n + 1, 0)
  {
    NextRun(branches, n);
    assert branches[n].names[..|branches[n].names|] == branches[n].names;
    hide Names, NamesOf, Due, ForkCount;
  }

  /** A run has been read to its end. */
  lemma EndDescribed(s: Store, branches: seq<SerialBranch>, n: nat)
    requires NoEmptyRun(branches) && n < |branches| && branches[n].names != [] && Described(s, branches, n, |branches[n].names|)
    ensures var names := branches[n].names;
            Described(if Ends(branches[n]) then s.(tips := s.tips + {names[|names| - 1].name}) else s, branches, n + 1, 0)
  {
    var names := branches[n].names;
    var t := if Ends(branches[n]) then s.(tips := s.tips + {names[|names| - 1].name}) else s;
    hide FrontsRead, EndNames, KeysRead, ParentsRead;
    NextEnd(branches, n);
    ParentsEnded(s, t, branches, n);
    KeysEnded(s, t, branches, n);
    FrontsSame(s, t, branches, n + 1);
    ChildrenSame(s, t);
    hide Store.Mirrored;
  }

  lemma ChildrenSame(s: Store, t: Store)
    requires s.Mirrored() && t.versions == s.versions
    ensures t.Mirrored()
  {
    assert forall p, c :: s.LinksDown(p, c) <==> s.LinksUp(c, p);
    assert forall p, c :: t.LinksDown(p, c) == s.LinksDown(p, c) && t.LinksUp(c, p) == s.LinksUp(c, p);
  }

  // ---------------------------------------------------------------- reading the runs

  /** What reading from run i to the runs that continue it comes to: it fails only if the runs do not fit. */
  ghost predicate Accepted(r: Reading, branches: seq<SerialBranch>, rest: seq<VersionName>)
    requires NoEmptyRun(branches)
  {
    match r
    case Malformed => !Fit(branches)
    case Read(t, next) =>
      next <= |branches| && Described(t, branches, next, 0) && FitTo(branches, next) && Awaiting(branches, next) == rest
  }

  lemma NextAwaiting(branches: seq<SerialBranch>, n: nat)
    requires NoEmptyRun(branches) && n < |branches|
    ensures var names := branches[n].names;
            && names != []
            && Awaiting(branches, n + 1) ==
               Times(ForkCount(names), names[|names| - 1].name) + if Awaiting(branches, n) == [] then [] else Awaiting(branches, n)[1..]
  {
    assert branches[n] in branches;
  }

  lemma FitNext(branches: seq<SerialBranch>, n: nat)
    requires NoEmptyRun(branches) && n < |branches| && FitTo(branches, n)
    ensures FitTo(branches, n + 1) <==> RunFits(branches, n)
    ensures Fit(branches) ==> RunFits(branches, n)
  {
    hide RunFits;
  }

  lemma OldName(s: Store, branches: seq<SerialBranch>, n: nat, k: nat)
    requires NoEmptyRun(branches) && Described(s, branches, n, k) && n < |branches| && k < |branches[n].names|
    requires NamesNew(branches, n, k)
    ensures NamesNew(branches, n, k + 1) <==> branches[n].names[k].name !in s.versions
    ensures branches[n].names[k].name in s.versions ==> !NamesNew(branches, n, |branches[n].names|)
  {
    assert NamesOf(branches[n].names[..0]) == {};
    hide Names, NamesOf, ParentsRead, Store.Mirrored, FrontsRead, EndNames;
    assert s.versions.Keys == Names(branches, n) + NamesOf(branches[n].names[..k]);
  }

  lemma AwaitedRead(s: Store, branches: seq<SerialBranch>, n: nat, k: nat, j: nat)
    requires NoEmptyRun(branches) && Described(s, branches, n, k) && n < |branches| && j < k
    ensures j < |branches[n].names| && branches[n].names[j].name in s.versions
  {
    hide Names, NamesOf, ParentOf, Store.Mirrored, FrontsRead, EndNames;
    assert branches[n].names[j].name in s.versions;
  }

  lemma TimesNext(count: nat, n: VersionName, rest: seq<VersionName>)
    ensures count > 0 ==> Times(count, n) + rest == [n] + (Times(count - 1, n) + rest)
    ensures Times(0, n) + rest == rest
  {
  }

  lemma {:induction false} BranchAccepted(s: Store, parent: Option<VersionName>, branches: seq<SerialBranch>, i: nat, rest: seq<VersionName>)
    requires NoEmptyRun(branches) && i <= |branches| && Described(s, branches, i, 0) && FitTo(branches, i)
    requires parent.Some? ==> parent.value in s.versions && Awaiting(branches, i) == [parent.value] + rest
    requires parent.None? ==> i < |branches| && Awaiting(branches, i) == [] == rest
    ensures Accepted(ParseBranch(s, parent, branches, i), branches, rest)
    decreases Rank(branches, i), 0, 0
  {
    hide Described, RunFits, FitTo, Names, NamesOf, Awaiting, ParseNames;
    if i < |branches| {
      var names := branches[i].names;
      NextAwaiting(branches, i);
      FitNext(branches, i);
      FirstAccepted(s, parent, branches, i);
      var first := ParseFirst(s, parent, branches, i);
      if first.Read? {
        NamesAccepted(first.store, names[0], names[1..], branches, i, 1, rest);
      }
    }
  }

  lemma {:induction false} FirstAccepted(s: Store, parent: Option<VersionName>, branches: seq<SerialBranch>, i: nat)
    requires NoEmptyRun(branches) && i < |branches| && branches[i].names != [] && Described(s, branches, i, 0)
    requires parent.Some? ==> parent.value in s.versions && Awaiting(branches, i) != [] && Awaiting(branches, i)[0] == parent.value
    requires parent.None? ==> Awaiting(branches, i) == []
    ensures var r := ParseFirst(s, parent, branches, i);
            && (r.Malformed? ==> !RunFits(branches, i))
            && (r.Read? ==> Described(r.store, branches, i, 1) && NamesNew(branches, i, 1) && StartFits(branches, i))
  {
    OldName(s, branches, i, 0);
    FirstRootLater(s, branches, i);
    if branches[i].names[0].name !in s.versions {
      FirstDescribed(s, branches, i);
    }
    hide Described, Names, NamesOf, Awaiting, NamesNew, FrontRead, ChildRead;
  }

  lemma FirstRootLater(s: Store, branches: seq<SerialBranch>, n: nat)
    requires NoEmptyRun(branches) && Described(s, branches, n, 0)
    ensures s.root.Some? <==> n > 0
  {
  }

  lemma {:induction false} NamesAccepted(s: Store, previous: SerialName, names: seq<SerialName>, branches: seq<SerialBranch>, n: nat, k: nat,
                                         rest: seq<VersionName>)
    requires NoEmptyRun(branches) && n < |branches| && 0 < k <= |branches[n].names| && FitTo(branches, n)
    requires names == branches[n].names[k..] && previous == branches[n].names[k - 1]
    requires Described(s, branches, n, k) && previous.name in s.versions && NamesNew(branches, n, k) && StartFits(branches, n)
    requires rest == if Awaiting(branches, n) == [] then [] else Awaiting(branches, n)[1..]
    ensures Accepted(ParseNames(s, previous, names, branches, n + 1), branches, rest)
    decreases Rank(branches, n + 1), 2, |names|
  {
    hide Described, Names, NamesOf, Awaiting, ParseForks, NamesNew;
    FitNext(branches, n);
    if names != [] {
      OldName(s, branches, n, k);
      if names[0].name !in s.versions {
        NameDescribed(s, branches, n, k);
        NamesAccepted(ChildRead(s, previous.name, names[0].name), names[0], names[1..], branches, n, k + 1, rest);
      }
    } else {
      EndDescribed(s, branches, n);
      NextAwaiting(branches, n);
      if previous.forkingChildCount.Some? && previous.forkingChildCount.value >= 2 {
        ForksAccepted(s, previous.name, previous.forkingChildCount.value, branches, n + 1, rest);
      } else {
        TimesNext(0, previous.name, rest);
      }
    }
  }

  lemma {:induction false} ForksAccepted(s: Store, parent: VersionName, count: nat, branches: seq<SerialBranch>, i: nat, rest: seq<VersionName>)
    requires NoEmptyRun(branches) && i <= |branches| && Described(s, branches, i, 0) && FitTo(branches, i)
    requires parent in s.versions && Awaiting(branches, i) == Times(count, parent) + rest
    ensures Accepted(ParseForks(s, parent, count, branches, i), branches, rest)
    decreases Rank(branches, i), 1, count
  {
    hide Described, FitTo, Awaiting, Times, ParseBranch;
    TimesNext(count, parent, rest);
    if count > 0 {
      BranchAccepted(s, Some(parent), branches, i, Times(count - 1, parent) + rest);
      var read := ParseBranch(s, Some(parent), branches, i);
      if read.Read? {
        ForksAccepted(read.store, parent, count - 1, branches, read.next, rest);
      }
    }
  }

  lemma {:induction false} AllAccepted(s: Store, branches: seq<SerialBranch>, i: nat)
    requires NoEmptyRun(branches) && i <= |branches| && Described(s, branches, i, 0) && FitTo(branches, i) && Awaiting(branches, i) == []
    ensures var r := ParseAll(s, branches, i);
            (r.Read? <==> Fit(branches)) && (r.Read? ==> Described(r.store, branches, |branches|, 0))
    decreases Rank(branches, i)
  {
    hide Described, FitTo, Awaiting, ParseBranch;
    if i < |branches| {
      BranchAccepted(s, None, branches, i, []);
      var read := ParseBranch(s, None, branches, i);
      if read.Read? {
        AllAccepted(read.store, branches, read.next);
      }
    }
  }

  lemma {:induction false} NothingDescribed(limits: Limits, branches: seq<SerialBranch>)
    requires NoEmptyRun(branches)
    ensures Described(EmptyStore(limits), branches, 0, 0) && FitTo(branches, 0) && Awaiting(branches, 0) == []
  {
    var s := EmptyStore(limits);
    forall a, x ensures !Waits(s.orphans, a, x) && !Begun(branches, 0, a, x) {
    }
  }

  /**
   A serialised container is accepted if and only if its limits are not zero, no name occurs twice, no
   run forks into fewer than two, as many runs follow a fork as it says, every tree but the first
   names an absent parent, and there are no more names and no more ends than the limits allow.
   */
  lemma ParsesIff(serialised: Serialised)
    requires NoEmptyRun(serialised.branches)
    ensures var b := serialised.branches;
            ParseSpec(serialised).Ok? <==>
            && serialised.limits.maxVersions >= 1 && serialised.limits.maxBranches >= 1
            && Fit(b) && |Names(b, |b|)| <= serialised.limits.maxVersions && |EndNames(b, |b|)| <= serialised.limits.maxBranches
  {
    var b, s := serialised.branches, EmptyStore(serialised.limits);
    hide Described, Fit, Names, EndNames;
    NothingDescribed(serialised.limits, b);
    AllAccepted(s, b, 0);
    AllGrow(s, b, 0);
    if Fit(b) {
      SizesRead(ParseAll(s, b, 0).store, b);
    }
  }

  lemma {:induction false} SizesRead(s: Store, branches: seq<SerialBranch>)
    requires NoEmptyRun(branches) && Described(s, branches, |branches|, 0)
    ensures |s.versions| == |Names(branches, |branches|)| && |s.tips| == |EndNames(branches, |branches|)|
  {
    assert s.versions.Keys == Names(branches, |branches|);
    assert |s.versions| == |s.versions.Keys|;
  }

  /**
   What is read: each name is under the one before it in its run, or the first of a run under the fork
   which awaits it; the first run begins with the root and the others which begin a tree with orphans
   under the parents they name; and the tips are the last names of the runs that do not fork.
   */
  lemma ParsedIs(serialised: Serialised)
    requires NoEmptyRun(serialised.branches) && ParseSpec(serialised).Ok?
    ensures var e, b := ParseSpec(serialised).value, serialised.branches;
            && e.limits == serialised.limits && e.versions.Keys == Names(b, |b|) && e.Mirrored() && e.tips == EndNames(b, |b|)
            && (forall m, j | 0 <= m < |b| && 0 <= j < |b[m].names| ::
                  var name := b[m].names[j].name;
                  name in e.versions && e.versions[name].parent == ParentOf(b, m, j))
            && (if b == [] then e.root == None else b[0].names != [] && e.root == Some(b[0].names[0].name) && e.rootAbsent == AbsentOf(b[0]))
            && forall a, x :: Waits(e.orphans, a, x) <==> Begun(b, |b|, a, x)
  {
    hide Described, Fit, Begun, Waits, BeginsOrphan, ParseAll, Names, EndNames, ParentOf, Awaiting, Store.Mirrored;
    var b, s := serialised.branches, EmptyStore(serialised.limits);
    NothingDescribed(serialised.limits, b);
    AllAccepted(s, b, 0);
    AllGrow(s, b, 0);
    DescribedSays(ParseAll(s, b, 0).store, b);
  }

  lemma {:induction false} DescribedSays(e: Store, b: seq<SerialBranch>)
    requires NoEmptyRun(b) && Described(e, b, |b|, 0)
    ensures e.versions.Keys == Names(b, |b|) && e.Mirrored() && e.tips == EndNames(b, |b|)
    ensures forall m, j | 0 <= m < |b| && 0 <= j < |b[m].names| ::
              b[m].names[j].name in e.versions && e.versions[b[m].names[j].name].parent == ParentOf(b, m, j)
    ensures if b == [] then e.root == None else b[0].names != [] && e.root == Some(b[0].names[0].name) && e.rootAbsent == AbsentOf(b[0])
    ensures forall a, x :: Waits(e.orphans, a, x) <==> Begun(b, |b|, a, x)
  {
    hide Begun, Waits, BeginsOrphan, Names, EndNames, ParentOf, Awaiting, Store.Mirrored;
  }
}
