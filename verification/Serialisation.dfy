/**
 The serialised form: every branch of the forest as a run of names, path-compressed.  A run ends at
 a tip, or at a fork, whose name carries the number of runs that continue it; those follow at once,
 in ascending order of their first names.
 */
module Serialisation {
  import opened Options
  import opened VersionNames
  import opened ParentMaps
  import opened Forests
  import opened Stores

  datatype SerialName = SerialName(name: VersionName, forkingChildCount: Option<nat>)

  datatype SerialBranch = SerialBranch(absentParent: Option<VersionName>, names: seq<SerialName>)

  datatype Serialised = Serialised(limits: Limits, branches: seq<SerialBranch>)

  // ---------------------------------------------------------------- writing

  /** The runs for the subtree of n; the first one starts with n. */
  ghost function Encode(d: Links, n: VersionName): (r: seq<SerialBranch>)
    requires Grounded(d) && n in d
    ensures r != [] && r[0].names != [] && r[0].absentParent.None?
    ensures r[0].names[0].name == n && NoEmptyRun(r)
    decreases Subtree(d, n), 1, 0
  {
    SubtreeStep(d, n);
    var kids := Kids(d, n);
    if kids == {} then [SerialBranch(None, [SerialName(n, None)])]
    else if |kids| == 1 then
      var e := Encode(d, Least(kids));
      [SerialBranch(None, [SerialName(n, None)] + e[0].names)] + e[1..]
    else [SerialBranch(None, [SerialName(n, Some(|kids|))])] + EncodeKids(d, n, Ascending(kids))
  }

  ghost function EncodeKids(d: Links, p: VersionName, kids: seq<VersionName>): (r: seq<SerialBranch>)
    requires Grounded(d) && p in d && forall c | c in kids :: c in Kids(d, p)
    ensures NoEmptyRun(r)
    decreases Subtree(d, p), 0, |kids|
  {
    SubtreeStep(d, p);
    if kids == [] then [] else Encode(d, kids[0]) + EncodeKids(d, p, kids[1..])
  }

  function Initialised(n: VersionName): Option<VersionName> {
    if n.IsInitialised() then Some(n) else None
  }

  /** The runs of the tree under a front, headed by its absent parent. */
  ghost function EncodeFront(d: Links, n: VersionName): (r: seq<SerialBranch>)
    requires Grounded(d) && n in d
    ensures NoEmptyRun(r)
  {
    var e := Encode(d, n);
    [e[0].(absentParent := Initialised(d[n]))] + e[1..]
  }

  ghost function EncodeFronts(d: Links, fronts: seq<VersionName>): (r: seq<SerialBranch>)
    requires Grounded(d) && forall n | n in fronts :: n in d
    ensures NoEmptyRun(r)
  {
    if fronts == [] then [] else EncodeFront(d, fronts[0]) + EncodeFronts(d, fronts[1..])
  }

  /** The orphans in the order the container keeps them: by absent parent, then by name. */
  ghost function OrphansInOrder(f: Forest, keys: seq<VersionName>): (r: seq<VersionName>)
    ensures forall n :: n in r <==> exists k :: k in keys && n in f.OrphansOf(k)
  {
    if keys == [] then [] else Ascending(f.OrphansOf(keys[0])) + OrphansInOrder(f, keys[1..])
  }

  /** The root first, then the orphans. */
  ghost function FrontsInOrder(f: Forest): seq<VersionName> {
    (if f.root.Some? then [f.root.value] else []) + OrphansInOrder(f, Ascending(f.OrphanKeys()))
  }

  lemma FrontsAreFronts(f: Forest)
    requires f.Valid()
    ensures forall n :: n in FrontsInOrder(f) <==> IsFront(f.declared, n)
  {
    forall n ensures n in FrontsInOrder(f) <==> IsFront(f.declared, n) {
      if IsFront(f.declared, n) && !f.IsRoot(n) {
        assert f.declared[n] in f.OrphanKeys() && n in f.OrphansOf(f.declared[n]);
      }
    }
  }

  /** By absent parent first, and by name second. */
  predicate WrittenBefore(d: Links, m: VersionName, n: VersionName) {
    m in d && n in d && (Less(d[m], d[n]) || (d[m] == d[n] && Less(m, n)))
  }

  ghost predicate InWritingOrder(d: Links, r: seq<VersionName>) {
    forall i, j | 0 <= i < j < |r| :: WrittenBefore(d, r[i], r[j])
  }

  lemma OrdersJoin(d: Links, k: VersionName, head: seq<VersionName>, rest: seq<VersionName>)
    requires (forall i | 0 <= i < |head| :: head[i] in d && d[head[i]] == k) && forall i, j | 0 <= i < j < |head| :: Less(head[i], head[j])
    requires InWritingOrder(d, rest) && forall i | 0 <= i < |rest| :: rest[i] in d && Less(k, d[rest[i]])
    ensures InWritingOrder(d, head + rest)
  {
  }

  lemma {:induction false} OrphanAfter(f: Forest, keys: seq<VersionName>, n: VersionName)
    requires keys != [] && (forall i, j | 0 <= i < j < |keys| :: Less(keys[i], keys[j])) && n in OrphansInOrder(f, keys[1..])
    ensures n in f.declared && Less(keys[0], f.declared[n])
  {
    var k :| k in keys[1..] && n in f.OrphansOf(k);
    var j :| 0 <= j < |keys[1..]| && keys[1..][j] == k;
    assert keys[j + 1] == k;
  }

  lemma OrphansOfOne(f: Forest, k: VersionName)
    ensures var r := Ascending(f.OrphansOf(k)); forall i | 0 <= i < |r| :: r[i] in f.declared && f.declared[r[i]] == k
  {
    var r := Ascending(f.OrphansOf(k));
    forall i | 0 <= i < |r| ensures r[i] in f.declared && f.declared[r[i]] == k {
      assert r[i] in r;
    }
  }

  lemma {:induction false} OrphansOrdered(f: Forest, keys: seq<VersionName>)
    requires forall i, j | 0 <= i < j < |keys| :: Less(keys[i], keys[j])
    ensures InWritingOrder(f.declared, OrphansInOrder(f, keys))
    decreases |keys|
  {
    hide InWritingOrder, Less;
    if keys != [] {
      var head, rest := Ascending(f.OrphansOf(keys[0])), OrphansInOrder(f, keys[1..]);
      OrphansOrdered(f, keys[1..]);
      OrphansOfOne(f, keys[0]);
      forall i | 0 <= i < |rest| ensures rest[i] in f.declared && Less(keys[0], f.declared[rest[i]]) {
        assert rest[i] in rest;
        OrphanAfter(f, keys, rest[i]);
      }
      OrdersJoin(f.declared, keys[0], head, rest);
    } else {
      NoneWritten(f.declared);
    }
  }

  lemma NoneWritten(d: Links)
    ensures InWritingOrder(d, [])
  {
  }

  /** The root is written first, and then the orphans in that order. */
  lemma FrontsOrdered(f: Forest)
    requires f.Valid() && f.root.Some?
    ensures FrontsInOrder(f) != [] && FrontsInOrder(f)[0] == f.root.value && InWritingOrder(f.declared, FrontsInOrder(f)[1..])
  {
    var keys := Ascending(f.OrphanKeys());
    OrphansOrdered(f, keys);
    hide OrphansInOrder, InWritingOrder;
    assert ([f.root.value] + OrphansInOrder(f, keys))[1..] == OrphansInOrder(f, keys);
  }

  /** Run k starts with the name n. */
  predicate StartsWith(e: seq<SerialBranch>, k: nat, n: VersionName) {
    k < |e| && e[k].names != [] && e[k].names[0].name == n
  }

  lemma StartShifted(a: seq<SerialBranch>, e: seq<SerialBranch>, k: nat, n: VersionName)
    ensures StartsWith(e, k, n) ==> StartsWith(a + e, |a| + k, n)
    ensures StartsWith(a, k, n) ==> StartsWith(a + e, k, n)
  {
  }

  lemma {:induction false} FirstKid(d: Links, p: VersionName, kids: seq<VersionName>)
    requires Grounded(d) && p in d && (forall c | c in kids :: c in Kids(d, p)) && kids != []
    ensures kids[0] in d && EncodeKids(d, p, kids) == Encode(d, kids[0]) + EncodeKids(d, p, kids[1..])
    ensures StartsWith(Encode(d, kids[0]), 0, kids[0]) && |Encode(d, kids[0])| > 0
  {
    SubtreeStep(d, p);
  }

  lemma {:induction false} RunOfKid(d: Links, p: VersionName, kids: seq<VersionName>, j: nat) returns (l: nat)
    requires Grounded(d) && p in d && (forall c | c in kids :: c in Kids(d, p)) && j < |kids|
    ensures StartsWith(EncodeKids(d, p, kids), l, kids[j])
    decreases |kids|
  {
    hide Encode, EncodeKids, Grounded, Kids, StartsWith;
    FirstKid(d, p, kids);
    var head, rest := Encode(d, kids[0]), EncodeKids(d, p, kids[1..]);
    if j > 0 {
      l := RunOfKid(d, p, kids[1..], j - 1);
      StartShifted(head, rest, l, kids[j]);
      l := |head| + l;
    } else {
      StartShifted(head, rest, 0, kids[0]);
      l := 0;
    }
  }

  /** The run that starts with a child of a fork stands before those of later children. */
  lemma {:induction false} KidsOrdered(d: Links, p: VersionName, kids: seq<VersionName>, i: nat, j: nat) returns (k: nat, l: nat)
    requires Grounded(d) && p in d && (forall c | c in kids :: c in Kids(d, p)) && i < j < |kids|
    ensures k < l && StartsWith(EncodeKids(d, p, kids), k, kids[i]) && StartsWith(EncodeKids(d, p, kids), l, kids[j])
    decreases |kids|
  {
    hide Encode, EncodeKids, Grounded, Kids, StartsWith;
    FirstKid(d, p, kids);
    var head, rest := Encode(d, kids[0]), EncodeKids(d, p, kids[1..]);
    if i > 0 {
      k, l := KidsOrdered(d, p, kids[1..], i - 1, j - 1);
      StartShifted(head, rest, k, kids[i]);
      k := |head| + k;
    } else {
      l := RunOfKid(d, p, kids[1..], j - 1);
      StartShifted(head, rest, 0, kids[0]);
      k := 0;
    }
    StartShifted(head, rest, l, kids[j]);
    l := |head| + l;
  }

  lemma OnlyInOrder(r: seq<VersionName>, i: nat, j: nat)
    requires (forall i, j | 0 <= i < j < |r| :: Less(r[i], r[j])) && i < |r| && j < |r| && Less(r[i], r[j])
    ensures i < j
  {
    assert Less(r[i], r[j]) ==> !Less(r[j], r[i]);
  }

  lemma PlacesInOrder(s: set<VersionName>, a: VersionName, b: VersionName) returns (i: nat, j: nat)
    requires a in s && b in s && Less(a, b)
    ensures i < j < |s| && Ascending(s)[i] == a && Ascending(s)[j] == b
  {
    var r := Ascending(s);
    i :| i < |r| && r[i] == a;
    j :| j < |r| && r[j] == b;
    OnlyInOrder(r, i, j);
  }

  lemma TwoElements(s: set<VersionName>, a: VersionName, b: VersionName)
    requires a in s && b in s && a != b
    ensures |s| != 1 && s != {}
  {
    assert {a, b} <= s;
    assert s == s - {a} + {a} && b in s - {a};
  }

  lemma {:induction false} ForkEncoded(d: Links, p: VersionName)
    requires Grounded(d) && p in d && Kids(d, p) != {} && |Kids(d, p)| != 1
    ensures Encode(d, p) == [SerialBranch(None, [SerialName(p, Some(|Kids(d, p)|))])] + EncodeKids(d, p, Ascending(Kids(d, p)))
  {
  }

  lemma StartsLater(head: SerialBranch, e: seq<SerialBranch>, k: nat, n: VersionName)
    requires StartsWith(e, k, n)
    ensures StartsWith([head] + e, k + 1, n)
  {
  }

  /** At a fork the lower of two children is written first. */
  lemma SiblingsOrdered(d: Links, p: VersionName, a: VersionName, b: VersionName) returns (k: nat, l: nat)
    requires Grounded(d) && p in d && a in Kids(d, p) && b in Kids(d, p) && Less(a, b)
    ensures 0 < k < l && StartsWith(Encode(d, p), k, a) && StartsWith(Encode(d, p), l, b)
  {
    hide Encode, EncodeKids, Grounded, Kids, StartsWith;
    var kids := Ascending(Kids(d, p));
    var i, j := PlacesInOrder(Kids(d, p), a, b);
    TwoElements(Kids(d, p), a, b);
    ForkEncoded(d, p);
    hide Ascending, Less;
    k, l := KidsOrdered(d, p, kids, i, j);
    var head := SerialBranch(None, [SerialName(p, Some(|Kids(d, p)|))]);
    StartsLater(head, EncodeKids(d, p, kids), k, a);
    StartsLater(head, EncodeKids(d, p, kids), l, b);
    k, l := 1 + k, 1 + l;
  }

  ghost function SerialiseSpec(f: Forest, limits: Limits): Serialised
    requires f.Valid()
  {
    FrontsAreFronts(f);
    Serialised(limits, EncodeFronts(f.declared, FrontsInOrder(f)))
  }

  // ---------------------------------------------------------------- reading

  /** The store after reading some runs and the index of the next one. */
  datatype Reading = Malformed | Read(store: Store, next: nat) {
    predicate IsFailure() {
      Malformed?
    }

    function PropagateFailure(): Reading
      requires Malformed?
    {
      Malformed
    }

    function Extract(): Reading
      requires Read?
    {
      this
    }
  }

  function InsertVersion(s: Store, n: VersionName): Store {
    s.(versions := s.versions[n := Details(None, {})])
  }

  function LinkChild(s: Store, p: VersionName, c: VersionName): Store
    requires p in s.versions && c in s.versions && p != c
  {
    s.(versions := s.versions[p := s.versions[p].(children := s.versions[p].children + {c})]
                             [c := s.versions[c].(parent := Some(p))])
  }

  /** c has just been read under n. */
  function ChildRead(s: Store, n: VersionName, c: VersionName): Store
    requires n in s.versions && c !in s.versions
  {
    LinkChild(InsertVersion(s, c), n, c)
  }

  /** The first name of a run without a parent: the root if there is none yet, else an orphan. */
  function FrontRead(s: Store, n: VersionName, absent: VersionName): Store {
    var s' := InsertVersion(s, n);
    if s.root.None? then s'.(rootAbsent := absent, root := Some(n))
    else s'.(orphans := WithOrphan(s.orphans, absent, n))
  }

  /** The first name of a run: the root, an orphan, or a child of the fork it continues. */
  function ParseFirst(s: Store, parent: Option<VersionName>, branches: seq<SerialBranch>, i: nat): (r: Reading)
    requires i < |branches| && branches[i].names != [] && (parent.Some? ==> parent.value in s.versions)
    ensures r.Read? ==> r.store.versions.Keys == s.versions.Keys + {branches[i].names[0].name} && r.next == i + 1
  {
    var n := branches[i].names[0].name;
    var absent := if branches[i].absentParent.Some? then branches[i].absentParent.value else DEFAULT_NAME;
    if n in s.versions then Malformed
    else if parent.Some? then Read(ChildRead(s, parent.value, n), i + 1)
    else if s.root.Some? && !absent.IsInitialised() then Malformed
    else Read(FrontRead(s, n, absent), i + 1)
  }

  function Rank(branches: seq<SerialBranch>, i: nat): nat {
    if i <= |branches| then |branches| - i else 0
  }

  predicate NoEmptyRun(branches: seq<SerialBranch>) {
    forall b | b in branches :: b.names != []
  }

  /** Reads run i, and the runs which continue it. */
  function ParseBranch(s: Store, parent: Option<VersionName>, branches: seq<SerialBranch>, i: nat): (r: Reading)
    requires NoEmptyRun(branches) && (parent.Some? ==> parent.value in s.versions)
    ensures r.Read? ==> s.versions.Keys <= r.store.versions.Keys && i < r.next <= |branches|
    decreases Rank(branches, i), 0, 0
  {
    if i >= |branches| then Malformed
    else
      assert branches[i] in branches;
      var names := branches[i].names;
      var first :- ParseFirst(s, parent, branches, i);
      ParseNames(first.store, names[0], names[1..], branches, i + 1)
  }

  /** Reads the other names of a run, each the only child of the one before, then what continues it. */
  function ParseNames(s: Store, previous: SerialName, names: seq<SerialName>, branches: seq<SerialBranch>,
                      i: nat): (r: Reading)
    requires NoEmptyRun(branches) && previous.name in s.versions
    ensures r.Read? ==> s.versions.Keys <= r.store.versions.Keys && i <= r.next && (i <= |branches| ==> r.next <= |branches|)
    decreases Rank(branches, i), 2, |names|
  {
    if names != [] then
      if names[0].name in s.versions then Malformed
      else ParseNames(ChildRead(s, previous.name, names[0].name), names[0], names[1..], branches, i)
    else match previous.forkingChildCount
      case None => Read(s.(tips := s.tips + {previous.name}), i)
      case Some(count) =>
        if count < 2 then Malformed else ParseForks(s, previous.name, count, branches, i)
  }

  function ParseForks(s: Store, parent: VersionName, count: nat, branches: seq<SerialBranch>, i: nat): (r: Reading)
    requires NoEmptyRun(branches) && parent in s.versions
    ensures r.Read? ==> s.versions.Keys <= r.store.versions.Keys && i <= r.next && (i <= |branches| ==> r.next <= |branches|)
    decreases Rank(branches, i), 1, count
  {
    if count == 0 then Read(s, i)
    else
      var read :- ParseBranch(s, Some(parent), branches, i);
      ParseForks(read.store, parent, count - 1, branches, read.next)
  }

  function ParseAll(s: Store, branches: seq<SerialBranch>, i: nat): Reading
    requires NoEmptyRun(branches)
    decreases Rank(branches, i)
  {
    if i >= |branches| then Read(s, i)
    else
      var read :- ParseBranch(s, None, branches, i);
      ParseAll(read.store, branches, read.next)
  }

  function EmptyStore(limits: Limits): Store {
    Store(limits, map[], DEFAULT_NAME, None, {}, map[])
  }

  /** What the parsing constructor builds, or the error it throws. */
  function ParseSpec(serialised: Serialised): Result<Store>
    requires NoEmptyRun(serialised.branches)
  {
    var read := ParseAll(EmptyStore(serialised.limits), serialised.branches, 0);
    if !serialised.limits.Valid() then Err(InvalidArgument)
    else if read.Malformed? then Err(ParsingError)
    else if |read.store.versions| > read.store.limits.maxVersions || |read.store.tips| > read.store.limits.maxBranches then
      Err(ParsingError)
    else Ok(read.store)
  }

  /** A reader which reports success and the next index, and leaves the store s, reads as r. */
  predicate ReadsAs(r: Reading, ok: bool, next: nat, s: Store) {
    (ok <==> r.Read?) && (ok ==> r.store == s && r.next == next)
  }
}
