/**
 The four linked structures of the container as one value, its invariant link by link, and the
 theorem that they hold nothing but the declared parents and the choice of root.
 */
module Stores {
  import opened Options
  import opened VersionNames
  import opened ParentMaps
  import opened Forests

  datatype Details = Details(parent: Option<VersionName>, children: set<VersionName>)

  type Versions = map<VersionName, Details>
  type Orphans = map<VersionName, set<VersionName>>

  datatype Store = Store(
    limits: Limits,
    versions: Versions,
    rootAbsent: VersionName,
    root: Option<VersionName>,
    tips: set<VersionName>,
    orphans: Orphans)
  {
    predicate LinksDown(p: VersionName, c: VersionName) {
      p in versions && c in versions[p].children
    }

    predicate LinksUp(c: VersionName, p: VersionName) {
      c in versions && versions[c].parent == Some(p)
    }

    /** Parent and child links mirror each other. */
    ghost predicate Mirrored() {
      forall p, c :: LinksDown(p, c) <==> LinksUp(c, p)
    }

    ghost predicate Rooted() {
      && (versions == map[] <==> root.None?)
      && (root.None? ==> rootAbsent == DEFAULT_NAME)
      && (root.Some? ==> root.value in versions && versions[root.value].parent.None? && rootAbsent !in versions)
    }

    /** The orphans are the parentless versions other than the root, each under one absent parent. */
    ghost predicate Orphaned() {
      && (forall k | k in orphans :: orphans[k] != {} && k.IsInitialised() && k !in versions)
      && (forall k, o | k in orphans && o in orphans[k] ::
            o in versions && versions[o].parent.None? && root != Some(o))
      && (forall n | n in versions && versions[n].parent.None? && root != Some(n) :: HasKey(n))
      && (forall k, k', o | k in orphans && k' in orphans && o in orphans[k] && o in orphans[k'] :: k == k')
    }

    ghost predicate HasKey(o: VersionName) {
      exists k :: k in orphans && o in orphans[k]
    }

    ghost function DeclaredParent(n: VersionName): VersionName
      requires n in versions
    {
      if versions[n].parent.Some? then versions[n].parent.value
      else if root == Some(n) then rootAbsent
      else if HasKey(n) then var k :| k in orphans && n in orphans[k]; k
      else DEFAULT_NAME
    }

    ghost function Declared(): Links {
      map n | n in versions :: DeclaredParent(n)
    }

    ghost function Abstract(): Forest {
      Forest(Declared(), root)
    }

    ghost predicate WellFormed() {
      && limits.Valid()
      && |versions| <= limits.maxVersions && |tips| <= limits.maxBranches
      && (forall n | n in versions :: n.IsInitialised())
      && Mirrored()
      && (forall n :: n in tips <==> n in versions && versions[n].children == {})
      && Rooted()
      && Orphaned()
      && Grounded(Declared())
    }
  }

  function WithOrphan(orphans: Orphans, key: VersionName, orphan: VersionName): Orphans {
    orphans[key := (if key in orphans then orphans[key] else {}) + {orphan}]
  }

  // ---------------------------------------------------------------- each structure as a function of the forest

  function ParentIn(d: Links, n: VersionName): Option<VersionName>
    requires n in d
  {
    if d[n] in d then Some(d[n]) else None
  }

  ghost predicate VersionsOf(versions: Versions, d: Links) {
    && versions.Keys == d.Keys
    && forall n {:trigger versions[n]} | n in d :: versions[n] == Details(ParentIn(d, n), Kids(d, n))
  }

  ghost predicate OrphansOf(orphans: Orphans, f: Forest) {
    && (forall k :: k in orphans <==> k !in f.declared && f.OrphansOf(k) != {})
    && (forall k | k in orphans :: orphans[k] == f.OrphansOf(k))
  }

  ghost predicate RootOf(rootAbsent: VersionName, root: Option<VersionName>, f: Forest) {
    && root == f.root
    && (f.root.Some? ==> f.root.value in f.declared && rootAbsent == f.declared[f.root.value])
    && (f.root.None? ==> rootAbsent == DEFAULT_NAME)
  }

  ghost predicate Represents(s: Store, f: Forest) {
    && VersionsOf(s.versions, f.declared)
    && RootOf(s.rootAbsent, s.root, f)
    && s.tips == Tips(f.declared)
    && OrphansOf(s.orphans, f)
  }

  lemma DeclaredParentOf(s: Store, n: VersionName)
    requires s.Mirrored() && s.Rooted() && s.Orphaned() && n in s.versions
    ensures s.versions[n].parent == if s.DeclaredParent(n) in s.versions then Some(s.DeclaredParent(n)) else None
    ensures s.versions[n].parent.None? && s.root != Some(n) ==>
              s.DeclaredParent(n) in s.orphans && n in s.orphans[s.DeclaredParent(n)]
  {
    if s.versions[n].parent.Some? {
      assert s.LinksUp(n, s.versions[n].parent.value);
      assert s.LinksDown(s.versions[n].parent.value, n);
    } else if s.root != Some(n) {
      assert s.HasKey(n);
    }
  }

  lemma OrphanDeclares(s: Store, k: VersionName, o: VersionName)
    requires s.Orphaned() && k in s.orphans && o in s.orphans[k]
    ensures o in s.versions && s.DeclaredParent(o) == k && s.root != Some(o)
  {
    assert s.HasKey(o);
  }

  lemma ChildrenAreKids(s: Store, n: VersionName)
    requires s.Mirrored() && s.Rooted() && s.Orphaned() && n in s.versions
    ensures s.versions[n].children == Kids(s.Declared(), n)
  {
    var d := s.Declared();
    forall c ensures c in s.versions[n].children <==> c in Kids(d, n) {
      assert s.LinksDown(n, c) <==> s.LinksUp(c, n);
      if c in s.versions {
        DeclaredParentOf(s, c);
      }
    }
  }

  lemma OrphanSetIs(s: Store, k: VersionName)
    requires s.Mirrored() && s.Rooted() && s.Orphaned()
    ensures k in s.orphans ==> k !in s.versions && s.orphans[k] == s.Abstract().OrphansOf(k)
    ensures k !in s.orphans && k !in s.versions ==> s.Abstract().OrphansOf(k) == {}
  {
    var f := s.Abstract();
    forall o | o in f.declared && k !in s.versions
      ensures o in f.OrphansOf(k) <==> k in s.orphans && o in s.orphans[k]
    {
      DeclaredParentOf(s, o);
      if k in s.orphans && o in s.orphans[k] {
        OrphanDeclares(s, k, o);
      }
    }
    if k in s.orphans {
      forall o | o in s.orphans[k] ensures o in f.declared {
        OrphanDeclares(s, k, o);
      }
    }
  }

  lemma VersionsAre(s: Store)
    requires s.Mirrored() && s.Rooted() && s.Orphaned()
    ensures VersionsOf(s.versions, s.Declared())
  {
    var d := s.Declared();
    forall n | n in d ensures s.versions[n] == Details(ParentIn(d, n), Kids(d, n)) {
      DeclaredParentOf(s, n);
      ChildrenAreKids(s, n);
    }
  }

  lemma OrphansAre(s: Store)
    requires s.Mirrored() && s.Rooted() && s.Orphaned()
    ensures OrphansOf(s.orphans, s.Abstract())
  {
    var f := s.Abstract();
    forall k
      ensures k in s.orphans <==> k !in f.declared && f.OrphansOf(k) != {}
      ensures k in s.orphans ==> s.orphans[k] == f.OrphansOf(k)
    {
      OrphanSetIs(s, k);
    }
  }

  lemma TipsAre(s: Store)
    requires VersionsOf(s.versions, s.Declared())
    requires forall n :: n in s.tips <==> n in s.versions && s.versions[n].children == {}
    ensures s.tips == Tips(s.Declared())
  {
  }

  lemma AbstractValid(s: Store)
    requires s.Mirrored() && s.Rooted() && s.Orphaned() && Grounded(s.Declared())
    requires forall n | n in s.versions :: n.IsInitialised()
    ensures s.Abstract().Valid()
  {
    var d := s.Declared();
    assert d.Keys == s.versions.Keys;
    assert s.versions == map[] <==> s.versions.Keys == {};
    assert d == map[] <==> d.Keys == {};
    forall n | n in d && s.root != Some(n) ensures d[n].IsInitialised() {
      DeclaredParentOf(s, n);
    }
  }

  /** A well-formed container is determined by its declared parents and its root ... */
  lemma WellFormedRepresents(s: Store)
    requires s.WellFormed()
    ensures Represents(s, s.Abstract())
    ensures s.Abstract().Valid() && s.Abstract().Within(s.limits)
  {
    VersionsAre(s);
    OrphansAre(s);
    TipsAre(s);
    AbstractValid(s);
    assert s.Declared().Keys == s.versions.Keys;
    assert |s.Declared()| == |s.versions|;
  }

  lemma DeclaredIs(s: Store, f: Forest)
    requires Represents(s, f) && f.Valid()
    ensures s.Declared() == f.declared
  {
    var d := f.declared;
    forall n | n in d ensures s.DeclaredParent(n) == d[n] {
      if d[n] !in d && !f.IsRoot(n) {
        assert n in f.OrphansOf(d[n]);
        assert d[n] in s.orphans;
        assert n in s.orphans[d[n]];
        assert s.HasKey(n);
      }
    }
  }

  /** ... and conversely the structures built from a valid forest are well-formed and give it back. */
  lemma RepresentsWellFormed(s: Store, f: Forest)
    requires Represents(s, f) && f.Valid() && s.limits.Valid() && f.Within(s.limits)
    ensures s.WellFormed() && s.Abstract() == f
  {
    DeclaredIs(s, f);
    assert |s.versions.Keys| == |f.declared.Keys|;
  }
}
