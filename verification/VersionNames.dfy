/**
 Version names: an index and an identity, ordered by index first and identity second.
 */
module VersionNames {
  /** A 64-byte identity, held as its big-endian number; a default-constructed one is uninitialised. */
  datatype Id = Uninitialised | Identity(value: nat)

  datatype VersionName = VersionName(index: nat, id: Id) {
    predicate IsInitialised() {
      id.Identity?
    }
  }

  /** What a default-constructed name holds: the largest 64-bit index and no identity. */
  const DEFAULT_NAME := VersionName(0xFFFF_FFFF_FFFF_FFFF, Uninitialised)

  predicate IdLess(a: Id, b: Id) {
    b.Identity? && (a.Identity? ==> a.value < b.value)
  }

  predicate Less(a: VersionName, b: VersionName) {
    a.index < b.index || (a.index == b.index && IdLess(a.id, b.id))
  }

  predicate IsLeast(m: VersionName, s: set<VersionName>) {
    m in s && forall x | x in s :: x == m || Less(m, x)
  }

  lemma {:induction false} LeastExists(s: set<VersionName>)
    requires s != {}
    ensures exists m :: IsLeast(m, s)
    decreases s
  {
    var x :| x in s;
    var rest := s - {x};
    if rest == {} {
      assert forall y :: y in s ==> y == x || y in rest;
      assert IsLeast(x, s);
    } else {
      LeastExists(rest);
      var m :| IsLeast(m, rest);
      var least := if Less(x, m) then x else m;
      assert IsLeast(least, s) by {
        forall y | y in s ensures y == least || Less(least, y) {
          assert y == x || y in rest;
        }
      }
    }
  }

  /** The first element of an ordered set. */
  function Least(s: set<VersionName>): (m: VersionName)
    requires s != {}
    ensures IsLeast(m, s)
  {
    LeastExists(s);
    var m :| IsLeast(m, s);
    m
  }

  /** The order in which an ordered set is walked. */
  function Ascending(s: set<VersionName>): (r: seq<VersionName>)
    ensures |r| == |s|
    ensures forall x :: x in r <==> x in s
    ensures forall i, j :: 0 <= i < j < |r| ==> Less(r[i], r[j])
    decreases s
  {
    if s == {} then [] else
      var m := Least(s);
      var rest := Ascending(s - {m});
      assert forall x :: x in s <==> x == m || x in s - {m};
      [m] + rest
  }

  ghost predicate Enumerates(r: seq<VersionName>, s: set<VersionName>) {
    && (forall x :: x in r <==> x in s)
    && (forall i, j :: 0 <= i < j < |r| ==> Less(r[i], r[j]))
  }

  lemma HeadIsLeast(s: set<VersionName>, r: seq<VersionName>)
    requires Enumerates(r, s)
    ensures r == [] <==> s == {}
    ensures r != [] ==> r[0] == Least(s)
  {
    if r == [] {
      assert s == {};
    } else {
      assert r[0] in s;
      var m := Least(s);
      assert m in r;
      var i :| 0 <= i < |r| && r[i] == m;
      if i > 0 {
        assert Less(r[0], m);
      }
    }
  }

  lemma TailIsRest(s: set<VersionName>, r: seq<VersionName>)
    requires Enumerates(r, s) && r != []
    ensures Enumerates(r[1..], s - {r[0]})
  {
    forall x ensures x in r[1..] <==> x in s - {r[0]} {
      assert x in r <==> x == r[0] || x in r[1..] by {
        assert r == [r[0]] + r[1..];
      }
      if x in r[1..] {
        var j :| 0 <= j < |r[1..]| && r[1..][j] == x;
        assert Less(r[0], r[j + 1]);
      }
    }
  }

  /** Only one ascending enumeration of a set exists. */
  lemma {:induction false} AscendingUnique(s: set<VersionName>, r: seq<VersionName>)
    requires Enumerates(r, s)
    ensures r == Ascending(s)
    decreases |r|
  {
    hide Enumerates, Less, IsLeast;
    HeadIsLeast(s, r);
    if r != [] {
      TailIsRest(s, r);
      AscendingUnique(s - {r[0]}, r[1..]);
      assert r == [r[0]] + r[1..];
    }
  }

  /** The place of an identity among those below w; one that is not initialised comes before all others. */
  function Code(id: Id): nat {
    if id.Identity? then id.value + 1 else 0
  }

  /** The order is that of the index and the identity written as one number. */
  lemma LessIsNumeric(a: VersionName, b: VersionName, w: nat)
    requires Code(a.id) < w && Code(b.id) < w
    ensures Less(a, b) <==> a.index * w + Code(a.id) < b.index * w + Code(b.id)
  {
    Apart(a.index, b.index, w);
    Apart(b.index, a.index, w);
  }

  lemma Apart(m: nat, n: nat, w: nat)
    ensures m < n ==> m * w + w <= n * w
  {
    if m < n {
      assert (m + 1) * w <= n * w;
    }
  }
}
