/**
 The plain view of a version forest: a map from each version to the parent it was declared with.
 A declared parent that is not itself a version is "absent"; the version is then the front of its
 branch.  Everything the container links together is a function of this map.
 */
module ParentMaps {
  import opened VersionNames

  type Links = map<VersionName, VersionName>

  function Kids(d: Links, p: VersionName): set<VersionName> {
    set c | c in d && d[c] == p
  }

  predicate IsFront(d: Links, n: VersionName) {
    n in d && d[n] !in d
  }

  function Tips(d: Links): set<VersionName> {
    set n | n in d && Kids(d, n) == {}
  }

  /** A walk up the parents, ending at the front of the branch. */
  ghost predicate IsBranch(d: Links, s: seq<VersionName>) {
    s != [] && s[0] in d &&
    if |s| == 1 then d[s[0]] !in d else d[s[0]] == s[1] && IsBranch(d, s[1..])
  }

  ghost predicate HasBranch(d: Links, n: VersionName) {
    exists s :: IsBranch(d, s) && s[0] == n
  }

  /** No version is its own ancestor: every upward walk ends. */
  ghost predicate Grounded(d: Links) {
    forall n {:trigger HasBranch(d, n)} | n in d :: HasBranch(d, n)
  }

  ghost function Branch(d: Links, n: VersionName): (s: seq<VersionName>)
    requires HasBranch(d, n)
    ensures IsBranch(d, s) && s[0] == n
  {
    var s :| IsBranch(d, s) && s[0] == n;
    s
  }

  /** The root or orphan at which the branch of n starts. */
  ghost function Front(d: Links, n: VersionName): (f: VersionName)
    requires HasBranch(d, n)
    ensures IsFront(d, f)
  {
    var s := Branch(d, n);
    BranchElements(d, s);
    s[|s| - 1]
  }

  /** The absent parent a branch is waiting for. */
  ghost function AwaitedBy(d: Links, s: seq<VersionName>): VersionName
    requires IsBranch(d, s)
  {
    BranchElements(d, s);
    d[s[|s| - 1]]
  }

  ghost function Subtree(d: Links, n: VersionName): set<VersionName> {
    set m | m in d && HasBranch(d, m) && n in Branch(d, m)
  }

  lemma {:induction false} BranchUnique(d: Links, s: seq<VersionName>, t: seq<VersionName>)
    requires IsBranch(d, s) && IsBranch(d, t) && s[0] == t[0]
    ensures s == t
    decreases |s|
  {
    if |s| > 1 {
      BranchUnique(d, s[1..], t[1..]);
      assert s == [s[0]] + s[1..] && t == [t[0]] + t[1..];
    }
  }

  lemma {:induction false} BranchIs(d: Links, s: seq<VersionName>)
    requires IsBranch(d, s)
    ensures HasBranch(d, s[0]) && Branch(d, s[0]) == s
  {
    BranchUnique(d, s, Branch(d, s[0]));
  }

  /** Every element of a branch is a version, and only the last has an absent parent. */
  lemma {:induction false} BranchElements(d: Links, s: seq<VersionName>)
    requires IsBranch(d, s)
    ensures forall i :: 0 <= i < |s| ==> s[i] in d
    ensures forall i :: 0 <= i < |s| - 1 ==> d[s[i]] == s[i + 1]
    ensures IsFront(d, s[|s| - 1])
  {
    if |s| > 1 {
      BranchElements(d, s[1..]);
    }
  }

  /** The suffix of a branch is the branch of its first element. */
  lemma {:induction false} BranchSuffix(d: Links, s: seq<VersionName>, i: nat)
    requires IsBranch(d, s) && i < |s|
    ensures IsBranch(d, s[i..])
    ensures HasBranch(d, s[i]) && Branch(d, s[i]) == s[i..]
  {
    if i == 0 {
      assert s[0..] == s;
    } else {
      BranchSuffix(d, s[1..], i - 1);
      assert s[1..][i - 1..] == s[i..];
    }
    BranchIs(d, s[i..]);
  }

  lemma BranchStep(d: Links, n: VersionName)
    requires n in d
    requires HasBranch(d, n) || HasBranch(d, d[n])
    ensures HasBranch(d, n)
    ensures d[n] !in d ==> Branch(d, n) == [n] && Front(d, n) == n
    ensures d[n] in d ==> HasBranch(d, d[n]) && Branch(d, n) == [n] + Branch(d, d[n])
    ensures d[n] in d ==> Front(d, n) == Front(d, d[n])
  {
    if HasBranch(d, n) {
      var s := Branch(d, n);
      if |s| > 1 {
        BranchIs(d, s[1..]);
        assert s == [n] + s[1..];
      }
    } else {
      var t := Branch(d, d[n]);
      var s := [n] + t;
      assert s[1..] == t;
      BranchIs(d, s);
    }
  }

  lemma FrontIsFront(d: Links, n: VersionName)
    requires n in d && HasBranch(d, n)
    ensures IsFront(d, Front(d, n))
    ensures n in Branch(d, n)
    ensures IsFront(d, n) <==> Front(d, n) == n
  {
    BranchElements(d, Branch(d, n));
    BranchStep(d, n);
    if d[n] in d {
      BranchElements(d, Branch(d, d[n]));
    }
  }

  /** Different children have disjoint subtrees and the subtree of a child is strictly smaller. */
  lemma SubtreeStep(d: Links, n: VersionName)
    requires Grounded(d) && n in d
    ensures n in Subtree(d, n)
    ensures forall c :: c in Kids(d, n) ==> c in d && Subtree(d, c) < Subtree(d, n) && n !in Subtree(d, c)
  {
    FrontIsFront(d, n);
    forall c | c in Kids(d, n) ensures Subtree(d, c) < Subtree(d, n) && n !in Subtree(d, c) {
      SubtreeOfChild(d, n, c);
    }
  }

  lemma SubtreeOfChild(d: Links, n: VersionName, c: VersionName)
    requires Grounded(d) && n in d && c in Kids(d, n)
    ensures Subtree(d, c) < Subtree(d, n) && n !in Subtree(d, c)
  {
    forall m | m in Subtree(d, c) ensures m in Subtree(d, n) {
      var s := Branch(d, m);
      var i :| 0 <= i < |s| && s[i] == c;
      BranchSuffix(d, s, i);
      BranchStep(d, c);
      assert s[i..][1] == n;
    }
    if n in Subtree(d, c) {
      NotOwnAncestor(d, n, c);
    }
    FrontIsFront(d, n);
    assert n in Subtree(d, n);
  }

  lemma NotOwnAncestor(d: Links, n: VersionName, c: VersionName)
    requires n in d && HasBranch(d, n) && c in Branch(d, n)
    ensures c !in Kids(d, n)
  {
    if c in Kids(d, n) {
      var s := Branch(d, n);
      var i :| 0 <= i < |s| && s[i] == c;
      BranchSuffix(d, s, i);
      BranchStep(d, c);
      assert false;
    }
  }

  // ---------------------------------------------------------------- adding a version

  /** Branches whose front is not waiting for the new version are unchanged ... */
  lemma {:induction false} BranchKept(d: Links, old_: VersionName, new_: VersionName, s: seq<VersionName>)
    requires IsBranch(d, s) && new_ !in d && AwaitedBy(d, s) != new_
    ensures IsBranch(d[new_ := old_], s)
    decreases |s|
  {
    if |s| > 1 {
      BranchKept(d, old_, new_, s[1..]);
    }
  }

  /** ... and the others go on with the branch of the new version. */
  lemma {:induction false} BranchJoined(d: Links, old_: VersionName, new_: VersionName, s: seq<VersionName>,
                                        t: seq<VersionName>)
    requires IsBranch(d, s) && new_ !in d && AwaitedBy(d, s) == new_
    requires IsBranch(d[new_ := old_], t) && t[0] == new_
    ensures IsBranch(d[new_ := old_], s + t)
    decreases |s|
  {
    if |s| > 1 {
      BranchJoined(d, old_, new_, s[1..], t);
      assert (s + t)[1..] == s[1..] + t;
    } else {
      assert (s + t)[1..] == t;
    }
  }

  ghost predicate ClosesCycle(d: Links, old_: VersionName, new_: VersionName)
    requires Grounded(d)
  {
    old_ == new_ || (old_ in d && d[Front(d, old_)] == new_)
  }

  lemma NewBranch(d: Links, old_: VersionName, new_: VersionName)
    requires Grounded(d) && new_ !in d && !ClosesCycle(d, old_, new_)
    ensures IsBranch(d[new_ := old_], [new_] + if old_ in d then Branch(d, old_) else [])
  {
    if old_ in d {
      var s := Branch(d, old_);
      BranchKept(d, old_, new_, s);
      assert ([new_] + s)[1..] == s;
    } else {
      assert IsBranch(d[new_ := old_], [new_]);
    }
  }

  /** The branch of any earlier version after new_ was declared under old_. */
  lemma BranchAfterAdd(d: Links, old_: VersionName, new_: VersionName, n: VersionName)
    requires Grounded(d) && new_ !in d && !ClosesCycle(d, old_, new_) && n in d
    ensures HasBranch(d[new_ := old_], new_)
    ensures HasBranch(d[new_ := old_], n)
    ensures d[Front(d, n)] != new_ ==> Branch(d[new_ := old_], n) == Branch(d, n)
    ensures d[Front(d, n)] == new_ ==> Branch(d[new_ := old_], n) == Branch(d, n) + Branch(d[new_ := old_], new_)
  {
    var d' := d[new_ := old_];
    NewBranch(d, old_, new_);
    var t := [new_] + if old_ in d then Branch(d, old_) else [];
    BranchIs(d', t);
    var s := Branch(d, n);
    if d[Front(d, n)] != new_ {
      BranchKept(d, old_, new_, s);
      BranchIs(d', s);
    } else {
      BranchJoined(d, old_, new_, s, t);
      BranchIs(d', s + t);
    }
  }

  lemma GroundedAfterAdd(d: Links, old_: VersionName, new_: VersionName)
    requires Grounded(d) && new_ !in d
    ensures Grounded(d[new_ := old_]) <==> !ClosesCycle(d, old_, new_)
  {
    var d' := d[new_ := old_];
    if !ClosesCycle(d, old_, new_) {
      forall n | n in d' ensures HasBranch(d', n) {
        if n in d {
          BranchAfterAdd(d, old_, new_, n);
        } else {
          NewBranch(d, old_, new_);
          BranchIs(d', [new_] + if old_ in d then Branch(d, old_) else []);
        }
      }
    } else if Grounded(d') {
      CycleNotGrounded(d, old_, new_);
    }
  }

  lemma CycleNotGrounded(d: Links, old_: VersionName, new_: VersionName)
    requires Grounded(d) && new_ !in d && ClosesCycle(d, old_, new_)
    ensures !HasBranch(d[new_ := old_], new_)
  {
    var d' := d[new_ := old_];
    if HasBranch(d', new_) {
      var t := Branch(d', new_);
      if old_ == new_ {
        BranchStep(d', new_);
      } else {
        var s := Branch(d, old_);
        BranchJoined(d, old_, new_, s, t);
        var u := [new_] + (s + t);
        assert u[1..] == s + t;
        assert IsBranch(d', u);
        BranchUnique(d', t, u);
      }
      assert false;
    }
  }

  /** The walk up from the parent of a new version ends if and only if the front it comes to does not wait for that version. */
  lemma UpwardWalkEndsIff(d: Links, old_: VersionName, new_: VersionName)
    requires Grounded(d) && new_ !in d && old_ in d
    ensures HasBranch(d[new_ := old_], old_) <==> d[Front(d, old_)] != new_
  {
    if d[Front(d, old_)] != new_ {
      BranchAfterAdd(d, old_, new_, old_);
    } else if HasBranch(d[new_ := old_], old_) {
      BranchStep(d[new_ := old_], new_);
      CycleNotGrounded(d, old_, new_);
    }
  }

  // ---------------------------------------------------------------- removing a version

  /** Removing a front only takes the last element off the branches that end in it. */
  lemma {:induction false} BranchWithoutFront(d: Links, r: VersionName, s: seq<VersionName>)
    requires IsFront(d, r) && IsBranch(d, s) && s[0] != r
    ensures IsBranch(d - {r}, if s[|s| - 1] == r then s[..|s| - 1] else s)
    decreases |s|
  {
    if |s| > 1 {
      var t := s[1..];
      if t[0] == r {
        if |t| > 1 {
          BranchElements(d, t);
          assert false;
        }
        assert s[..|s| - 1] == [s[0]];
      } else {
        BranchWithoutFront(d, r, t);
        if s[|s| - 1] == r {
          assert s[..|s| - 1][1..] == t[..|t| - 1];
        }
      }
    }
  }

  lemma {:induction false} BranchWithFront(d: Links, r: VersionName, s: seq<VersionName>)
    requires IsFront(d, r) && IsBranch(d - {r}, s)
    ensures HasBranch(d, s[0])
    decreases |s|
  {
    if |s| > 1 {
      BranchWithFront(d, r, s[1..]);
      BranchStep(d, s[0]);
    } else if d[s[0]] == r {
      assert [s[0], r][1..] == [r];
      assert IsBranch(d, [s[0], r]);
    } else {
      assert IsBranch(d, s);
    }
  }

  lemma BranchAfterFrontRemoved(d: Links, r: VersionName, n: VersionName)
    requires Grounded(d) && IsFront(d, r) && n in d && n != r
    ensures HasBranch(d - {r}, n)
    ensures Branch(d - {r}, n) == var s := Branch(d, n); if Front(d, n) == r then s[..|s| - 1] else s
  {
    var s := Branch(d, n);
    BranchWithoutFront(d, r, s);
    BranchIs(d - {r}, if s[|s| - 1] == r then s[..|s| - 1] else s);
  }

  lemma GroundedWithoutFront(d: Links, r: VersionName)
    requires Grounded(d) && IsFront(d, r)
    ensures Grounded(d - {r})
  {
    forall n | n in d - {r} ensures HasBranch(d - {r}, n) {
      BranchAfterFrontRemoved(d, r, n);
    }
  }

  lemma {:induction false} BranchWithoutLeaf(d: Links, l: VersionName, s: seq<VersionName>)
    requires l in d && Kids(d, l) == {} && IsBranch(d, s) && s[0] != l
    ensures IsBranch(d - {l}, s)
    decreases |s|
  {
    if |s| > 1 {
      assert s[0] in d && s[0] !in Kids(d, l);
      BranchWithoutLeaf(d, l, s[1..]);
    } else {
      assert s[0] in d - {l};
    }
  }

  lemma BranchAfterLeafRemoved(d: Links, l: VersionName, n: VersionName)
    requires Grounded(d) && l in d && Kids(d, l) == {} && n in d && n != l
    ensures HasBranch(d - {l}, n) && Branch(d - {l}, n) == Branch(d, n)
  {
    BranchWithoutLeaf(d, l, Branch(d, n));
    BranchIs(d - {l}, Branch(d, n));
  }

  lemma GroundedWithoutLeaf(d: Links, l: VersionName)
    requires Grounded(d) && l in d && Kids(d, l) == {}
    ensures Grounded(d - {l})
  {
    forall n | n in d - {l} ensures HasBranch(d - {l}, n) {
      BranchAfterLeafRemoved(d, l, n);
    }
  }

  // ---------------------------------------------------------------- children and tips

  lemma KidsAfterAdd(d: Links, old_: VersionName, new_: VersionName, p: VersionName)
    requires new_ !in d
    ensures Kids(d[new_ := old_], p) == if p == old_ then Kids(d, p) + {new_} else Kids(d, p)
  {
  }

  lemma KidsAfterRemove(d: Links, r: VersionName, p: VersionName)
    requires r in d
    ensures Kids(d - {r}, p) == if p == d[r] then Kids(d, p) - {r} else Kids(d, p)
  {
  }

  lemma TipsAfterAdd(d: Links, old_: VersionName, new_: VersionName)
    requires new_ !in d && old_ != new_
    ensures Tips(d[new_ := old_]) == Tips(d) - {old_} + if Kids(d, new_) == {} then {new_} else {}
  {
    var d' := d[new_ := old_];
    forall n ensures n in Tips(d') <==> n in Tips(d) - {old_} + if Kids(d, new_) == {} then {new_} else {} {
      KidsAfterAdd(d, old_, new_, n);
    }
  }

  lemma TipsAfterFrontRemoved(d: Links, r: VersionName)
    requires IsFront(d, r)
    ensures Tips(d - {r}) == Tips(d) - {r}
  {
    forall n ensures n in Tips(d - {r}) <==> n in Tips(d) - {r} {
      KidsAfterRemove(d, r, n);
    }
  }

  /** Every non-empty grounded map has a tip below each of its versions. */
  lemma {:induction false} TipBelow(d: Links, n: VersionName) returns (t: VersionName)
    requires Grounded(d) && n in d
    ensures t in Tips(d) && t in Subtree(d, n)
    decreases Subtree(d, n)
  {
    SubtreeStep(d, n);
    if Kids(d, n) == {} {
      t := n;
    } else {
      var c :| c in Kids(d, n);
      t := TipBelow(d, c);
    }
  }

  // ---------------------------------------------------------------- the downward walk

  /** v is the lowest-named child of some version in the subtree of n. */
  ghost predicate LowestBelow(d: Links, n: VersionName, v: VersionName) {
    exists m :: m in Subtree(d, n) && HasLowest(d, m, v)
  }

  ghost predicate HasLowest(d: Links, m: VersionName, v: VersionName) {
    Kids(d, m) != {} && Least(Kids(d, m)) == v
  }

  lemma SubtreeIsOwnAndKids(d: Links, n: VersionName, m: VersionName)
    requires Grounded(d) && n in d
    ensures m in Subtree(d, n) <==> m == n || exists c :: c in Kids(d, n) && m in Subtree(d, c)
  {
    SubtreeStep(d, n);
    if m in Subtree(d, n) && m != n {
      var s := Branch(d, m);
      var i :| 0 <= i < |s| && s[i] == n;
      BranchElements(d, s);
      assert s[i - 1] in Kids(d, n);
      assert m in Subtree(d, s[i - 1]);
    }
  }

  lemma LowestBelowStep(d: Links, n: VersionName, v: VersionName)
    requires Grounded(d) && n in d
    ensures LowestBelow(d, n, v) <==> HasLowest(d, n, v) || exists c :: c in Kids(d, n) && LowestBelow(d, c, v)
  {
    if LowestBelow(d, n, v) {
      var m :| m in Subtree(d, n) && HasLowest(d, m, v);
      SubtreeIsOwnAndKids(d, n, m);
      if m != n {
        var c :| c in Kids(d, n) && m in Subtree(d, c);
        assert LowestBelow(d, c, v);
      }
    }
    SubtreeStep(d, n);
    if HasLowest(d, n, v) {
      assert LowestBelow(d, n, v);
    }
    if c :| c in Kids(d, n) && LowestBelow(d, c, v) {
      var m :| m in Subtree(d, c) && HasLowest(d, m, v);
      assert m in Subtree(d, n);
    }
  }

  /** Below a front, only the lowest child of its own parent is found, and only in its own branch. */
  lemma LowestBelowFront(d: Links, a: VersionName, v: VersionName)
    requires Grounded(d) && IsFront(d, a) && v in d
    ensures LowestBelow(d, a, v) <==> Front(d, v) == a && d[v] in d && HasLowest(d, d[v], v)
  {
    BranchStep(d, v);
    if LowestBelow(d, a, v) {
      var m :| m in Subtree(d, a) && HasLowest(d, m, v);
      assert v in Kids(d, m);
      FrontOfSubtree(d, a, m);
    }
    if Front(d, v) == a && d[v] in d && HasLowest(d, d[v], v) {
      var s := Branch(d, d[v]);
      assert s[|s| - 1] == a;
      assert d[v] in Subtree(d, a);
    }
  }

  lemma FrontOfSubtree(d: Links, a: VersionName, m: VersionName)
    requires Grounded(d) && IsFront(d, a) && m in d
    ensures m in Subtree(d, a) <==> Front(d, m) == a
  {
    var s := Branch(d, m);
    BranchElements(d, s);
    if m in Subtree(d, a) {
      var i :| 0 <= i < |s| && s[i] == a;
      BranchSuffix(d, s, i);
      BranchStep(d, a);
    }
  }
}
