/**
 Reading what was written gives the forest back.
 */
module RoundTrip {
  import opened Options
  import opened VersionNames
  import opened ParentMaps
  import opened Forests
  import opened Stores
  import opened Serialisation

  /** Everything in the trees under the given versions. */
  ghost function Below(d: Links, tops: set<VersionName>): set<VersionName> {
    set m | m in d && exists c :: c in tops && m in Subtree(d, c)
  }

  /** A version which has a parent, as it is linked. */
  ghost function Placed(d: Links, m: VersionName): Details {
    Details(if m in d then Some(d[m]) else None, Kids(d, m))
  }

  /** The links once the versions `below` have been read, among them the children `done` of n. */
  ghost function Filling(v: Versions, d: Links, n: VersionName, below: set<VersionName>,
                         done: set<VersionName>): (w: Versions)
    ensures w.Keys == v.Keys + below
  {
    map m | m in v.Keys + below ::
      if m in below then Placed(d, m) else if m == n then v[m].(children := done) else v[m]
  }

  ghost function Filled(s: Store, d: Links, n: VersionName, below: set<VersionName>, done: set<VersionName>): Store {
    s.(versions := Filling(s.versions, d, n, below, done), tips := s.tips + Tips(d) * below)
  }

  /** s once the trees of the children `done` of n have been read. */
  ghost function WithKids(s: Store, d: Links, n: VersionName, done: set<VersionName>): Store {
    Filled(s, d, n, Below(d, done), done)
  }

  /** s, in which n has been read, once the rest of its tree has been read. */
  ghost function WithTree(s: Store, d: Links, n: VersionName): Store {
    if Kids(d, n) == {} then s.(tips := s.tips + {n}) else WithKids(s, d, n, Kids(d, n))
  }

  lemma BelowAdd(d: Links, done: set<VersionName>, c: VersionName)
    ensures Below(d, done + {c}) == Below(d, done) + Subtree(d, c)
  {
  }

  /** The trees of two children of a version have nothing in common. */
  lemma SiblingsDisjoint(d: Links, n: VersionName, b: VersionName, c: VersionName)
    requires Grounded(d) && n in d && b in Kids(d, n) && c in Kids(d, n) && b != c
    ensures Subtree(d, b) !! Subtree(d, c)
  {
    if m :| m in Subtree(d, b) && m in Subtree(d, c) {
      var s := Branch(d, m);
      var i :| 0 <= i < |s| && s[i] == b;
      var j :| 0 <= j < |s| && s[j] == c;
      BranchSuffix(d, s, i);
      BranchSuffix(d, s, j);
      BranchStep(d, b);
      BranchStep(d, c);
      assert false;
    }
  }

  lemma ChildApart(d: Links, n: VersionName, done: set<VersionName>, c: VersionName)
    requires Grounded(d) && n in d && done <= Kids(d, n) && c in Kids(d, n) - done
    ensures Below(d, done) !! Subtree(d, c) && Below(d, done) <= Subtree(d, n)
    ensures n !in Below(d, done) && n !in Subtree(d, c)
    ensures c in d && c in Subtree(d, c) && Subtree(d, c) <= Subtree(d, n)
  {
    SubtreeStep(d, n);
    SubtreeStep(d, c);
    forall b | b in done ensures Subtree(d, b) !! Subtree(d, c) && n !in Subtree(d, b) {
      SiblingsDisjoint(d, n, b, c);
    }
  }

  /** Filling in one more child c of n and what is below it, on sets alone. */
  lemma FillingStep(v: Versions, d: Links, n: VersionName, below: set<VersionName>, done: set<VersionName>,
                    c: VersionName, more: set<VersionName>)
    requires n in v && c !in v && c in d && d[c] == n && n != c
    requires n !in below && n !in more && c !in below && c !in more && below !! more
    ensures var w := Filling(v, d, n, below, done)[n := v[n].(children := done + {c})][c := Details(Some(n), {})];
            Filling(w, d, c, more, Kids(d, c)) == Filling(v, d, n, below + {c} + more, done + {c})
  {
    var w := Filling(v, d, n, below, done)[n := v[n].(children := done + {c})][c := Details(Some(n), {})];
    var t, u := Filling(w, d, c, more, Kids(d, c)), Filling(v, d, n, below + {c} + more, done + {c});
    assert t.Keys == u.Keys;
    forall m | m in u ensures t[m] == u[m] {
      if m in more {
      } else if m == c {
      } else if m == n {
      } else {
        assert t[m] == w[m] == Filling(v, d, n, below, done)[m];
      }
    }
  }

  /** One more child c has just been read under n. */
  lemma FilledChild(s: Store, d: Links, n: VersionName, below: set<VersionName>, done: set<VersionName>, c: VersionName)
    requires n in s.versions && c !in s.versions && n != c && n !in below && c !in below
    ensures var s1 := Filled(s, d, n, below, done);
            && n in s1.versions && c !in s1.versions
            && ChildRead(s1, n, c) == s1.(versions := s1.versions[n := s.versions[n].(children := done + {c})][c := Details(Some(n), {})])
  {
  }

  lemma TipsStep(d: Links, c: VersionName, tips: set<VersionName>, below: set<VersionName>, more: set<VersionName>)
    requires c in d && (Kids(d, c) == {} ==> more == {})
    ensures tips + Tips(d) * below + (if Kids(d, c) == {} then {c} else Tips(d) * more)
            == tips + Tips(d) * (below + {c} + more)
  {
  }

  lemma OnlyTop(read: set<VersionName>, tree: set<VersionName>, below: set<VersionName>, sub: set<VersionName>,
                n: VersionName, c: VersionName)
    requires read * tree == {n} && sub <= tree && n !in sub && below !! sub && c in sub
    ensures (read + below + {c}) * sub == {c}
  {
    assert forall m :: m in sub && m in read ==> m in read * tree;
  }

  /** Reading one more child leaves it there without children ... */
  lemma ChildIsRead(s: Store, d: Links, n: VersionName, done: set<VersionName>, c: VersionName)
    requires Grounded(d) && n in d && n in s.versions && s.versions.Keys * Subtree(d, n) == {n}
    requires done <= Kids(d, n) && c in Kids(d, n) - done
    ensures var s1 := WithKids(s, d, n, done);
            && n in s1.versions && c !in s1.versions
            && ChildRead(s1, n, c).versions[c] == Details(Some(n), {})
            && ChildRead(s1, n, c).versions.Keys * Subtree(d, c) == {c}
  {
    ChildApart(d, n, done, c);
    assert c !in s.versions.Keys * Subtree(d, n);
    FilledChild(s, d, n, Below(d, done), done, c);
    OnlyTop(s.versions.Keys, Subtree(d, n), Below(d, done), Subtree(d, c), n, c);
    assert ChildRead(WithKids(s, d, n, done), n, c).versions.Keys == s.versions.Keys + Below(d, done) + {c};
  }

  /** ... and reading the rest of its tree completes it. */
  lemma OneMoreChild(s: Store, d: Links, n: VersionName, done: set<VersionName>, c: VersionName)
    requires Grounded(d) && n in d && n in s.versions && s.versions.Keys * Subtree(d, n) == {n}
    requires done <= Kids(d, n) && c in Kids(d, n) - done
    requires c !in WithKids(s, d, n, done).versions
    ensures WithTree(ChildRead(WithKids(s, d, n, done), n, c), d, c) == WithKids(s, d, n, done + {c})
  {
    hide Subtree;
    var below, more := Below(d, done), Below(d, Kids(d, c));
    ChildApart(d, n, done, c);
    SubtreeIsBelowKids(d, c);
    BelowAdd(d, done, c);
    assert Below(d, done + {c}) == below + {c} + more;
    assert c !in s.versions.Keys * Subtree(d, n);
    FilledChild(s, d, n, below, done, c);
    FillingStep(s.versions, d, n, below, done, c, more);
    var s2 := ChildRead(WithKids(s, d, n, done), n, c);
    if Kids(d, c) == {} {
      assert more == {};
      NothingFilled(s2, d, c);
    }
    TipsStep(d, c, s.tips, below, more);
  }

  lemma NothingFilled(s: Store, d: Links, n: VersionName)
    requires n in s.versions && s.versions[n].children == {}
    ensures Filled(s, d, n, {}, {}) == s
  {
    assert Filled(s, d, n, {}, {}).versions == s.versions;
    assert Tips(d) * {} == {};
  }

  lemma SubtreeIsBelowKids(d: Links, n: VersionName)
    requires Grounded(d) && n in d
    ensures Subtree(d, n) == {n} + Below(d, Kids(d, n))
    ensures n !in Below(d, Kids(d, n))
  {
    SubtreeStep(d, n);
    forall m ensures m in Subtree(d, n) <==> m in {n} + Below(d, Kids(d, n)) {
      SubtreeIsOwnAndKids(d, n, m);
    }
  }

  // ---------------------------------------------------------------- one tree

  predicate ReadsTo(r: Reading, s: Store, next: nat) {
    r.Read? && r.store == s && r.next == next
  }

  /** The runs at i.. start with e. */
  ghost predicate RunsAt(branches: seq<SerialBranch>, i: nat, e: seq<SerialBranch>) {
    i + |e| <= |branches| && forall k | 0 <= k < |e| :: branches[i + k] == e[k]
  }

  lemma RunsAtParts(branches: seq<SerialBranch>, i: nat, a: seq<SerialBranch>, b: seq<SerialBranch>)
    requires RunsAt(branches, i, a + b)
    ensures RunsAt(branches, i, a) && RunsAt(branches, i + |a|, b)
    ensures a != [] ==> branches[i] == a[0] && RunsAt(branches, i + 1, a[1..])
  {
    var e := a + b;
    forall k | 0 <= k < |a| ensures branches[i + k] == a[k] {
      assert e[k] == a[k];
    }
    forall k | 0 <= k < |b| ensures branches[i + |a| + k] == b[k] {
      assert e[|a| + k] == b[k];
    }
  }

  lemma {:induction false} NextName(s: Store, previous: SerialName, names: seq<SerialName>,
                                    branches: seq<SerialBranch>, i: nat)
    requires NoEmptyRun(branches) && previous.name in s.versions && names != [] && names[0].name !in s.versions
    ensures ParseNames(s, previous, names, branches, i)
            == ParseNames(ChildRead(s, previous.name, names[0].name), names[0], names[1..], branches, i)
  {
  }

  lemma {:induction false} ForkIsNext(s: Store, n: VersionName, count: nat, branches: seq<SerialBranch>, i: nat)
    requires NoEmptyRun(branches) && n in s.versions && count >= 2
    ensures ParseNames(s, SerialName(n, Some(count)), [], branches, i) == ParseForks(s, n, count, branches, i)
  {
  }

  lemma {:induction false} NextRun(s: Store, n: VersionName, branches: seq<SerialBranch>, i: nat)
    requires NoEmptyRun(branches) && n in s.versions && i < |branches|
    requires branches[i].names != [] && branches[i].names[0].name !in s.versions
    ensures var names := branches[i].names;
            ParseBranch(s, Some(n), branches, i)
            == ParseNames(ChildRead(s, n, names[0].name), names[0], names[1..], branches, i + 1)
  {
  }

  lemma {:induction false} NoForks(s: Store, d: Links, n: VersionName, done: set<VersionName>,
                                   branches: seq<SerialBranch>, i: nat)
    requires NoEmptyRun(branches) && n in s.versions && Grounded(d) && n in d && Kids(d, n) == done
    ensures n in WithKids(s, d, n, done).versions
    ensures ReadsTo(ParseForks(WithKids(s, d, n, done), n, 0, branches, i), WithKids(s, d, n, Kids(d, n)), i)
    ensures EncodeKids(d, n, []) == []
  {
  }

  lemma TopStays(s: Store, d: Links, n: VersionName, done: set<VersionName>)
    requires n in s.versions
    ensures n in WithKids(s, d, n, done).versions
  {
  }

  lemma NextFork(s: Store, s': Store, n: VersionName, count: nat, branches: seq<SerialBranch>, i: nat, j: nat)
    requires NoEmptyRun(branches) && n in s.versions && n in s'.versions && count > 0
    requires ReadsTo(ParseBranch(s, Some(n), branches, i), s', j)
    ensures ParseForks(s, n, count, branches, i) == ParseForks(s', n, count - 1, branches, j)
  {
  }

  lemma {:induction false} TipReadBack(s: Store, d: Links, n: VersionName, branches: seq<SerialBranch>, i: nat)
    requires Grounded(d) && n in d && Kids(d, n) == {} && NoEmptyRun(branches) && n in s.versions
    ensures Encode(d, n) == [SerialBranch(None, [SerialName(n, None)])]
    ensures ReadsTo(ParseNames(s, Encode(d, n)[0].names[0], Encode(d, n)[0].names[1..], branches, i), WithTree(s, d, n), i)
  {
    var e := Encode(d, n)[0].names;
    assert e == [SerialName(n, None)];
    assert e[1..] == [];
  }

  lemma {:induction false} EncodeSingle(d: Links, n: VersionName)
    requires Grounded(d) && n in d && |Kids(d, n)| == 1
    ensures var c := Least(Kids(d, n));
            && c in d
            && Encode(d, n)[0].names == [SerialName(n, None)] + Encode(d, c)[0].names
            && Encode(d, n)[1..] == Encode(d, c)[1..] && |Encode(d, n)| == |Encode(d, c)|
  {
    SubtreeStep(d, n);
  }

  lemma {:induction false} EncodeFork(d: Links, n: VersionName)
    requires Grounded(d) && n in d && |Kids(d, n)| >= 2
    ensures Encode(d, n)[0].names == [SerialName(n, Some(|Kids(d, n)|))]
    ensures Encode(d, n)[1..] == EncodeKids(d, n, Ascending(Kids(d, n)))
    ensures |Encode(d, n)| == 1 + |EncodeKids(d, n, Ascending(Kids(d, n)))|
  {
    SubtreeStep(d, n);
  }

  /** From its first name on, what was written for the tree of n is read back. */
  lemma {:induction false} NamesReadBack(s: Store, d: Links, n: VersionName, branches: seq<SerialBranch>, i: nat,
      r: Reading)
    requires Grounded(d) && n in d && NoEmptyRun(branches)
    requires n in s.versions && s.versions[n].children == {} && s.versions.Keys * Subtree(d, n) == {n}
    requires RunsAt(branches, i, Encode(d, n)[1..])
    requires r == ParseNames(s, Encode(d, n)[0].names[0], Encode(d, n)[0].names[1..], branches, i)
    ensures ReadsTo(r, WithTree(s, d, n), i + |Encode(d, n)| - 1)
    decreases Subtree(d, n), 1, 1
  {
    hide Encode, EncodeKids, ParseForks, ParseBranch, ParseNames, WithKids, WithTree;
    if Kids(d, n) == {} {
      TipReadBack(s, d, n, branches, i);
    } else if |Kids(d, n)| == 1 {
      SingleReadBack(s, d, n, branches, i, r);
    } else {
      OneIsSingle(Kids(d, n));
      ForkTreeReadBack(s, d, n, branches, i, r);
    }
  }

  lemma OneIsSingle(s: set<VersionName>)
    ensures s != {} && |s| != 1 ==> |s| >= 2
  {
  }

  lemma {:induction false} ForkTreeReadBack(s: Store, d: Links, n: VersionName, branches: seq<SerialBranch>,
      i: nat, r: Reading)
    requires Grounded(d) && n in d && NoEmptyRun(branches) && |Kids(d, n)| >= 2
    requires n in s.versions && s.versions[n].children == {} && s.versions.Keys * Subtree(d, n) == {n}
    requires RunsAt(branches, i, Encode(d, n)[1..])
    requires r == ParseNames(s, Encode(d, n)[0].names[0], Encode(d, n)[0].names[1..], branches, i)
    ensures ReadsTo(r, WithTree(s, d, n), i + |Encode(d, n)| - 1)
    decreases Subtree(d, n), 1, 0
  {
    hide Encode, EncodeKids, ParseForks, ParseBranch, ParseNames, WithKids, WithTree, Ascending, Splits, RunsAt;
    SplitStart(Kids(d, n));
    ForkStart(s, d, n, branches, i);
    ForksReadBack(s, d, n, {}, Ascending(Kids(d, n)), branches, i, r);
  }

  lemma {:induction false} SingleReadBack(s: Store, d: Links, n: VersionName, branches: seq<SerialBranch>, i: nat,
      r: Reading)
    requires Grounded(d) && n in d && NoEmptyRun(branches) && |Kids(d, n)| == 1
    requires n in s.versions && s.versions[n].children == {} && s.versions.Keys * Subtree(d, n) == {n}
    requires RunsAt(branches, i, Encode(d, n)[1..])
    requires r == ParseNames(s, Encode(d, n)[0].names[0], Encode(d, n)[0].names[1..], branches, i)
    ensures ReadsTo(r, WithTree(s, d, n), i + |Encode(d, n)| - 1)
    decreases Subtree(d, n), 1, 0
  {
    hide Encode, EncodeKids, ParseForks, ParseBranch, ParseNames, WithKids, WithTree;
    var c := Least(Kids(d, n));
    SubtreeOfChild(d, n, c);
    EncodeSingle(d, n);
    OnlyElement(Kids(d, n), c);
    ChildAfterNone(s, d, n, c);
    var names := Encode(d, c)[0].names;
    assert Encode(d, n)[0].names[1..] == names;
    NextName(s, SerialName(n, None), names, branches, i);
    NamesReadBack(ChildRead(s, n, c), d, c, branches, i, r);
  }

  lemma {:induction false} ForkStart(s: Store, d: Links, n: VersionName, branches: seq<SerialBranch>, i: nat)
    requires Grounded(d) && n in d && NoEmptyRun(branches) && |Kids(d, n)| >= 2
    requires n in s.versions && s.versions[n].children == {}
    ensures WithKids(s, d, n, {}) == s && WithTree(s, d, n) == WithKids(s, d, n, Kids(d, n))
    ensures Encode(d, n)[1..] == EncodeKids(d, n, Ascending(Kids(d, n)))
    ensures |Encode(d, n)| == 1 + |EncodeKids(d, n, Ascending(Kids(d, n)))|
    ensures ParseNames(s, Encode(d, n)[0].names[0], Encode(d, n)[0].names[1..], branches, i)
            == ParseForks(WithKids(s, d, n, {}), n, |Ascending(Kids(d, n))|, branches, i)
  {
    EncodeFork(d, n);
    NoneFilled(s, d, n);
    assert Encode(d, n)[0].names[1..] == [];
    ForkIsNext(s, n, |Kids(d, n)|, branches, i);
  }

  lemma NoneFilled(s: Store, d: Links, n: VersionName)
    requires n in s.versions && s.versions[n].children == {}
    ensures WithKids(s, d, n, {}) == s
  {
    NothingFilled(s, d, n);
    assert Below(d, {}) == {};
  }

  lemma OnlyElement(s: set<VersionName>, c: VersionName)
    requires |s| == 1 && c in s
    ensures s == {c}
  {
    assert |s - {c}| == 0;
  }

  lemma ChildAfterNone(s: Store, d: Links, n: VersionName, c: VersionName)
    requires Grounded(d) && n in d && n in s.versions && s.versions[n].children == {}
    requires s.versions.Keys * Subtree(d, n) == {n} && Kids(d, n) == {c}
    ensures c !in s.versions
    ensures ChildRead(s, n, c).versions[c] == Details(Some(n), {})
    ensures ChildRead(s, n, c).versions.Keys * Subtree(d, c) == {c}
    ensures WithTree(ChildRead(s, n, c), d, c) == WithTree(s, d, n)
  {
    assert Below(d, {}) == {};
    NothingFilled(s, d, n);
    ChildIsRead(s, d, n, {}, c);
    OneMoreChild(s, d, n, {}, c);
    assert {} + {c} == Kids(d, n);
  }

  /** The set consists of `done` and, each once, of the elements of `rest`. */
  ghost predicate Splits(all: set<VersionName>, done: set<VersionName>, rest: seq<VersionName>)
    decreases |rest|
  {
    if rest == [] then all == done
    else rest[0] in all - done && Splits(all, done + {rest[0]}, rest[1..])
  }

  lemma {:induction false} SplitStep(all: set<VersionName>, done: set<VersionName>, rest: seq<VersionName>)
    requires Splits(all, done, rest)
    ensures done <= all && (forall c | c in rest :: c in all - done)
    decreases |rest|
  {
    if rest != [] {
      SplitStep(all, done + {rest[0]}, rest[1..]);
      assert rest == [rest[0]] + rest[1..];
    }
  }

  lemma {:induction false} SplitAscending(all: set<VersionName>, done: set<VersionName>, rest: seq<VersionName>)
    requires forall c :: c in all <==> c in done || c in rest
    requires forall j, k :: 0 <= j < k < |rest| ==> Less(rest[j], rest[k])
    requires forall c | c in rest :: c !in done
    ensures Splits(all, done, rest)
    decreases |rest|
  {
    if rest != [] {
      var more := rest[1..];
      forall c | c in more ensures c != rest[0] {
        var k :| 0 <= k < |more| && more[k] == c;
        assert Less(rest[0], rest[k + 1]);
      }
      assert rest == [rest[0]] + more;
      SplitAscending(all, done + {rest[0]}, more);
    }
  }

  lemma {:induction false} SplitStart(all: set<VersionName>)
    ensures Splits(all, {}, Ascending(all))
  {
    SplitAscending(all, {}, Ascending(all));
  }

  /** The runs continuing a fork are read back, after those of the children `done`. */
  lemma {:induction false} ForksReadBack(s: Store, d: Links, n: VersionName, done: set<VersionName>,
      rest: seq<VersionName>,
                                         branches: seq<SerialBranch>, i: nat, r: Reading)
    requires Grounded(d) && n in d && NoEmptyRun(branches)
    requires n in s.versions && s.versions[n].children == {} && s.versions.Keys * Subtree(d, n) == {n}
    requires Splits(Kids(d, n), done, rest) && forall c | c in rest :: c in Kids(d, n)
    requires RunsAt(branches, i, EncodeKids(d, n, rest))
    requires r == ParseForks(WithKids(s, d, n, done), n, |rest|, branches, i)
    ensures ReadsTo(r, WithKids(s, d, n, Kids(d, n)), i + |EncodeKids(d, n, rest)|)
    decreases Subtree(d, n), 0, |rest| + 2
  {
    hide Encode, EncodeKids, ParseForks, ParseBranch, ParseNames, WithKids;
    if rest == [] {
      NoForks(s, d, n, done, branches, i);
    } else {
      ForkReadBack(s, d, n, done, rest, branches, i);
      ForksReadBack(s, d, n, done + {rest[0]}, rest[1..], branches, i + |Encode(d, rest[0])|, r);
    }
  }

  lemma {:induction false} ForkReadBack(s: Store, d: Links, n: VersionName, done: set<VersionName>,
                                        rest: seq<VersionName>,
                                        branches: seq<SerialBranch>, i: nat)
    requires Grounded(d) && n in d && NoEmptyRun(branches)
    requires n in s.versions && s.versions[n].children == {} && s.versions.Keys * Subtree(d, n) == {n}
    requires rest != [] && Splits(Kids(d, n), done, rest) && forall c | c in rest :: c in Kids(d, n)
    requires RunsAt(branches, i, EncodeKids(d, n, rest))
    ensures rest[0] in d
    ensures RunsAt(branches, i + |Encode(d, rest[0])|, EncodeKids(d, n, rest[1..]))
    ensures |EncodeKids(d, n, rest)| == |Encode(d, rest[0])| + |EncodeKids(d, n, rest[1..])|
    ensures ParseForks(WithKids(s, d, n, done), n, |rest|, branches, i)
            == ParseForks(WithKids(s, d, n, done + {rest[0]}), n, |rest| - 1, branches, i + |Encode(d, rest[0])|)
    decreases Subtree(d, n), 0, 1
  {
    hide Encode, EncodeKids, ParseForks, ParseBranch, ParseNames, WithKids;
    var c := rest[0];
    var s1, s2 := WithKids(s, d, n, done), WithKids(s, d, n, done + {c});
    TopStays(s, d, n, done + {c});
    SplitStep(Kids(d, n), done, rest);
    ChildIsRead(s, d, n, done, c);
    OneMoreChild(s, d, n, done, c);
    EncodeKidsStep(d, n, rest);
    RunsAtParts(branches, i, Encode(d, c), EncodeKids(d, n, rest[1..]));
    BranchReadBack(s1, d, n, c, branches, i, ParseBranch(s1, Some(n), branches, i));
    NextFork(s1, s2, n, |rest|, branches, i, i + |Encode(d, c)|);
  }

  lemma {:induction false} EncodeKidsStep(d: Links, n: VersionName, rest: seq<VersionName>)
    requires Grounded(d) && n in d && rest != [] && rest[0] in d && forall c | c in rest :: c in Kids(d, n)
    ensures EncodeKids(d, n, rest) == Encode(d, rest[0]) + EncodeKids(d, n, rest[1..])
  {
  }

  /** One run continuing a fork, and what continues it. */
  lemma {:induction false} BranchReadBack(s: Store, d: Links, n: VersionName, c: VersionName,
      branches: seq<SerialBranch>, i: nat, r: Reading)
    requires Grounded(d) && n in d && c in Kids(d, n) && NoEmptyRun(branches)
    requires n in s.versions && c !in s.versions
    requires ChildRead(s, n, c).versions[c] == Details(Some(n), {})
    requires ChildRead(s, n, c).versions.Keys * Subtree(d, c) == {c}
    requires RunsAt(branches, i, Encode(d, c))
    requires r == ParseBranch(s, Some(n), branches, i)
    ensures ReadsTo(r, WithTree(ChildRead(s, n, c), d, c), i + |Encode(d, c)|)
    decreases Subtree(d, n), 0, 0
  {
    hide Encode, EncodeKids, ParseForks, ParseBranch, ParseNames, WithKids, WithTree;
    SubtreeOfChild(d, n, c);
    assert Encode(d, c) + [] == Encode(d, c);
    RunsAtParts(branches, i, Encode(d, c), []);
    NextRun(s, n, branches, i);
    NamesReadBack(ChildRead(s, n, c), d, c, branches, i + 1, r);
  }

  // ---------------------------------------------------------------- all trees

  function AbsentRead(d: Links, n: VersionName): VersionName
    requires n in d
  {
    if d[n].IsInitialised() then d[n] else DEFAULT_NAME
  }

  /** The store once the trees of the given fronts have been read. */
  ghost function FrontsRead(limits: Limits, d: Links, fronts: seq<VersionName>): (s: Store)
    requires forall k | 0 <= k < |fronts| :: fronts[k] in d
    ensures s.limits == limits && (s.root.None? <==> fronts == [])
    decreases |fronts|
  {
    if fronts == [] then EmptyStore(limits)
    else
      var last := |fronts| - 1;
      WithTree(FrontRead(FrontsRead(limits, d, fronts[..last]), fronts[last], AbsentRead(d, fronts[last])), d, fronts[last])
  }

  /** The fronts of a forest in the order they are written, each once. */
  ghost predicate FrontList(d: Links, fronts: seq<VersionName>) {
    && (forall k | 0 <= k < |fronts| :: IsFront(d, fronts[k]))
    && Distinct(fronts)
    && (forall k | 0 < k < |fronts| :: d[fronts[k]].IsInitialised())
  }

  ghost function SetOf(fronts: seq<VersionName>): set<VersionName> {
    set n | n in fronts
  }

  /** A version as it is linked, whether it has a parent or not. */
  ghost function Linked(d: Links, m: VersionName): Details {
    Details(if m in d && d[m] in d then Some(d[m]) else None, Kids(d, m))
  }

  lemma FrontsApart(d: Links, done: seq<VersionName>, n: VersionName)
    requires Grounded(d) && FrontList(d, done) && IsFront(d, n) && n !in done
    ensures Below(d, SetOf(done)) !! Subtree(d, n)
  {
    forall m | m in Below(d, SetOf(done)) ensures m !in Subtree(d, n) {
      var c :| c in SetOf(done) && m in Subtree(d, c);
      FrontOfSubtree(d, c, m);
      FrontOfSubtree(d, n, m);
    }
  }

  lemma BelowNext(d: Links, done: seq<VersionName>, n: VersionName)
    ensures SetOf(done + [n]) == SetOf(done) + {n}
    ensures Below(d, SetOf(done + [n])) == Below(d, SetOf(done)) + Subtree(d, n)
  {
    assert SetOf(done + [n]) == SetOf(done) + {n};
    BelowAdd(d, SetOf(done), n);
  }

  /** s holds the links and tips of the versions `below`. */
  ghost predicate LinksRead(s: Store, d: Links, below: set<VersionName>) {
    && s.versions.Keys == below
    && (forall m | m in s.versions :: s.versions[m] == Linked(d, m))
    && s.tips == Tips(d) * below
  }

  /** The links and tips after reading some fronts are those of the versions in their trees. */
  lemma {:induction false} FrontsReadLinks(limits: Limits, d: Links, fronts: seq<VersionName>)
    requires Grounded(d) && FrontList(d, fronts)
    ensures LinksRead(FrontsRead(limits, d, fronts), d, Below(d, SetOf(fronts)))
    decreases |fronts|
  {
    hide WithTree, LinksRead;
    if fronts == [] {
      NoLinksRead(limits, d);
    } else {
      var last := |fronts| - 1;
      var done, n := fronts[..last], fronts[last];
      assert fronts == done + [n];
      FrontListPrefix(d, done, [n]);
      FrontsReadLinks(limits, d, done);
      FrontsApart(d, done, n);
      BelowNext(d, done, n);
      FrontTreeRead(FrontsRead(limits, d, done), d, n, Below(d, SetOf(done)));
    }
  }

  lemma {:induction false} NoLinksRead(limits: Limits, d: Links)
    ensures LinksRead(FrontsRead(limits, d, []), d, Below(d, SetOf([])))
  {
    assert Below(d, SetOf([])) == {};
  }

  lemma FrontTreeRead(s: Store, d: Links, n: VersionName, below: set<VersionName>)
    requires Grounded(d) && IsFront(d, n) && below !! Subtree(d, n) && LinksRead(s, d, below)
    ensures LinksRead(WithTree(FrontRead(s, n, AbsentRead(d, n)), d, n), d, below + Subtree(d, n))
  {
    SubtreeIsBelowKids(d, n);
    var more := Below(d, Kids(d, n));
    TipsStep(d, n, {}, below, more);
    forall m | m in more ensures m in d && d[m] in d {
      BelowHasParent(d, n, m);
    }
    if Kids(d, n) == {} {
      assert more == {};
    }
    FrontLinksRead(s, d, n, below, more);
  }

  lemma FrontLinksRead(s: Store, d: Links, n: VersionName, below: set<VersionName>, more: set<VersionName>)
    requires IsFront(d, n) && LinksRead(s, d, below) && n !in below && n !in more && below !! more
    requires more == Below(d, Kids(d, n)) && (Kids(d, n) == {} ==> more == {})
    requires forall m | m in more :: m in d && d[m] in d
    ensures var t := WithTree(FrontRead(s, n, AbsentRead(d, n)), d, n);
            && t.versions.Keys == below + {n} + more
            && (forall m | m in t.versions :: t.versions[m] == Linked(d, m))
            && t.tips == Tips(d) * below + if Kids(d, n) == {} then {n} else Tips(d) * more
  {
  }

  lemma BelowHasParent(d: Links, n: VersionName, m: VersionName)
    requires Grounded(d) && n in d && m in Below(d, Kids(d, n))
    ensures m in d && d[m] in d
  {
    var c :| c in Kids(d, n) && m in Subtree(d, c);
    var s := Branch(d, m);
    BranchElements(d, s);
    BranchStep(d, m);
  }

  /** The orphans among the fronts waiting for k. */
  ghost function WaitingAmong(d: Links, fronts: seq<VersionName>, k: VersionName): set<VersionName> {
    set j | 0 < j < |fronts| && fronts[j] in d && d[fronts[j]] == k :: fronts[j]
  }

  lemma {:induction false} FrontsReadOrphans(limits: Limits, d: Links, fronts: seq<VersionName>)
    requires Grounded(d) && FrontList(d, fronts)
    ensures var s := FrontsRead(limits, d, fronts);
            && (fronts != [] ==> s.root == Some(fronts[0]) && s.rootAbsent == AbsentRead(d, fronts[0]))
            && (fronts == [] ==> s.rootAbsent == DEFAULT_NAME)
            && (forall k :: k in s.orphans <==> WaitingAmong(d, fronts, k) != {})
            && (forall k :: k in s.orphans ==> s.orphans[k] == WaitingAmong(d, fronts, k))
    decreases |fronts|
  {
    hide Linked, Below;
    if fronts != [] {
      var last := |fronts| - 1;
      var done, n := fronts[..last], fronts[last];
      FrontsReadOrphans(limits, d, done);
      forall k ensures WaitingAmong(d, fronts, k) == WaitingAmong(d, done, k) + if last > 0 && k == d[n] then {n} else {} {
        WaitingNext(d, fronts, k);
      }
    }
  }

  lemma WaitingNext(d: Links, fronts: seq<VersionName>, k: VersionName)
    requires fronts != [] && fronts[|fronts| - 1] in d
    ensures var last := |fronts| - 1;
            WaitingAmong(d, fronts, k)
            == WaitingAmong(d, fronts[..last], k) + if last > 0 && k == d[fronts[last]] then {fronts[last]} else {}
  {
    var last := |fronts| - 1;
    var done := fronts[..last];
    forall m | m in WaitingAmong(d, fronts, k)
      ensures m in WaitingAmong(d, done, k) || (last > 0 && k == d[fronts[last]] && m == fronts[last])
    {
      var j :| 0 < j < |fronts| && fronts[j] in d && d[fronts[j]] == k && m == fronts[j];
      if j < last {
        assert done[j] == m;
      }
    }
    forall m | m in WaitingAmong(d, done, k) ensures m in WaitingAmong(d, fronts, k) {
      var j :| 0 < j < |done| && done[j] in d && d[done[j]] == k && m == done[j];
      assert fronts[j] == m;
    }
  }

  /** The forest that is read back: an uninitialised parent of the root loses its index. */
  ghost function ReadBack(f: Forest): Forest
    requires f.Valid()
  {
    if f.root.Some? then Forest(f.declared[f.root.value := AbsentRead(f.declared, f.root.value)], f.root) else f
  }

  lemma KidsReadBack(f: Forest, p: VersionName)
    requires f.Valid() && p.IsInitialised()
    ensures Kids(ReadBack(f).declared, p) == Kids(f.declared, p)
  {
  }

  lemma {:induction false} NextTree(s: Store, branches: seq<SerialBranch>, i: nat, s': Store, j: nat)
    requires NoEmptyRun(branches) && i < |branches| && ReadsTo(ParseBranch(s, None, branches, i), s', j)
    ensures ParseAll(s, branches, i) == ParseAll(s', branches, j)
  {
  }

  lemma {:induction false} FirstOfTree(s: Store, n: VersionName, branches: seq<SerialBranch>, i: nat)
    requires NoEmptyRun(branches) && i < |branches| && branches[i].names != [] && branches[i].names[0].name == n
    requires n !in s.versions
    ensures var absent := if branches[i].absentParent.Some? then branches[i].absentParent.value else DEFAULT_NAME;
            s.root.None? || absent.IsInitialised() ==>
              ParseBranch(s, None, branches, i)
              == ParseNames(FrontRead(s, n, absent), branches[i].names[0], branches[i].names[1..], branches, i + 1)
  {
  }

  /** The tree of one front, read after some others. */
  lemma {:induction false} FrontReadBack(limits: Limits, d: Links, done: seq<VersionName>, n: VersionName,
      branches: seq<SerialBranch>, i: nat)
    requires Grounded(d) && FrontList(d, done + [n]) && NoEmptyRun(branches) && n in d
    requires RunsAt(branches, i, EncodeFront(d, n))
    ensures forall k | 0 <= k < |done| :: done[k] in d
    ensures forall k | 0 <= k < |done + [n]| :: (done + [n])[k] in d
    ensures ReadsTo(ParseBranch(FrontsRead(limits, d, done), None, branches, i),
                    FrontsRead(limits, d, done + [n]), i + |EncodeFront(d, n)|)
  {
    hide Encode, EncodeKids, ParseForks, ParseBranch, ParseNames, WithTree;
    var all := done + [n];
    assert forall k | 0 <= k < |done| :: all[k] == done[k];
    assert all[|done|] == n && all[..|done|] == done;
    assert FrontList(d, done) && IsFront(d, n);
    var s := FrontsRead(limits, d, done);
    FrontsReadLinks(limits, d, done);
    FrontsApart(d, done, n);
    SubtreeIsBelowKids(d, n);
    RunsOfFront(d, n, branches, i);
    FirstOfTree(s, n, branches, i);
    var s' := FrontRead(s, n, AbsentRead(d, n));
    assert s'.versions.Keys * Subtree(d, n) == {n};
    var r := ParseBranch(s, None, branches, i);
    NamesReadBack(s', d, n, branches, i + 1, r);
  }

  lemma {:induction false} RunsOfFront(d: Links, n: VersionName, branches: seq<SerialBranch>, i: nat)
    requires Grounded(d) && n in d && RunsAt(branches, i, EncodeFront(d, n))
    ensures |EncodeFront(d, n)| == |Encode(d, n)|
    ensures branches[i] == Encode(d, n)[0].(absentParent := Initialised(d[n]))
    ensures RunsAt(branches, i + 1, Encode(d, n)[1..])
  {
    hide Encode;
    var e, f := Encode(d, n), EncodeFront(d, n);
    assert branches[i + 0] == f[0];
    forall k | 0 <= k < |e[1..]| ensures branches[i + 1 + k] == e[1..][k] {
      assert branches[i + (k + 1)] == f[k + 1];
    }
  }

  lemma {:induction false} AllReadBack(limits: Limits, d: Links, done: seq<VersionName>, rest: seq<VersionName>,
                                       branches: seq<SerialBranch>, i: nat, r: Reading)
    requires Grounded(d) && FrontList(d, done + rest) && NoEmptyRun(branches)
    requires (forall k | 0 <= k < |done| :: done[k] in d) && (forall n | n in rest :: n in d)
    requires RunsAt(branches, i, EncodeFronts(d, rest)) && i + |EncodeFronts(d, rest)| == |branches|
    requires r == ParseAll(FrontsRead(limits, d, done), branches, i)
    ensures forall k | 0 <= k < |done + rest| :: (done + rest)[k] in d
    ensures ReadsTo(r, FrontsRead(limits, d, done + rest), |branches|)
    decreases |rest|
  {
    hide Encode, EncodeFront, EncodeFronts, ParseBranch, ParseAll, FrontsRead;
    if rest == [] {
      NoFronts(limits, d, done, branches, i);
      assert done + rest == done;
    } else {
      var n, more := rest[0], rest[1..];
      assert done + rest == done + [n] + more;
      OneFront(limits, d, done, rest, branches, i);
      AllReadBack(limits, d, done + [n], more, branches, i + |EncodeFront(d, n)|, r);
    }
  }

  lemma {:induction false} NoFronts(limits: Limits, d: Links, done: seq<VersionName>, branches: seq<SerialBranch>,
                                    i: nat)
    requires Grounded(d) && NoEmptyRun(branches) && (forall k | 0 <= k < |done| :: done[k] in d)
    requires i + |EncodeFronts(d, [])| == |branches|
    ensures ReadsTo(ParseAll(FrontsRead(limits, d, done), branches, i), FrontsRead(limits, d, done), |branches|)
  {
  }

  lemma OneFront(limits: Limits, d: Links, done: seq<VersionName>, rest: seq<VersionName>,
                 branches: seq<SerialBranch>, i: nat)
    requires Grounded(d) && FrontList(d, done + rest) && NoEmptyRun(branches) && rest != []
    requires (forall k | 0 <= k < |done| :: done[k] in d) && (forall n | n in rest :: n in d)
    requires RunsAt(branches, i, EncodeFronts(d, rest))
    ensures forall k | 0 <= k < |done + [rest[0]]| :: (done + [rest[0]])[k] in d
    ensures RunsAt(branches, i + |EncodeFront(d, rest[0])|, EncodeFronts(d, rest[1..]))
    ensures |EncodeFronts(d, rest)| == |EncodeFront(d, rest[0])| + |EncodeFronts(d, rest[1..])|
    ensures ParseAll(FrontsRead(limits, d, done), branches, i)
            == ParseAll(FrontsRead(limits, d, done + [rest[0]]), branches, i + |EncodeFront(d, rest[0])|)
  {
    hide Encode, EncodeFront, ParseBranch, ParseAll, FrontsRead;
    var n, more := rest[0], rest[1..];
    assert done + rest == done + [n] + more;
    FrontListPrefix(d, done + [n], more);
    RunsAtParts(branches, i, EncodeFront(d, n), EncodeFronts(d, more));
    FrontReadBack(limits, d, done, n, branches, i);
    NextTree(FrontsRead(limits, d, done), branches, i, FrontsRead(limits, d, done + [n]), i + |EncodeFront(d, n)|);
  }

  lemma FrontListPrefix(d: Links, a: seq<VersionName>, b: seq<VersionName>)
    requires FrontList(d, a + b)
    ensures FrontList(d, a)
  {
    assert forall k | 0 <= k < |a| :: (a + b)[k] == a[k];
  }

  // ---------------------------------------------------------------- the whole forest

  ghost predicate Distinct(s: seq<VersionName>) {
    forall i, j | 0 <= i < j < |s| :: s[i] != s[j]
  }

  lemma KeysDiffer(keys: seq<VersionName>, j: nat)
    requires forall i, j :: 0 <= i < j < |keys| ==> Less(keys[i], keys[j])
    requires j + 1 < |keys|
    ensures keys[0] != keys[1..][j]
  {
    assert Less(keys[0], keys[j + 1]);
  }

  lemma {:induction false} OrphansInOrderDistinct(f: Forest, keys: seq<VersionName>)
    requires forall i, j :: 0 <= i < j < |keys| ==> Less(keys[i], keys[j])
    ensures Distinct(OrphansInOrder(f, keys))
    decreases |keys|
  {
    if keys != [] {
      OrphansInOrderDistinct(f, keys[1..]);
      var a, b := Ascending(f.OrphansOf(keys[0])), OrphansInOrder(f, keys[1..]);
      forall n | n in a ensures n !in b {
        if n in b {
          var k :| k in keys[1..] && n in f.OrphansOf(k);
          assert false by {
            var j :| 0 <= j < |keys[1..]| && keys[1..][j] == k;
            KeysDiffer(keys, j);
          }
        }
      }
      var r := OrphansInOrder(f, keys);
      assert r == a + b;
      forall i, j | 0 <= i < j < |r| ensures r[i] != r[j] {
        if j < |a| {
          assert Less(a[i], a[j]);
        } else if i < |a| {
          assert a[i] in a && b[j - |a|] in b;
        } else {
          assert b[i - |a|] != b[j - |a|];
        }
      }
    }
  }

  lemma ListFromRoot(d: Links, fronts: seq<VersionName>, head: seq<VersionName>, orphans: seq<VersionName>)
    requires fronts == head + orphans && |head| <= 1
    requires forall n | n in fronts :: IsFront(d, n)
    requires Distinct(orphans)
    requires forall n | n in orphans :: n !in head && n in d && d[n].IsInitialised()
    ensures FrontList(d, fronts)
  {
    forall k | 0 <= k < |fronts| ensures IsFront(d, fronts[k]) {
      assert fronts[k] in fronts;
    }
    forall j, k | 0 <= j < k < |fronts| ensures fronts[j] != fronts[k] && d[fronts[k]].IsInitialised() {
      assert fronts[k] == orphans[k - |head|] && orphans[k - |head|] in orphans;
      if j < |head| {
        assert fronts[j] in head;
      } else {
        assert fronts[j] == orphans[j - |head|];
      }
    }
    assert forall k | 0 < k < |fronts| :: fronts[0] != fronts[k] && d[fronts[k]].IsInitialised();
  }

  lemma SomeElement(s: seq<VersionName>)
    requires s != []
    ensures exists n :: n in s
  {
    assert s[0] in s;
  }

  lemma FrontsFormList(f: Forest)
    requires f.Valid()
    ensures FrontList(f.declared, FrontsInOrder(f))
    ensures f.root.Some? ==> FrontsInOrder(f) != [] && FrontsInOrder(f)[0] == f.root.value
    ensures f.root.None? ==> FrontsInOrder(f) == []
  {
    hide Ascending;
    FrontsAreFronts(f);
    var keys := Ascending(f.OrphanKeys());
    OrphansInOrderDistinct(f, keys);
    var head := if f.root.Some? then [f.root.value] else [];
    var orphans := OrphansInOrder(f, keys);
    forall n | n in orphans ensures n !in head && n in f.declared && f.declared[n].IsInitialised() {
      var k :| k in keys && n in f.OrphansOf(k);
      assert !f.IsRoot(n);
    }
    ListFromRoot(f.declared, FrontsInOrder(f), head, orphans);
    if f.root.None? {
      assert f.OrphanKeys() == {};
      if orphans != [] {
        SomeElement(orphans);
        assert false;
      }
    }
  }

  lemma WaitingAreOrphans(f: Forest, k: VersionName)
    requires f.Valid()
    ensures WaitingAmong(f.declared, FrontsInOrder(f), k) == if k in f.declared then {} else f.OrphansOf(k)
  {
    FrontsFormList(f);
    FrontsAreFronts(f);
    var d, fronts := f.declared, FrontsInOrder(f);
    forall n ensures n in WaitingAmong(d, fronts, k) <==> k !in d && n in f.OrphansOf(k) {
      if k !in d && n in f.OrphansOf(k) {
        assert n in fronts;
        var j :| 0 <= j < |fronts| && fronts[j] == n;
      }
    }
  }

  lemma EveryVersionBelow(f: Forest)
    requires f.Valid()
    ensures Below(f.declared, SetOf(FrontsInOrder(f))) == f.declared.Keys
  {
    FrontsAreFronts(f);
    var d := f.declared;
    forall m | m in d ensures m in Below(d, SetOf(FrontsInOrder(f))) {
      FrontOfSubtree(d, Front(d, m), m);
      assert Front(d, m) in SetOf(FrontsInOrder(f));
    }
  }

  /** What is read back are exactly the structures of the forest that was written. */
  lemma {:induction false} FrontsReadRepresents(f: Forest, limits: Limits)
    requires f.Valid()
    ensures FrontList(f.declared, FrontsInOrder(f))
    ensures Represents(FrontsRead(limits, f.declared, FrontsInOrder(f)), ReadBack(f))
  {
    hide FrontsRead, FrontsInOrder, WaitingAmong, Below, ReadBack;
    FrontsFormList(f);
    var d, fronts := f.declared, FrontsInOrder(f);
    FrontsReadLinks(limits, d, fronts);
    FrontsReadOrphans(limits, d, fronts);
    EveryVersionBelow(f);
    var s, g := FrontsRead(limits, d, fronts), ReadBack(f);
    LinksReadBack(f, s.versions);
    RootReadBack(f);
    forall k
      ensures k in s.orphans <==> k !in g.declared && g.OrphansOf(k) != {}
      ensures k in s.orphans ==> s.orphans[k] == g.OrphansOf(k)
    {
      WaitingAreOrphans(f, k);
      OrphansReadBack(f, k);
    }
  }

  lemma LinksReadBack(f: Forest, versions: Versions)
    requires f.Valid() && versions.Keys == f.declared.Keys
    requires forall m | m in versions :: versions[m] == Linked(f.declared, m)
    ensures VersionsOf(versions, ReadBack(f).declared)
    ensures Tips(ReadBack(f).declared) == Tips(f.declared)
  {
    var g := ReadBack(f);
    forall n | n in g.declared ensures versions[n] == Details(ParentIn(g.declared, n), Kids(g.declared, n)) {
      KidsReadBack(f, n);
    }
    forall n ensures n in Tips(g.declared) <==> n in Tips(f.declared) {
      if n in f.declared {
        KidsReadBack(f, n);
      }
    }
  }

  lemma RootReadBack(f: Forest)
    requires f.Valid()
    ensures ReadBack(f).root == f.root && ReadBack(f).declared.Keys == f.declared.Keys
    ensures f.root.Some? ==> ReadBack(f).declared[f.root.value] == AbsentRead(f.declared, f.root.value)
  {
  }

  lemma OrphansReadBack(f: Forest, k: VersionName)
    requires f.Valid()
    ensures k !in f.declared ==> ReadBack(f).OrphansOf(k) == f.OrphansOf(k)
  {
  }

  /**
   Reading a serialised forest succeeds and builds its limits, links, tips, orphans and root; only
   the index of an uninitialised parent of the root is not kept.
   */
  lemma ParseSerialised(f: Forest, limits: Limits)
    requires f.Valid() && limits.Valid() && f.Within(limits)
    ensures var serialised := SerialiseSpec(f, limits);
            && NoEmptyRun(serialised.branches)
            && ParseSpec(serialised).Ok?
            && ParseSpec(serialised).value.limits == limits
            && Represents(ParseSpec(serialised).value, ReadBack(f))
  {
    hide FrontsRead, FrontsInOrder, EncodeFronts, ParseAll, Represents;
    FrontsFormList(f);
    FrontsAreFronts(f);
    var d, fronts := f.declared, FrontsInOrder(f);
    var branches := EncodeFronts(d, fronts);
    var s := FrontsRead(limits, d, fronts);
    FirstFronts(limits, d);
    assert [] + fronts == fronts;
    AllReadBack(limits, d, [], fronts, branches, 0, ParseAll(EmptyStore(limits), branches, 0));
    FrontsReadRepresents(f, limits);
    FrontsReadFits(f, limits, s);
  }

  lemma {:induction false} FirstFronts(limits: Limits, d: Links)
    ensures FrontsRead(limits, d, []) == EmptyStore(limits)
  {
  }

  lemma FrontsReadFits(f: Forest, limits: Limits, s: Store)
    requires f.Valid() && f.Within(limits) && Represents(s, ReadBack(f))
    ensures |s.versions| <= limits.maxVersions && |s.tips| <= limits.maxBranches
  {
    RootReadBack(f);
    assert |s.versions.Keys| == |f.declared.Keys|;
    forall n ensures n in Tips(ReadBack(f).declared) <==> n in Tips(f.declared) {
      if n in f.declared {
        KidsReadBack(f, n);
      }
    }
    assert s.tips == Tips(f.declared);
  }
}
