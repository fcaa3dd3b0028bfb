/**
 Steps of writing the serialised form run by run.
 */
module Writing {
  import opened Options
  import opened VersionNames
  import opened ParentMaps
  import opened Forests
  import opened Serialisation
  import opened RoundTrip

  /** The runs b, the last of which is still open, continued by the runs e. */
  function Joined(b: seq<SerialBranch>, e: seq<SerialBranch>): seq<SerialBranch>
    requires b != [] && e != []
  {
    var last := |b| - 1;
    b[..last] + [b[last].(names := b[last].names + e[0].names)] + e[1..]
  }

  function AddName(b: seq<SerialBranch>, name: SerialName): (r: seq<SerialBranch>)
    requires b != []
    ensures r != []
  {
    var last := |b| - 1;
    b[last := b[last].(names := b[last].names + [name])]
  }

  lemma {:induction false} JoinTip(d: Links, n: VersionName, b: seq<SerialBranch>)
    requires Grounded(d) && n in d && Kids(d, n) == {} && b != []
    ensures AddName(b, SerialName(n, None)) == Joined(b, Encode(d, n))
  {
    assert Encode(d, n)[1..] == [];
  }

  lemma {:induction false} JoinSingle(d: Links, n: VersionName, b: seq<SerialBranch>, c: VersionName)
    requires Grounded(d) && n in d && |Kids(d, n)| == 1 && c == Least(Kids(d, n)) && c in d && b != []
    ensures Joined(AddName(b, SerialName(n, None)), Encode(d, c)) == Joined(b, Encode(d, n))
  {
    var last := |b| - 1;
    EncodeSingle(d, n);
    var e, e' := Encode(d, c), Encode(d, n);
    var a := AddName(b, SerialName(n, None));
    assert a[..last] == b[..last];
    assert b[last].names + [SerialName(n, None)] + e[0].names == b[last].names + e'[0].names;
  }

  lemma {:induction false} JoinFork(d: Links, n: VersionName, b: seq<SerialBranch>)
    requires Grounded(d) && n in d && |Kids(d, n)| >= 2 && b != []
    ensures AddName(b, SerialName(n, Some(|Kids(d, n)|))) + EncodeKids(d, n, Ascending(Kids(d, n))) == Joined(b, Encode(d, n))
  {
    hide EncodeKids, Ascending;
    EncodeFork(d, n);
    var last := |b| - 1;
    var e := Encode(d, n);
    assert AddName(b, SerialName(n, Some(|Kids(d, n)|))) == b[..last] + [b[last].(names := b[last].names + e[0].names)];
  }

  lemma JoinNew(b: seq<SerialBranch>, absent: Option<VersionName>, e: seq<SerialBranch>)
    requires e != [] && e[0].absentParent.None?
    ensures Joined(b + [SerialBranch(absent, [])], e) == b + [e[0].(absentParent := absent)] + e[1..]
  {
    assert [] + e[0].names == e[0].names;
    assert (b + [SerialBranch(absent, [])])[..|b|] == b;
  }

  lemma {:induction false} KidsSplit(d: Links, p: VersionName, kids: seq<VersionName>, k: nat)
    requires Grounded(d) && p in d && k < |kids| && forall c | c in kids :: c in Kids(d, p)
    ensures kids[k] in d
    ensures EncodeKids(d, p, kids[k..]) == Encode(d, kids[k]) + EncodeKids(d, p, kids[k + 1..])
  {
    assert kids[k] in kids;
    assert kids[k..][1..] == kids[k + 1..];
  }

  lemma {:induction false} OneMoreKid(d: Links, p: VersionName, kids: seq<VersionName>, k: nat, b: seq<SerialBranch>)
    requires Grounded(d) && p in d && k < |kids| && forall c | c in kids :: c in Kids(d, p)
    ensures kids[k] in d
    ensures b + EncodeKids(d, p, kids[k..])
            == Joined(b + [SerialBranch(None, [])], Encode(d, kids[k])) + EncodeKids(d, p, kids[k + 1..])
  {
    hide Encode, EncodeKids;
    KidsSplit(d, p, kids, k);
    JoinNew(b, None, Encode(d, kids[k]));
  }

  lemma {:induction false} JoinFront(d: Links, n: VersionName, b: seq<SerialBranch>)
    requires Grounded(d) && n in d
    ensures Joined(b + [SerialBranch(Initialised(d[n]), [])], Encode(d, n)) == b + EncodeFront(d, n)
  {
    hide Encode;
    JoinNew(b, Initialised(d[n]), Encode(d, n));
    var e := Encode(d, n);
    assert EncodeFront(d, n) == [e[0].(absentParent := Initialised(d[n]))] + e[1..];
  }

  lemma {:induction false} OneMoreFront(d: Links, n: VersionName, fronts: seq<VersionName>, b: seq<SerialBranch>)
    requires Grounded(d) && n in d && forall m | m in fronts :: m in d
    ensures forall m | m in [n] + fronts :: m in d
    ensures b + EncodeFronts(d, [n] + fronts) == b + EncodeFront(d, n) + EncodeFronts(d, fronts)
  {
    hide EncodeFront;
    assert ([n] + fronts)[1..] == fronts;
  }

  lemma {:induction false} NoKids(d: Links, p: VersionName, kids: seq<VersionName>)
    requires Grounded(d) && p in d && kids == []
    ensures EncodeKids(d, p, kids) == []
  {
  }

  lemma {:induction false} NoMoreFronts(f: Forest, keys: seq<VersionName>)
    requires f.Valid() && keys == []
    ensures OrphansInOrder(f, keys) == [] && EncodeFronts(f.declared, OrphansInOrder(f, keys)) == []
  {
  }

  lemma {:induction false} OrphansInOrderStep(f: Forest, keys: seq<VersionName>, k: nat)
    requires k < |keys|
    ensures OrphansInOrder(f, keys[k..]) == Ascending(f.OrphansOf(keys[k])) + OrphansInOrder(f, keys[k + 1..])
  {
    assert keys[k..][1..] == keys[k + 1..];
  }
}
