/** Identities of 64 bytes, their distance, and their binary form. */
module Identities {
  import opened Arithmetic
  import opened Bits
  import opened Octets
  import opened Options

  const IDENTITY_SIZE: nat := 64

  datatype Identity = Uninitialised | Identity(bytes: seq<Octet>) {
    predicate Valid() {
      Identity? ==> |bytes| == IDENTITY_SIZE
    }
  }

  function ByteBits(x: Octet): (b: Bits)
    ensures |b| == 8
  {
    BitsOf(x, 8)
  }

  /** The bits of some bytes, the first byte first. */
  function AllBits(s: seq<Octet>): (b: Bits)
    ensures |b| == 8 * |s|
  {
    if s == [] then [] else ByteBits(s[0]) + AllBits(s[1..])
  }

  /** The exclusive or of two identities as a number. */
  function Distance(a: seq<Octet>, b: seq<Octet>): nat
    requires |a| == |b|
  {
    Number(Xor(AllBits(a), AllBits(b)))
  }

  function XorByte(x: Octet, y: Octet): nat {
    Number(Xor(ByteBits(x), ByteBits(y)))
  }

  lemma {:induction false} DistanceStep(a: seq<Octet>, b: seq<Octet>)
    requires |a| == |b| && a != []
    ensures Xor(AllBits(a), AllBits(b)) == Xor(ByteBits(a[0]), ByteBits(b[0])) + Xor(AllBits(a[1..]), AllBits(b[1..]))
  {
  }

  /** Whether a is closer to t than b compares the first bytes, or if they are equally far, the rest. */
  lemma CloserStep(a: seq<Octet>, b: seq<Octet>, t: seq<Octet>)
    requires |a| == |b| == |t| && a != []
    ensures Distance(a, t) < Distance(b, t) <==>
              if XorByte(a[0], t[0]) != XorByte(b[0], t[0]) then XorByte(a[0], t[0]) < XorByte(b[0], t[0])
              else Distance(a[1..], t[1..]) < Distance(b[1..], t[1..])
  {
    DistanceStep(a, t);
    DistanceStep(b, t);
    LeadingFirst(Xor(ByteBits(a[0]), ByteBits(t[0])), Xor(AllBits(a[1..]), AllBits(t[1..])),
                 Xor(ByteBits(b[0]), ByteBits(t[0])), Xor(AllBits(b[1..]), AllBits(t[1..])));
  }

  /** Compares byte by byte; None for an uninitialised identity, which is an error. */
  method CloserToTarget(id1: Identity, id2: Identity, targetId: Identity) returns (r: Option<bool>)
    requires id1.Valid() && id2.Valid() && targetId.Valid()
    ensures r.None? <==> id1.Uninitialised? || id2.Uninitialised? || targetId.Uninitialised?
    ensures r.Some? ==> (r.value <==> Distance(id1.bytes, targetId.bytes) < Distance(id2.bytes, targetId.bytes))
  {
    hide Distance, XorByte;
    if id1.Uninitialised? || id2.Uninitialised? || targetId.Uninitialised? {
      return None;
    }
    var a, b, t := id1.bytes, id2.bytes, targetId.bytes;
    assert a[0..] == a && b[0..] == b && t[0..] == t;
    for i := 0 to IDENTITY_SIZE
      invariant Distance(a, t) < Distance(b, t) <==> Distance(a[i..], t[i..]) < Distance(b[i..], t[i..])
    {
      CloserStep(a[i..], b[i..], t[i..]);
      assert a[i..][1..] == a[i + 1..] && b[i..][1..] == b[i + 1..] && t[i..][1..] == t[i + 1..];
      var result1, result2 := XorByte(a[i], t[i]), XorByte(b[i], t[i]);
      if result1 != result2 {
        return Some(result1 < result2);
      }
    }
    assert a[IDENTITY_SIZE..] == [] && b[IDENTITY_SIZE..] == [];
    return Some(false);
  }

  lemma {:induction false} SameBits(a: seq<Octet>, b: seq<Octet>)
    requires |a| == |b| && AllBits(a) == AllBits(b)
    ensures a == b
    decreases |a|
  {
    if a != [] {
      assert AllBits(a)[..8] == ByteBits(a[0]) && AllBits(b)[..8] == ByteBits(b[0]);
      assert AllBits(a)[8..] == AllBits(a[1..]) && AllBits(b)[8..] == AllBits(b[1..]);
      assert Pow2(8) == 256;
      NumberOfBits(a[0], 8);
      NumberOfBits(b[0], 8);
      SameBits(a[1..], b[1..]);
      assert a == [a[0]] + a[1..] && b == [b[0]] + b[1..];
    }
  }

  // ---------------------------------------------------------------- bytes as digits of a number

  /** The number whose digits in base 256 are the bytes, the highest first. */
  function BigEndian(s: seq<Octet>): nat {
    if s == [] then 0 else 256 * BigEndian(s[..|s| - 1]) + s[|s| - 1]
  }

  lemma {:induction false} AllBitsNumber(s: seq<Octet>)
    ensures Number(AllBits(s)) == BigEndian(s)
    decreases |s|
  {
    if s != [] {
      var last := |s| - 1;
      AllBitsNumber(s[..last]);
      LastByte(s);
      assert Pow2(8) == 256;
      NumberOfBits(s[last], 8);
      hide Number, Pow2, ByteBits, AllBits;
      NumberJoined(AllBits(s[..last]), ByteBits(s[last]));
    }
  }

  lemma {:induction false} LastByte(s: seq<Octet>)
    requires s != []
    ensures AllBits(s) == AllBits(s[..|s| - 1]) + ByteBits(s[|s| - 1]) && ByteBits(s[|s| - 1]) == BitsOf(s[|s| - 1], 8)
  {
    var last := |s| - 1;
    BitsSplit(s, last);
    OneByte(s[last]);
    hide AllBits, ByteBits;
    LastAlone(s);
    Cut(AllBits(s), 8 * last);
  }

  lemma LastAlone(s: seq<Octet>)
    requires s != []
    ensures s[|s| - 1..] == [s[|s| - 1]]
  {
  }

  lemma Cut(b: Bits, n: nat)
    requires n <= |b|
    ensures b == b[..n] + b[n..]
  {
  }

  lemma {:induction false} OneByte(x: Octet)
    ensures AllBits([x]) == ByteBits(x) == BitsOf(x, 8)
  {
    assert AllBits([x]) == ByteBits(x) + AllBits([x][1..]);
  }

  /** The distance is the exclusive or of the two numbers. */
  lemma {:induction false} DistanceIs(a: seq<Octet>, b: seq<Octet>)
    requires |a| == |b|
    ensures Distance(a, b) == ExclusiveOr(BigEndian(a), BigEndian(b))
  {
    XorNumber(AllBits(a), AllBits(b));
    AllBitsNumber(a);
    AllBitsNumber(b);
  }

  lemma {:induction false} ZerosNumber(s: seq<Octet>)
    requires forall i | 0 <= i < |s| :: s[i] == 0
    ensures BigEndian(s) == 0
    decreases |s|
  {
    if s != [] {
      ZerosNumber(s[..|s| - 1]);
    }
  }

  /** The distance from zeros is the number itself. */
  lemma {:induction false} DistanceFromZeros(a: seq<Octet>, zeros: seq<Octet>)
    requires |a| == |zeros| && forall i | 0 <= i < |zeros| :: zeros[i] == 0
    ensures Distance(a, zeros) == BigEndian(a)
  {
    DistanceIs(a, zeros);
    ZerosNumber(zeros);
    ExclusiveOrZero(BigEndian(a));
  }

  /** Bit j of byte i, from the left, is that of weight 2^(7 - j). */
  lemma BitOfByte(s: seq<Octet>, i: nat, j: nat)
    requires i < |s| && j < 8
    ensures AllBits(s)[8 * i + j] == (s[i] / Pow2(7 - j) % 2 == 1)
  {
    BitsSplit(s, i);
    assert AllBits(s[i..])[j] == ByteBits(s[i])[j];
    assert AllBits(s)[8 * i..][j] == AllBits(s)[8 * i + j];
    BitIs(s[i], 8, j);
  }

  /** Only an identity itself is as far from the target: closeness is a strict total order. */
  lemma EquallyFarIff(a: seq<Octet>, b: seq<Octet>, t: seq<Octet>)
    requires |a| == |b| == |t|
    ensures Distance(a, t) == Distance(b, t) <==> a == b
  {
    if Distance(a, t) == Distance(b, t) {
      var x, y, z := AllBits(a), AllBits(b), AllBits(t);
      SameNumber(Xor(x, z), Xor(y, z));
      forall i | 0 <= i < |x| ensures x[i] == y[i] {
        assert Xor(x, z)[i] == (x[i] != z[i]) && Xor(y, z)[i] == (y[i] != z[i]);
      }
      SameBits(a, b);
    }
  }

  /** The distance is a metric. */
  lemma DistanceIsMetric(a: seq<Octet>, b: seq<Octet>, c: seq<Octet>)
    requires |a| == |b| == |c|
    ensures Distance(a, b) == 0 <==> a == b
    ensures Distance(a, b) == Distance(b, a)
    ensures Distance(a, c) <= Distance(a, b) + Distance(b, c)
  {
    ZerosAre(Xor(AllBits(b), AllBits(b)));
    EquallyFarIff(a, b, b);
    assert Xor(AllBits(a), AllBits(b)) == Xor(AllBits(b), AllBits(a));
    XorTriangle(AllBits(a), AllBits(b), AllBits(c));
  }

  // ---------------------------------------------------------------- common leading bits

  function Mismatch(a: seq<Octet>, b: seq<Octet>): (i: nat)
    requires |a| == |b|
    ensures i <= |a| && a[..i] == b[..i] && (i < |a| ==> a[i] != b[i])
  {
    if a == [] || a[0] != b[0] then 0
    else
      var i := 1 + Mismatch(a[1..], b[1..]);
      assert a[..i] == [a[0]] + a[1..][..i - 1] && b[..i] == [b[0]] + b[1..][..i - 1];
      i
  }

  /** The number of leading bits two strings have in common. */
  function Common(a: Bits, b: Bits): (k: nat)
    requires |a| == |b|
    ensures k <= |a| && a[..k] == b[..k] && (k < |a| ==> a[k] != b[k])
  {
    if a == [] || a[0] != b[0] then 0
    else
      var k := 1 + Common(a[1..], b[1..]);
      assert a[..k] == [a[0]] + a[1..][..k - 1] && b[..k] == [b[0]] + b[1..][..k - 1];
      k
  }

  /** The entry of the program's table for two bytes. */
  function CommonBits(x: Octet, y: Octet): nat {
    Common(ByteBits(x), ByteBits(y))
  }

  function CommonLeadingBits(id1: Identity, id2: Identity): (r: Option<nat>)
    requires id1.Valid() && id2.Valid()
    ensures r.None? <==> id1.Uninitialised? || id2.Uninitialised?
  {
    if id1.Uninitialised? || id2.Uninitialised? then None
    else
      var i := Mismatch(id1.bytes, id2.bytes);
      if i == IDENTITY_SIZE then Some(8 * IDENTITY_SIZE) else Some(8 * i + CommonBits(id1.bytes[i], id2.bytes[i]))
  }

  lemma {:induction false} BitsSplit(s: seq<Octet>, i: nat)
    requires i <= |s|
    ensures AllBits(s)[..8 * i] == AllBits(s[..i]) && AllBits(s)[8 * i..] == AllBits(s[i..])
    decreases i
  {
    if i > 0 {
      BitsSplit(s[1..], i - 1);
      assert s[..i][1..] == s[1..][..i - 1] && s[1..][i - 1..] == s[i..];
      assert AllBits(s) == ByteBits(s[0]) + AllBits(s[1..]);
    }
  }

  /** Two initialised identities, and no others, have k leading bits in common exactly if those bits are the same. */
  lemma CommonLeadingBitsIff(id1: Identity, id2: Identity, k: nat)
    requires id1.Valid() && id2.Valid() && k <= 8 * IDENTITY_SIZE
    ensures CommonLeadingBits(id1, id2).Some? <==> id1.Identity? && id2.Identity?
    ensures id1.Identity? && id2.Identity? ==>
              (k <= CommonLeadingBits(id1, id2).value <==> AllBits(id1.bytes)[..k] == AllBits(id2.bytes)[..k])
  {
    if id1.Identity? && id2.Identity? {
      SameLeadingBits(id1, id2, k);
    }
  }

  lemma SameLeadingBits(id1: Identity, id2: Identity, k: nat)
    requires id1.Identity? && id2.Identity? && id1.Valid() && id2.Valid() && k <= 8 * IDENTITY_SIZE
    ensures k <= CommonLeadingBits(id1, id2).value <==> AllBits(id1.bytes)[..k] == AllBits(id2.bytes)[..k]
  {
    var a, b := id1.bytes, id2.bytes;
    var i := Mismatch(a, b);
    hide AllBits, CommonBits, Mismatch;
    if i < IDENTITY_SIZE {
      DifferAt(a, b, i);
      PrefixesEqual(AllBits(a), AllBits(b), 8 * i + CommonBits(a[i], b[i]), k);
    } else {
      assert a[..i] == a && b[..i] == b;
    }
  }

  /** The first different bit is in the first different byte. */
  lemma {:induction false} DifferAt(a: seq<Octet>, b: seq<Octet>, i: nat)
    requires |a| == |b| && i < |a| && a[..i] == b[..i] && a[i] != b[i]
    ensures var n := 8 * i + CommonBits(a[i], b[i]);
            n < 8 * |a| && AllBits(a)[..n] == AllBits(b)[..n] && AllBits(a)[n] != AllBits(b)[n]
  {
    var p, q, c := ByteBits(a[i]), ByteBits(b[i]), CommonBits(a[i], b[i]);
    ByteOfBits(a[i], b[i]);
    assert p[..8] == p && q[..8] == q;
    BitsAround(a, i, c);
    BitsAround(b, i, c);
  }

  lemma {:induction false} BitsAround(a: seq<Octet>, i: nat, c: nat)
    requires i < |a| && c < 8
    ensures AllBits(a)[..8 * i + c] == AllBits(a[..i]) + ByteBits(a[i])[..c]
    ensures AllBits(a)[8 * i + c] == ByteBits(a[i])[c]
  {
    BitsSplit(a, i);
    assert AllBits(a[i..]) == ByteBits(a[i]) + AllBits(a[i + 1..]) by {
      assert a[i..][1..] == a[i + 1..];
    }
    PartsAround(AllBits(a), 8 * i, ByteBits(a[i]), AllBits(a[i + 1..]), c);
  }

  lemma PartsAround(x: Bits, n: nat, p: Bits, rest: Bits, c: nat)
    requires n <= |x| && x[n..] == p + rest && c < |p|
    ensures n + c < |x| && x[..n + c] == x[..n] + p[..c] && x[n + c] == p[c]
  {
    assert x == x[..n] + (p + rest);
  }

  lemma ByteOfBits(x: Octet, y: Octet)
    ensures ByteBits(x) == ByteBits(y) <==> x == y
  {
    assert Pow2(8) == 256;
    NumberOfBits(x, 8);
    NumberOfBits(y, 8);
  }

  lemma PrefixesEqual(x: Bits, y: Bits, n: nat, k: nat)
    requires |x| == |y| && n < |x| && x[..n] == y[..n] && x[n] != y[n] && k <= |x|
    ensures x[..k] == y[..k] <==> k <= n
  {
    if k <= n {
      assert x[..k] == x[..n][..k] && y[..k] == y[..n][..k];
    } else {
      assert x[..k][n] == x[n] && y[..k][n] == y[n];
    }
  }

  /** Leading bits in common bound the distance, from both sides. */
  lemma CommonBitsBound(id1: Identity, id2: Identity, k: nat)
    requires id1.Identity? && id2.Identity? && id1.Valid() && id2.Valid() && k <= 8 * IDENTITY_SIZE
    ensures k <= CommonLeadingBits(id1, id2).value <==> Distance(id1.bytes, id2.bytes) < Pow2(8 * IDENTITY_SIZE - k)
  {
    CommonLeadingBitsIff(id1, id2, k);
    var x, y := AllBits(id1.bytes), AllBits(id2.bytes);
    BelowPower(Xor(x, y), k);
    assert forall i | 0 <= i < k :: Xor(x, y)[i] == (x[i] != y[i]);
    if x[..k] == y[..k] {
      assert forall i | 0 <= i < k :: x[..k][i] == x[i] && y[..k][i] == y[i];
    } else {
      var i :| 0 <= i < k && x[..k][i] != y[..k][i];
      assert Xor(x, y)[i];
    }
  }

  /** More leading bits in common with the target is closer to it. */
  lemma MoreCommonIsCloser(a: Identity, b: Identity, t: Identity)
    requires a.Identity? && b.Identity? && t.Identity? && a.Valid() && b.Valid() && t.Valid()
    requires CommonLeadingBits(a, t).value > CommonLeadingBits(b, t).value
    ensures Distance(a.bytes, t.bytes) < Distance(b.bytes, t.bytes)
  {
    hide CommonLeadingBits, Distance;
    var k := CommonLeadingBits(a, t).value;
    AtMostAll(a, t);
    CommonBitsBound(a, t, k);
    CommonBitsBound(b, t, k);
  }

  lemma AtMostAll(a: Identity, b: Identity)
    requires a.Identity? && b.Identity? && a.Valid() && b.Valid()
    ensures CommonLeadingBits(a, b).value <= 8 * IDENTITY_SIZE
  {
    var i := Mismatch(a.bytes, b.bytes);
    if i < IDENTITY_SIZE {
      DifferAt(a.bytes, b.bytes, i);
    }
  }

  /** The leading bits in common form an ultrametric. */
  lemma CommonBitsUltrametric(a: Identity, b: Identity, c: Identity)
    requires a.Identity? && b.Identity? && c.Identity? && a.Valid() && b.Valid() && c.Valid()
    ensures var ab, bc := CommonLeadingBits(a, b).value, CommonLeadingBits(b, c).value;
            CommonLeadingBits(a, c).value >= if ab < bc then ab else bc
  {
    hide CommonLeadingBits;
    var ab, bc := CommonLeadingBits(a, b).value, CommonLeadingBits(b, c).value;
    var k := if ab < bc then ab else bc;
    AtMostAll(a, b);
    AtMostAll(b, c);
    CommonLeadingBitsIff(a, b, k);
    CommonLeadingBitsIff(b, c, k);
    CommonLeadingBitsIff(a, c, k);
  }
}
