/** Strings of bits as binary numbers, most significant bit first. */
module Bits {
  import opened Arithmetic

  type Bits = seq<bool>

  function Number(b: Bits): nat {
    if b == [] then 0 else 2 * Number(b[..|b| - 1]) + if b[|b| - 1] then 1 else 0
  }

  /** The w low bits of a number. */
  function BitsOf(n: nat, w: nat): (b: Bits)
    ensures |b| == w
  {
    if w == 0 then [] else BitsOf(n / 2, w - 1) + [n % 2 == 1]
  }

  function Xor(a: Bits, b: Bits): (r: Bits)
    requires |a| == |b|
    ensures |r| == |a|
  {
    seq(|a|, i requires 0 <= i < |a| => a[i] != b[i])
  }

  lemma {:induction false} NumberOfBits(n: nat, w: nat)
    requires n < Pow2(w)
    ensures Number(BitsOf(n, w)) == n
    decreases w
  {
    if w > 0 {
      NumberOfBits(n / 2, w - 1);
    }
  }

  lemma {:induction false} BitsOfNumber(b: Bits)
    ensures Number(b) < Pow2(|b|) && BitsOf(Number(b), |b|) == b
    decreases |b|
  {
    if b != [] {
      BitsOfNumber(b[..|b| - 1]);
      assert b == b[..|b| - 1] + [b[|b| - 1]];
    }
  }

  lemma {:induction false} NumberJoined(a: Bits, b: Bits)
    ensures Number(a + b) == Number(a) * Pow2(|b|) + Number(b)
    decreases |b|
  {
    if b == [] {
      assert a + b == a;
    } else {
      var last := |b| - 1;
      NumberJoined(a, b[..last]);
      assert (a + b)[..|a + b| - 1] == a + b[..last];
      Doubled(Number(a), Pow2(last), Number(b[..last]));
    }
  }

  lemma Doubled(n: nat, p: nat, m: nat)
    ensures 2 * (n * p + m) == n * (2 * p) + 2 * m
  {
    assert n * (2 * p) == 2 * (n * p);
  }

  lemma {:induction false} SameNumber(a: Bits, b: Bits)
    requires |a| == |b| && Number(a) == Number(b)
    ensures a == b
  {
    BitsOfNumber(a);
    BitsOfNumber(b);
  }

  lemma PartsCompare(m: nat, x: nat, n: nat, y: nat, p: nat)
    requires x < p && y < p
    ensures m * p + x < n * p + y <==> m < n || (m == n && x < y)
  {
    AtLeastOne(n - m, p);
    assert (n - m) * p == n * p - m * p;
  }

  /** Numbers of equal width compare like their leading parts, and then like the rest. */
  lemma {:induction false} LeadingFirst(a: Bits, b: Bits, c: Bits, d: Bits)
    requires |a| == |c| && |b| == |d|
    ensures Number(a + b) < Number(c + d) <==> Number(a) < Number(c) || (Number(a) == Number(c) && Number(b) < Number(d))
  {
    NumberJoined(a, b);
    NumberJoined(c, d);
    BitsOfNumber(b);
    BitsOfNumber(d);
    hide Number, Pow2;
    PartsCompare(Number(a), Number(b), Number(c), Number(d), Pow2(|b|));
  }

  /** A number is below a power of two exactly if it starts with enough zeros. */
  lemma BelowPower(b: Bits, k: nat)
    requires k <= |b|
    ensures Number(b) < Pow2(|b| - k) <==> forall i | 0 <= i < k :: !b[i]
  {
    var high, low := b[..k], b[k..];
    assert b == high + low;
    NumberJoined(high, low);
    BitsOfNumber(low);
    ZerosAre(high);
    hide Number, Pow2;
    PartsCompare(Number(high), Number(low), 1, 0, Pow2(|b| - k));
    assert (forall i | 0 <= i < k :: !b[i]) <==> forall i | 0 <= i < k :: !high[i];
  }

  lemma {:induction false} ZerosAre(b: Bits)
    ensures Number(b) == 0 <==> forall i | 0 <= i < |b| :: !b[i]
    decreases |b|
  {
    if b != [] {
      ZerosAre(b[..|b| - 1]);
    }
  }

  /** The triangle inequality of the exclusive or. */
  lemma {:induction false} XorTriangle(a: Bits, b: Bits, c: Bits)
    requires |a| == |b| == |c|
    ensures Number(Xor(a, c)) <= Number(Xor(a, b)) + Number(Xor(b, c))
    decreases |a|
  {
    if a != [] {
      var last := |a| - 1;
      XorTriangle(a[..last], b[..last], c[..last]);
      assert Xor(a, c)[..last] == Xor(a[..last], c[..last]);
      assert Xor(a, b)[..last] == Xor(a[..last], b[..last]);
      assert Xor(b, c)[..last] == Xor(b[..last], c[..last]);
    }
  }

  /** Bit j from the left is that of weight 2^(w - 1 - j). */
  lemma {:induction false} BitIs(n: nat, w: nat, j: nat)
    requires j < w
    ensures BitsOf(n, w)[j] == (n / Pow2(w - 1 - j) % 2 == 1)
    decreases w
  {
    if j < w - 1 {
      BitIs(n / 2, w - 1, j);
      HalvesDivide(n, w - 2 - j);
    }
  }

  /** The exclusive or of strings of bits is that of their numbers. */
  lemma {:induction false} XorNumber(a: Bits, b: Bits)
    requires |a| == |b|
    ensures Number(Xor(a, b)) == ExclusiveOr(Number(a), Number(b))
    decreases |a|
  {
    if a != [] {
      var last := |a| - 1;
      XorNumber(a[..last], b[..last]);
      assert Xor(a, b)[..last] == Xor(a[..last], b[..last]);
    }
  }
}
