/** Page arithmetic in machine words: a bit mask finds the page of an address. */
module Pages {
  import opened Arithmetic

  const WORD_BITS: nat := 64
  const WORD: nat := 0x1_0000_0000_0000_0000

  /** Bitwise and. */
  function And(a: nat, b: nat): nat {
    if a == 0 || b == 0 then 0 else 2 * And(a / 2, b / 2) + (a % 2) * (b % 2)
  }

  lemma OwnBit(r: nat)
    requires r < 2
    ensures r * r == r
  {
  }

  lemma {:induction false} AndSame(a: nat)
    ensures And(a, a) == a
    decreases a
  {
    if a > 0 {
      AndSame(a / 2);
      OwnBit(a % 2);
    }
  }

  /** The check made of a page size holds for the powers of two and no others. */
  lemma {:induction false} PowerOfTwoIff(p: nat)
    requires p > 0
    ensures And(p, p - 1) == 0 <==> exists k: nat :: p == Pow2(k)
    decreases p
  {
    var q := p / 2;
    if p == 1 {
      assert p == Pow2(0);
    } else if p % 2 == 1 {
      assert (p - 1) / 2 == q;
      AndSame(q);
      forall k: nat ensures p != Pow2(k) {
        assert k > 0 ==> Pow2(k) == 2 * Pow2(k - 1);
      }
    } else {
      assert And(p, p - 1) == 2 * And(q, q - 1) by {
        assert (p - 1) / 2 == q - 1;
      }
      PowerOfTwoIff(q);
      PowerDoubled(q);
    }
  }

  lemma PowerDoubled(q: nat)
    requires q > 0
    ensures (exists k: nat :: 2 * q == Pow2(k)) <==> exists k: nat :: q == Pow2(k)
  {
    if k: nat :| q == Pow2(k) {
      assert 2 * q == Pow2(k + 1);
    }
    if exists k: nat :: 2 * q == Pow2(k) {
      var k: nat :| 2 * q == Pow2(k);
      assert k != 0;
      var j: nat := k - 1;
      assert Pow2(j) == q;
    }
  }

  lemma {:induction false} AndOnes(a: nat, w: nat)
    requires a < Pow2(w)
    ensures And(a, Pow2(w) - 1) == a
    decreases w
  {
    if w > 0 && a > 0 {
      AndOnes(a / 2, w - 1);
      assert (Pow2(w) - 1) / 2 == Pow2(w - 1) - 1;
    }
  }

  /** Masking with the complement of 2^k - 1 clears the remainder by 2^k. */
  lemma {:induction false} AndMask(a: nat, w: nat, k: nat)
    requires a < Pow2(w) && k <= w
    ensures Pow2(k) <= Pow2(w)
    ensures And(a, Pow2(w) - Pow2(k)) == a - a % Pow2(k)
    decreases k
  {
    if k == 0 {
      AndOnes(a, w);
    } else {
      AndMask(a / 2, w - 1, k - 1);
      var m := Pow2(w) - Pow2(k);
      assert m == 2 * (Pow2(w - 1) - Pow2(k - 1));
      HalfRemainder(a, Pow2(k - 1));
    }
  }

  lemma HalfRemainder(a: nat, p: nat)
    requires p > 0
    ensures a % (2 * p) == 2 * ((a / 2) % p) + a % 2
  {
    var q, r := (a / 2) / p, (a / 2) % p;
    assert a == 2 * (q * p + r) + a % 2;
    assert 2 * (q * p) == q * (2 * p) by {
      assert 2 * (q * p) == (2 * q) * p == (q * 2) * p == q * (2 * p);
    }
    Quotient(a, 2 * p, q, 2 * r + a % 2);
  }

  lemma WordIsPow2()
    ensures WORD == Pow2(WORD_BITS)
  {
    assert Pow2(4) == 0x10;
    hide Pow2;
    Pow2Add(4, 4);
    Pow2Add(8, 8);
    assert Pow2(16) == 0x1_0000;
    Pow2Add(16, 16);
    assert Pow2(32) == 0x1_0000_0000;
    Pow2Add(32, 32);
  }

  predicate IsPageSize(p: nat) {
    0 < p < WORD && And(p, p - 1) == 0
  }

  function Mask(pageSize: nat): nat
    requires IsPageSize(pageSize)
  {
    WORD - pageSize
  }

  function PageOf(address: nat, pageSize: nat): nat
    requires IsPageSize(pageSize)
  {
    And(address, Mask(pageSize))
  }

  lemma {:induction false} Pow2Increases(m: nat, n: nat)
    ensures m < n ==> Pow2(m) < Pow2(n)
    decreases n
  {
    if m < n {
      Pow2Increases(m, n - 1);
    }
  }

  /** The mask and the remainder agree on every address. */
  lemma PageOfIs(address: nat, pageSize: nat)
    requires IsPageSize(pageSize) && address < WORD
    ensures PageOf(address, pageSize) == address - address % pageSize
    ensures WORD % pageSize == 0
  {
    hide And, Pow2;
    PowerOfTwoIff(pageSize);
    var k: nat :| pageSize == Pow2(k);
    WordIsPow2();
    if k > WORD_BITS {
      Pow2Increases(WORD_BITS, k);
    }
    AndMask(address, WORD_BITS, k);
    Pow2Add(k, WORD_BITS - k);
    Quotient(WORD, pageSize, Pow2(WORD_BITS - k), 0);
  }
}
