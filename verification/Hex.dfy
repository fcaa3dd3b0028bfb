/**
 Hexadecimal encoding with the lower-case alphabet.  Shifts, masks and the union of disjoint bits
 are written as products, remainders and sums.
 */
module Hex {
  import opened Octets
  import opened Options

  /** The letters 0-9 and a-f. */
  function Letter(n: int): Octet
    requires 0 <= n < 16
  {
    if n < 10 then n + 0x30 else n - 10 + 0x61
  }

  const LOOKUP_SIZE := 103

  /** The lookup table ends at the letter f and holds 0 for all that is not a digit of the alphabet. */
  function Lookup(c: Octet): (n: Octet)
    requires c < LOOKUP_SIZE
    ensures n < 16
  {
    if 0x30 <= c <= 0x39 then c - 0x30 else if 0x61 <= c <= 0x66 then c - 0x61 + 10 else 0
  }

  function Pair(x: Octet): (p: Bytes)
    ensures |p| == 2
  {
    [Letter(x / 16), Letter(x % 16)]
  }

  function Joined(c: Octet, d: Octet): Octet
    requires c < LOOKUP_SIZE && d < LOOKUP_SIZE
  {
    16 * Lookup(c) + Lookup(d)
  }

  function Encoded(b: Bytes): (s: Bytes)
    ensures |s| == 2 * |b|
  {
    if b == [] then [] else Encoded(b[..|b| - 1]) + Pair(b[|b| - 1])
  }

  predicate InTable(s: Bytes) {
    forall i | 0 <= i < |s| :: s[i] < LOOKUP_SIZE
  }

  function Decoded(s: Bytes): (b: Bytes)
    requires |s| % 2 == 0 && InTable(s)
    ensures |b| == |s| / 2
  {
    if s == [] then [] else Decoded(s[..|s| - 2]) + [Joined(s[|s| - 2], s[|s| - 1])]
  }

  method Encode(input: Bytes) returns (output: Bytes)
    ensures output == Encoded(input)
  {
    var size := |input|;
    var out := new Octet[size * 2](_ => 0);
    var i, j := 0, 0;
    assert out[..0] == [];
    while i != size
      invariant 0 <= i <= size && j == 2 * i
      invariant out[..j] == Encoded(input[..i])
    {
      assert input[..i + 1][..i] == input[..i];
      out[j] := Letter(input[i] / 16);
      j := j + 1;
      out[j] := Letter(input[i] % 16);
      j := j + 1;
      assert out[..j] == out[..j - 2] + Pair(input[i]);
      i := i + 1;
    }
    assert input[..size] == input && out[..j] == out[..];
    output := out[..];
  }

  /** None for an odd number of characters, which is an error. */
  method Decode(input: Bytes) returns (output: Option<Bytes>)
    requires InTable(input)
    ensures output == if |input| % 2 == 1 then None else Some(Decoded(input))
  {
    var size := |input|;
    if size % 2 == 1 {
      return None;
    }
    var out := new Octet[size / 2](_ => 0);
    var i, j := 0, 0;
    assert out[..0] == [];
    while i != size / 2
      invariant 0 <= i <= size / 2 && j == 2 * i
      invariant out[..i] == Decoded(input[..j])
    {
      assert input[..j + 2][..j] == input[..j];
      out[i] := 16 * Lookup(input[j]);
      j := j + 1;
      out[i] := out[i] + Lookup(input[j]);
      j := j + 1;
      assert out[..i + 1] == out[..i] + [Joined(input[j - 2], input[j - 1])];
      i := i + 1;
    }
    assert input[..j] == input && out[..i] == out[..];
    return Some(out[..]);
  }

  lemma PairInTable(x: Octet)
    ensures Pair(x)[0] < LOOKUP_SIZE && Pair(x)[1] < LOOKUP_SIZE
  {
  }

  lemma ByteReadBack(x: Octet)
    ensures InTable(Pair(x)) && Joined(Pair(x)[0], Pair(x)[1]) == x
  {
  }

  /** Decoding gives back whatever was encoded. */
  lemma {:induction false} RoundTrip(b: Bytes)
    ensures InTable(Encoded(b)) && Decoded(Encoded(b)) == b
    decreases |b|
  {
    if b != [] {
      hide Encoded, Decoded, Pair, Joined, InTable;
      var front, x := b[..|b| - 1], b[|b| - 1];
      RoundTrip(front);
      ByteReadBack(x);
      OneMoreByte(front, x);
      assert front + [x] == b;
      PairInTable(x);
      OneMorePair(Encoded(front), Pair(x)[0], Pair(x)[1]);
      assert [Pair(x)[0], Pair(x)[1]] == Pair(x);
    }
  }

  predicate IsDigit(c: Octet) {
    0x30 <= c <= 0x39 || 0x61 <= c <= 0x66
  }

  lemma PairReadBack(c: Octet, d: Octet)
    requires c < LOOKUP_SIZE && d < LOOKUP_SIZE
    ensures Pair(Joined(c, d)) == [c, d] <==> IsDigit(c) && IsDigit(d)
  {
    var h, l := Lookup(c), Lookup(d);
    assert (16 * h + l) / 16 == h && (16 * h + l) % 16 == l;
  }

  /** Encoding gives back what was decoded exactly when it was all digits of the alphabet. */
  lemma {:induction false} ReencodedIff(s: Bytes)
    requires |s| % 2 == 0 && InTable(s)
    ensures Encoded(Decoded(s)) == s <==> forall i | 0 <= i < |s| :: IsDigit(s[i])
    decreases |s|
  {
    hide Encoded, Decoded, Pair, Joined, IsDigit;
    if s == [] {
      NoBytes();
    } else {
      var front, c, d := s[..|s| - 2], s[|s| - 2], s[|s| - 1];
      ReencodedIff(front);
      OnePairIff(front, c, d);
      assert s == front + [c, d];
    }
  }

  lemma NoBytes()
    ensures Encoded(Decoded([])) == []
  {
  }

  lemma {:induction false} OneMoreByte(b: Bytes, x: Octet)
    ensures Encoded(b + [x]) == Encoded(b) + Pair(x)
  {
    assert (b + [x])[..|b|] == b;
  }

  lemma {:induction false} OneMorePair(front: Bytes, c: Octet, d: Octet)
    requires |front| % 2 == 0 && InTable(front) && c < LOOKUP_SIZE && d < LOOKUP_SIZE
    ensures InTable(front + [c, d]) && Decoded(front + [c, d]) == Decoded(front) + [Joined(c, d)]
  {
    assert (front + [c, d])[..|front|] == front;
  }

  lemma {:induction false} OnePairIff(front: Bytes, c: Octet, d: Octet)
    requires |front| % 2 == 0 && InTable(front) && c < LOOKUP_SIZE && d < LOOKUP_SIZE
    ensures InTable(front + [c, d])
    ensures Encoded(Decoded(front + [c, d])) == front + [c, d] <==> Encoded(Decoded(front)) == front && IsDigit(c) && IsDigit(d)
  {
    hide Encoded, Decoded, Pair, Joined, IsDigit;
    OneMorePair(front, c, d);
    OneMoreByte(Decoded(front), Joined(c, d));
    PairReadBack(c, d);
    SameParts(Encoded(Decoded(front)), Pair(Joined(c, d)), front, [c, d]);
  }

  // ---------------------------------------------------------------- the digits

  const ALPHABET: string := "0123456789abcdef"

  /** Byte i is written as its high digit in base 16, and then its low digit. */
  lemma {:induction false} DigitsOfByte(b: Bytes, i: nat)
    requires i < |b|
    ensures Encoded(b)[2 * i] == ALPHABET[b[i] / 16] as int && Encoded(b)[2 * i + 1] == ALPHABET[b[i] % 16] as int
    decreases |b|
  {
    if i < |b| - 1 {
      DigitsOfByte(b[..|b| - 1], i);
    } else {
      LetterIs(b[i] / 16);
      LetterIs(b[i] % 16);
    }
  }

  lemma LetterIs(n: nat)
    requires n < 16
    ensures Letter(n) == ALPHABET[n] as int
  {
  }

  /** The value of a character: its place in the alphabet, or 0 for one that is not in it. */
  predicate StandsFor(c: Octet, n: nat) {
    if c as char in ALPHABET then n < 16 && ALPHABET[n] == c as char else n == 0
  }

  /** Two characters are read as a number in base 16. */
  lemma {:induction false} ByteOfDigits(s: Bytes, i: nat, high: nat, low: nat)
    requires |s| % 2 == 0 && InTable(s) && 2 * i < |s| && StandsFor(s[2 * i], high) && StandsFor(s[2 * i + 1], low)
    ensures Decoded(s)[i] == 16 * high + low
    decreases |s|
  {
    if 2 * i < |s| - 2 {
      ByteOfDigits(s[..|s| - 2], i, high, low);
    } else {
      LookupIs(s[2 * i], high);
      LookupIs(s[2 * i + 1], low);
    }
  }

  lemma LookupIs(c: Octet, n: nat)
    requires c < LOOKUP_SIZE && StandsFor(c, n)
    ensures Lookup(c) == n
  {
    if 0x30 <= c <= 0x39 {
      assert ALPHABET[c - 0x30] == c as char;
    } else if 0x61 <= c <= 0x66 {
      assert ALPHABET[c - 0x61 + 10] == c as char;
    }
  }
}
