/**
 Base64 encoding, RFC 4648 section 4, in groups of three bytes and four characters.  Shifts, masks
 and the union of disjoint bits are written as products, quotients, remainders and sums.
 */
module Base64 {
  import opened Arithmetic
  import opened Octets
  import opened Options

  type Sextet = x: int | 0 <= x < 64

  const PAD: Octet := 0x3D

  const WORD := 0x1_0000_0000

  /** A-Z, a-z, 0-9, + and /. */
  function Letter(n: Sextet): (c: Octet)
    ensures c != PAD
  {
    if n < 26 then n + 0x41
    else if n < 52 then n - 26 + 0x61
    else if n < 62 then n - 52 + 0x30
    else if n == 62 then 0x2B
    else 0x2F
  }

  predicate IsLetter(c: Octet) {
    0x41 <= c <= 0x5A || 0x61 <= c <= 0x7A || 0x30 <= c <= 0x39 || c == 0x2B || c == 0x2F
  }

  /** The six bits a letter stands for. */
  function BitsOf(c: Octet): (n: Sextet)
    requires IsLetter(c)
    ensures Letter(n) == c
  {
    if 0x41 <= c <= 0x5A then c - 0x41
    else if 0x61 <= c <= 0x7A then c - 0x47
    else if 0x30 <= c <= 0x39 then c + 0x04
    else if c == 0x2B then 0x3E
    else 0x3F
  }

  lemma BitsOfLetter(n: Sextet)
    ensures IsLetter(Letter(n)) && BitsOf(Letter(n)) == n
  {
  }

  // ---------------------------------------------------------------- the encoding by groups

  type Group = x: int | 0 <= x < 0x100_0000

  function GroupOf(x: Octet, y: Octet, z: Octet): Group {
    x * 0x1_0000 + y * 0x100 + z
  }

  function Sixth(g: Group, i: nat): Sextet
    requires i < 4
  {
    if i == 0 then g / 0x4_0000
    else if i == 1 then g / 0x1000 % 64
    else if i == 2 then g / 64 % 64
    else g % 64
  }

  function Four(g: Group): (f: Bytes)
    ensures |f| == 4
  {
    [Letter(Sixth(g, 0)), Letter(Sixth(g, 1)), Letter(Sixth(g, 2)), Letter(Sixth(g, 3))]
  }

  /** One or two bytes that remain are padded. */
  function Tail(b: Bytes): (t: Bytes)
    requires |b| < 3
    ensures |t| == if b == [] then 0 else 4
  {
    if |b| == 1 then Four(GroupOf(b[0], 0, 0))[..2] + [PAD, PAD]
    else if |b| == 2 then Four(GroupOf(b[0], b[1], 0))[..3] + [PAD]
    else []
  }

  function Encoded(b: Bytes): Bytes {
    if |b| < 3 then Tail(b) else Four(GroupOf(b[0], b[1], b[2])) + Encoded(b[3..])
  }

  lemma {:induction false} EncodedSize(b: Bytes)
    ensures |Encoded(b)| == 4 * ((|b| + 2) / 3)
    decreases |b|
  {
    hide Tail, Four, GroupOf;
    if |b| >= 3 {
      EncodedSize(b[3..]);
      assert (|b| - 3 + 2) / 3 == (|b| + 2) / 3 - 1;
    }
  }

  // ---------------------------------------------------------------- the decoding by groups

  function Join(a: Sextet, b: Sextet, c: Sextet, d: Sextet): Group {
    a * 0x4_0000 + b * 0x1000 + c * 64 + d
  }

  function Byte(temp: nat, i: nat): Octet
    requires i < 3
  {
    if i == 0 then temp / 0x1_0000 % 256 else if i == 1 then temp / 0x100 % 256 else temp % 256
  }

  /** The bytes of four characters; padding is allowed in the last group only. */
  function FourDecoded(a: Octet, b: Octet, c: Octet, d: Octet, isLast: bool): Option<Bytes> {
    if !IsLetter(a) || !IsLetter(b) then None
    else if c == PAD then
      if isLast then Some([Byte(Join(BitsOf(a), BitsOf(b), 0, 0), 0)]) else None
    else if !IsLetter(c) then None
    else if d == PAD then
      var g := Join(BitsOf(a), BitsOf(b), BitsOf(c), 0);
      if isLast then Some([Byte(g, 0), Byte(g, 1)]) else None
    else if !IsLetter(d) then None
    else
      var g := Join(BitsOf(a), BitsOf(b), BitsOf(c), BitsOf(d));
      Some([Byte(g, 0), Byte(g, 1), Byte(g, 2)])
  }

  function Decoded(s: Bytes): Option<Bytes> {
    if s == [] then Some([])
    else if |s| < 4 then None
    else
      var four := FourDecoded(s[0], s[1], s[2], s[3], |s| == 4);
      var rest := Decoded(s[4..]);
      if four.Some? && rest.Some? then Some(four.value + rest.value) else None
  }

  lemma BytesOfGroup(x: Octet, y: Octet, z: Octet)
    ensures var g := GroupOf(x, y, z); Byte(g, 0) == x && Byte(g, 1) == y && Byte(g, 2) == z
  {
    var g := GroupOf(x, y, z);
    Quotient(g, 0x1_0000, x, y * 0x100 + z);
    Quotient(g, 0x100, x * 0x100 + y, z);
    Quotient(x * 0x100 + y, 0x100, x, y);
  }

  lemma GroupOfBytes(g: Group)
    ensures GroupOf(Byte(g, 0), Byte(g, 1), Byte(g, 2)) == g
  {
    var high, low := g / 0x100, g % 0x100;
    Quotient(g, 0x1_0000, high / 0x100, high % 0x100 * 0x100 + low);
  }

  lemma SixthsJoin(g: Group)
    ensures Join(Sixth(g, 0), Sixth(g, 1), Sixth(g, 2), Sixth(g, 3)) == g
  {
    var q1 := g / 64;
    var q2 := q1 / 64;
    Quotient(g, 0x1000, q2, q1 % 64 * 64 + g % 64);
    Quotient(g, 0x4_0000, q2 / 64, q2 % 64 * 0x1000 + q1 % 64 * 64 + g % 64);
  }

  lemma SixthsOfJoin(a: Sextet, b: Sextet, c: Sextet, d: Sextet)
    ensures var g := Join(a, b, c, d); Sixth(g, 0) == a && Sixth(g, 1) == b && Sixth(g, 2) == c && Sixth(g, 3) == d
  {
    var g := Join(a, b, c, d);
    assert g / 64 == a * 0x1000 + b * 64 + c;
    assert g / 0x1000 == a * 64 + b;
    assert g / 0x4_0000 == a;
  }

  lemma FourJoined(g: Group)
    ensures var f := Four(g);
            && IsLetter(f[0]) && IsLetter(f[1]) && IsLetter(f[2]) && IsLetter(f[3])
            && BitsOf(f[2]) == Sixth(g, 2) && BitsOf(f[3]) == Sixth(g, 3)
            && Join(BitsOf(f[0]), BitsOf(f[1]), BitsOf(f[2]), BitsOf(f[3])) == g
  {
    BitsOfLetter(Sixth(g, 0));
    BitsOfLetter(Sixth(g, 1));
    BitsOfLetter(Sixth(g, 2));
    BitsOfLetter(Sixth(g, 3));
    SixthsJoin(g);
    hide Letter, BitsOf, IsLetter, Sixth, Join;
  }

  lemma FourReadBack(x: Octet, y: Octet, z: Octet, isLast: bool)
    ensures var f := Four(GroupOf(x, y, z)); FourDecoded(f[0], f[1], f[2], f[3], isLast) == Some([x, y, z])
  {
    hide Letter, BitsOf, Sixth, Join, Byte, GroupOf, IsLetter;
    BytesOfGroup(x, y, z);
    FourJoined(GroupOf(x, y, z));
  }

  lemma TailBits(x: Octet, y: Octet)
    ensures Sixth(GroupOf(x, y, 0), 3) == 0 && Sixth(GroupOf(x, 0, 0), 2) == 0
  {
    Quotient(GroupOf(x, y, 0), 64, x * 0x400 + y * 4, 0);
    Quotient(GroupOf(x, 0, 0), 64, x * 0x400, 0);
    Quotient(x * 0x400, 64, x * 16, 0);
  }

  lemma TailReadBack(b: Bytes)
    requires 1 <= |b| <= 2
    ensures var t := Tail(b); FourDecoded(t[0], t[1], t[2], t[3], true) == Some(b)
  {
    hide Letter, BitsOf, Sixth, Byte, GroupOf, Join, IsLetter;
    var y := if |b| == 2 then b[1] else 0;
    var g := GroupOf(b[0], y, 0);
    BytesOfGroup(b[0], y, 0);
    FourJoined(g);
    TailBits(b[0], y);
    var f := Four(g);
    if |b| == 1 {
      assert b == [b[0]];
      assert FourDecoded(f[0], f[1], PAD, PAD, true) == Some([b[0]]);
    } else {
      assert b == [b[0], b[1]];
      assert FourDecoded(f[0], f[1], f[2], PAD, true) == Some([b[0], b[1]]);
    }
  }

  /** Decoding gives back every sequence of bytes that was encoded. */
  lemma {:induction false} RoundTrip(b: Bytes)
    ensures Decoded(Encoded(b)) == Some(b)
    decreases |b|
  {
    hide Four, FourDecoded, GroupOf;
    if b == [] {
    } else if |b| <= 2 {
      TailReadBack(b);
      assert Tail(b)[4..] == [];
      assert b + [] == b;
    } else {
      RoundTrip(b[3..]);
      FourReadBack(b[0], b[1], b[2], |b| == 3);
      var e := Encoded(b);
      assert e[4..] == Encoded(b[3..]);
      assert [b[0], b[1], b[2]] + b[3..] == b;
      EncodedSize(b[3..]);
    }
  }

  // ---------------------------------------------------------------- what is accepted besides

  /** The padding is whole, and the bits it leaves unused are zero. */
  predicate IsCanonical(s: Bytes) {
    |s| < 4 ||
    var t := s[|s| - 4..];
    && (t[2] == PAD && IsLetter(t[1]) ==> t[3] == PAD && BitsOf(t[1]) % 16 == 0)
    && (t[2] != PAD && t[3] == PAD && IsLetter(t[2]) ==> BitsOf(t[2]) % 4 == 0)
  }

  lemma WholeReencoded(a: Octet, b: Octet, c: Octet, d: Octet, isLast: bool)
    requires c != PAD && d != PAD && FourDecoded(a, b, c, d, isLast).Some?
    ensures var x := FourDecoded(a, b, c, d, isLast).value; |x| == 3 && Four(GroupOf(x[0], x[1], x[2])) == [a, b, c, d]
  {
    hide Letter, IsLetter, Sixth, Byte, GroupOf, Join;
    var g := Join(BitsOf(a), BitsOf(b), BitsOf(c), BitsOf(d));
    GroupOfBytes(g);
    SixthsOfJoin(BitsOf(a), BitsOf(b), BitsOf(c), BitsOf(d));
  }

  lemma UnusedFour(a: Sextet, b: Sextet)
    ensures var g := GroupOf(Byte(Join(a, b, 0, 0), 0), 0, 0); Sixth(g, 0) == a && Sixth(g, 1) == b / 16 * 16
  {
    var x := Byte(Join(a, b, 0, 0), 0);
    assert x == a * 4 + b / 16;
    assert GroupOf(x, 0, 0) == Join(a, b / 16 * 16, 0, 0);
    SixthsOfJoin(a, b / 16 * 16, 0, 0);
  }

  lemma BytesOfJoin(a: Sextet, b: Sextet, c: Sextet)
    ensures Byte(Join(a, b, c, 0), 0) == a * 4 + b / 16
    ensures Byte(Join(a, b, c, 0), 1) == b % 16 * 16 + c / 4
  {
    var g := Join(a, b, c, 0);
    var x, y := a * 4 + b / 16, b % 16 * 16 + c / 4;
    Quotient(g, 0x100, x * 0x100 + y, c % 4 * 64);
    Quotient(g, 0x1_0000, x, y * 0x100 + c % 4 * 64);
    Quotient(x * 0x100 + y, 0x100, x, y);
  }

  lemma UnusedTwo(a: Sextet, b: Sextet, c: Sextet)
    ensures var g := GroupOf(Byte(Join(a, b, c, 0), 0), Byte(Join(a, b, c, 0), 1), 0);
            Sixth(g, 0) == a && Sixth(g, 1) == b && Sixth(g, 2) == c / 4 * 4
  {
    BytesOfJoin(a, b, c);
    hide Byte;
    assert GroupOf(a * 4 + b / 16, b % 16 * 16 + c / 4, 0) == Join(a, b, c / 4 * 4, 0);
    SixthsOfJoin(a, b, c / 4 * 4, 0);
    hide Sixth, Join;
  }

  lemma SameLetter(m: Sextet, n: Sextet)
    ensures Letter(m) == Letter(n) <==> m == n
  {
    BitsOfLetter(m);
    BitsOfLetter(n);
  }

  lemma PaddedReencodedIff(a: Octet, b: Octet, c: Octet, d: Octet)
    requires (c == PAD || d == PAD) && FourDecoded(a, b, c, d, true).Some?
    ensures var x := FourDecoded(a, b, c, d, true).value;
            1 <= |x| <= 2 && (Tail(x) == [a, b, c, d] <==> IsCanonical([a, b, c, d]))
  {
    var s, t := [a, b, c, d], Tail(FourDecoded(a, b, c, d, true).value);
    assert s[|s| - 4..] == s;
    var sixths := if c == PAD then 0 else BitsOf(c);
    UnusedFour(BitsOf(a), BitsOf(b));
    UnusedTwo(BitsOf(a), BitsOf(b), sixths);
    SameLetter(BitsOf(b) / 16 * 16, BitsOf(b));
    SameLetter(sixths / 4 * 4, sixths);
    hide Letter, IsLetter, Sixth, Byte, GroupOf, Join;
    assert t == s <==> t[0] == a && t[1] == b && t[2] == c && t[3] == d;
  }

  /** Encoding what was decoded gives the input back exactly when its padding was canonical. */
  lemma {:induction false} ReencodedIff(s: Bytes)
    requires |s| % 4 == 0 && Decoded(s).Some?
    ensures Encoded(Decoded(s).value) == s <==> IsCanonical(s)
    decreases |s|
  {
    hide FourDecoded, Four, GroupOf, IsLetter;
    if s != [] {
      var rest := s[4..];
      ReencodedIff(rest);
      if s[2] != PAD && s[3] != PAD {
        CanonicalRest(s);
        WholeReencodedIff(s);
      } else {
        PaddedReencodedLast(s);
      }
    }
  }

  lemma CanonicalRest(s: Bytes)
    requires |s| >= 4 && |s| % 4 == 0 && s[2] != PAD && s[3] != PAD
    ensures IsCanonical(s) <==> IsCanonical(s[4..])
  {
    if |s| > 4 {
      assert s[|s| - 4..] == s[4..][|s| - 8..];
    } else {
      assert s[|s| - 4..] == s;
    }
  }

  lemma {:induction false} WholeReencodedIff(s: Bytes)
    requires |s| >= 4 && Decoded(s).Some? && s[2] != PAD && s[3] != PAD
    ensures Decoded(s[4..]).Some?
    ensures Encoded(Decoded(s).value) == s <==> Encoded(Decoded(s[4..]).value) == s[4..]
  {
    hide FourDecoded, Four, GroupOf;
    var b, rest := Decoded(s).value, s[4..];
    WholeReencoded(s[0], s[1], s[2], s[3], |s| == 4);
    assert b[3..] == Decoded(rest).value;
    assert s == [s[0], s[1], s[2], s[3]] + rest;
    SameParts(Four(GroupOf(b[0], b[1], b[2])), Encoded(b[3..]), [s[0], s[1], s[2], s[3]], rest);
  }

  lemma {:induction false} PaddedReencodedLast(s: Bytes)
    requires |s| >= 4 && Decoded(s).Some? && (s[2] == PAD || s[3] == PAD)
    ensures Encoded(Decoded(s).value) == s <==> IsCanonical(s)
  {
    hide FourDecoded, Four, GroupOf, IsCanonical, Tail;
    PaddedIsLast(s[0], s[1], s[2], s[3], |s| == 4);
    PaddedReencodedIff(s[0], s[1], s[2], s[3]);
    var four := FourDecoded(s[0], s[1], s[2], s[3], true).value;
    assert s == [s[0], s[1], s[2], s[3]];
    assert s[4..] == [] && four + [] == four;
  }

  lemma PaddedIsLast(a: Octet, b: Octet, c: Octet, d: Octet, isLast: bool)
    requires (c == PAD || d == PAD) && FourDecoded(a, b, c, d, isLast).Some?
    ensures isLast
  {
  }

  // ---------------------------------------------------------------- the encoder

  lemma OneMoreGroup(done: Bytes, input: Bytes, cursor: nat)
    requires cursor + 3 <= |input|
    ensures done + Encoded(input[cursor..])
            == done + Four(GroupOf(input[cursor], input[cursor + 1], input[cursor + 2])) + Encoded(input[cursor + 3..])
  {
    assert input[cursor..][3..] == input[cursor + 3..];
    hide Four, GroupOf, Tail;
  }

  lemma {:induction false} LastGroup(rest: Bytes)
    requires |rest| < 3
    ensures Encoded(rest) == Tail(rest)
  {
  }

  method Encode(input: Bytes) returns (output: Bytes)
    ensures output == Encoded(input) && |output| == 4 * ((|input| + 2) / 3)
  {
    hide Four, GroupOf, Tail, Encoded;
    EncodedSize(input);
    var out := new Octet[(|input| / 3 + if |input| % 3 > 0 then 1 else 0) * 4](_ => 0);
    var commonOutputSize := (|input| / 3) * 4;
    var cursor, i := 0, 0;
    assert out[..0] == [] && input[0..] == input;
    while i < commonOutputSize
      invariant i <= commonOutputSize && 3 * i == 4 * cursor && cursor <= |input|
      invariant out[..i] + Encoded(input[cursor..]) == Encoded(input)
    {
      var temp := GroupOf(input[cursor], input[cursor + 1], input[cursor + 2]);
      ghost var done := out[..i];
      OneMoreGroup(done, input, cursor);
      WriteLetters(out, i, temp, 4);
      assert out[..i + 4] == done + Four(temp);
      i, cursor := i + 4, cursor + 3;
    }
    LastGroup(input[cursor..]);
    EncodeTail(input[cursor..], out, i);
    output := out[..];
  }

  /** Writes the first letters of a group. */
  method WriteLetters(out: array<Octet>, i: nat, temp: Group, letters: nat)
    requires i + letters <= out.Length && letters <= 4
    modifies out
    ensures out[..i] == old(out[..i]) && out[i..i + letters] == Four(temp)[..letters]
    ensures out[i + letters..] == old(out[i + letters..])
  {
    hide Letter, Sixth;
    for k := 0 to letters
      invariant out[..i] == old(out[..i]) && out[i..i + k] == Four(temp)[..k]
      invariant out[i + letters..] == old(out[i + letters..])
    {
      out[i + k] := Letter(Sixth(temp, k));
      assert out[i..i + k + 1] == out[i..i + k] + [Letter(Sixth(temp, k))];
    }
  }

  /** The last one or two bytes, and the padding. */
  method EncodeTail(rest: Bytes, out: array<Octet>, i: nat)
    requires |rest| < 3 && out.Length == i + |Tail(rest)|
    modifies out
    ensures out[..] == old(out[..i]) + Tail(rest)
  {
    hide Letter, Sixth, Four, GroupOf;
    if |rest| == 1 {
      WriteLetters(out, i, GroupOf(rest[0], 0, 0), 2);
      ghost var before, letters := out[..i], out[i..i + 2];
      out[i + 2], out[i + 3] := PAD, PAD;
      assert out[..i] == before && out[i..i + 2] == letters;
      assert out[..] == before + letters + [PAD, PAD];
    } else if |rest| == 2 {
      WriteLetters(out, i, GroupOf(rest[0], rest[1], 0), 3);
      ghost var before, letters := out[..i], out[i..i + 3];
      out[i + 3] := PAD;
      assert out[..i] == before && out[i..i + 3] == letters;
      assert out[..] == before + letters + [PAD];
    } else {
      assert out[..] == out[..i];
    }
  }

  // ---------------------------------------------------------------- the decoder

  type Word = x: int | 0 <= x < WORD

  /** The accumulator with six more bits; the highest are lost, and what was there before stays. */
  function Push(temp: Word, n: Sextet): Word {
    temp * 64 % WORD + n
  }

  /** The bits of the first letters of a group. */
  function Quantum(s: Bytes, letters: nat): int
    requires letters <= 4 && letters <= |s| && forall i | 0 <= i < letters :: IsLetter(s[i])
  {
    if letters == 0 then 0 else Quantum(s, letters - 1) * 64 + BitsOf(s[letters - 1])
  }

  /** What the accumulator holds of the current group; the bits above are left from earlier groups. */
  function Low(temp: Word, letters: nat): int
    requires letters <= 4
  {
    temp % if letters == 0 then 1 else if letters == 1 then 64 else if letters == 2 then 0x1000
           else if letters == 3 then 0x4_0000 else 0x100_0000
  }

  lemma PushModulo(temp: Word, n: Sextet, size: int, k: int)
    requires size > 0 && k * (size * 64) == WORD
    ensures Push(temp, n) % (size * 64) == temp % size * 64 + n
  {
    var q, low, u, d := temp / size, temp % size, temp * 64 / WORD, size * 64;
    assert temp * 64 == q * d + low * 64 by {
      assert temp == q * size + low;
      assert q * size * 64 == q * d;
    }
    assert u * WORD == (u * k) * d by {
      assert u * WORD == u * (k * d) == (u * k) * d;
    }
    assert Push(temp, n) == temp * 64 - u * WORD + n;
    assert Push(temp, n) == (q - u * k) * d + (low * 64 + n) by {
      assert (q - u * k) * d == q * d - (u * k) * d;
    }
    Quotient(Push(temp, n), d, q - u * k, low * 64 + n);
  }

  lemma LowStep(temp: Word, letters: nat, n: Sextet)
    requires letters < 4
    ensures Low(Push(temp, n), letters + 1) == Low(temp, letters) * 64 + n
  {
    hide Push;
    if letters == 0 {
      PushModulo(temp, n, 1, 0x400_0000);
    } else if letters == 1 {
      PushModulo(temp, n, 64, 0x10_0000);
    } else if letters == 2 {
      PushModulo(temp, n, 0x1000, 0x4000);
    } else {
      PushModulo(temp, n, 0x4_0000, 0x100);
    }
  }

  lemma BytesOfLow(temp: Word)
    ensures Byte(Low(temp, 4), 0) == Byte(temp, 0) && Byte(Low(temp, 4), 1) == Byte(temp, 1)
    ensures Byte(Low(temp, 4), 2) == Byte(temp, 2)
  {
    var t, low := temp / 0x100_0000, Low(temp, 4);
    assert temp == t * 0x100_0000 + low;
    Quotient(temp, 0x1_0000, t * 0x100 + low / 0x1_0000, low % 0x1_0000);
    Quotient(temp, 0x100, t * 0x1_0000 + low / 0x100, low % 0x100);
    Quotient(t * 0x100 + low / 0x1_0000, 0x100, t, low / 0x1_0000);
    Quotient(t * 0x1_0000 + low / 0x100, 0x100, t * 0x100 + low / 0x100 / 0x100, low / 0x100 % 0x100);
  }

  /** The byte of a group which has two letters and one shift too few. */
  function Byte10(temp: Word): Octet {
    temp / 0x400 % 256
  }

  /** A group cut short by padding: the bits are not yet in the place they have in a whole group. */
  lemma BytesOfPadded(temp: Word, a: Sextet, b: Sextet, c: Sextet)
    ensures Low(temp, 2) == a * 64 + b ==> Byte10(Push(temp, 0)) == Byte(Join(a, b, 0, 0), 0)
    ensures Low(temp, 3) == a * 0x1000 + b * 64 + c ==>
              Byte(Push(temp, 0), 0) == Byte(Join(a, b, c, 0), 0) && Byte(Push(temp, 0), 1) == Byte(Join(a, b, c, 0), 1)
  {
    LowStep(temp, 2, 0);
    LowStep(temp, 3, 0);
    BytesOfLow(Push(temp, 0));
    if Low(temp, 2) == a * 64 + b {
      PaddedTwice(Push(temp, 0), a, b);
    }
    assert Low(temp, 3) == a * 0x1000 + b * 64 + c ==> Low(Push(temp, 0), 4) == Join(a, b, c, 0);
  }

  lemma PaddedTwice(temp: Word, a: Sextet, b: Sextet)
    requires Low(temp, 3) == (a * 64 + b) * 64
    ensures Byte10(temp) == Byte(Join(a, b, 0, 0), 0)
  {
    BytesOfJoin(a, b, 0);
    var t := temp / 0x4_0000;
    Quotient(temp, 0x400, t * 0x100 + (a * 4 + b / 16), b % 16 * 64);
    Quotient(t * 0x100 + (a * 4 + b / 16), 0x100, t, a * 4 + b / 16);
  }

  lemma {:induction false} EndsOnce(s: Bytes, temp: Word)
    requires |s| == 4 && IsLetter(s[0]) && IsLetter(s[1]) && IsLetter(s[2]) && s[3] == PAD
    requires Low(temp, 3) == Quantum(s, 3)
    ensures FourDecoded(s[0], s[1], s[2], s[3], true) == Some([Byte(Push(temp, 0), 0), Byte(Push(temp, 0), 1)])
  {
    assert s[2] != PAD;
    assert Quantum(s, 3) == (BitsOf(s[0]) * 64 + BitsOf(s[1])) * 64 + BitsOf(s[2]) by {
      assert Quantum(s, 1) == BitsOf(s[0]);
    }
    hide BitsOf, IsLetter, Byte, Low, Push, Join, Quantum;
    BytesOfPadded(temp, BitsOf(s[0]), BitsOf(s[1]), BitsOf(s[2]));
  }

  lemma {:induction false} EndsTwice(s: Bytes, temp: Word)
    requires |s| == 4 && IsLetter(s[0]) && IsLetter(s[1]) && s[2] == PAD && Low(temp, 2) == Quantum(s, 2)
    ensures FourDecoded(s[0], s[1], s[2], s[3], true) == Some([Byte10(Push(temp, 0))])
  {
    assert Quantum(s, 2) == BitsOf(s[0]) * 64 + BitsOf(s[1]) by {
      assert Quantum(s, 1) == BitsOf(s[0]);
    }
    hide BitsOf, IsLetter, Byte, Byte10, Low, Push, Join, Quantum;
    BytesOfPadded(temp, BitsOf(s[0]), BitsOf(s[1]), 0);
  }

  lemma EndsBadly(s: Bytes, letters: nat, isLast: bool)
    requires |s| == 4 && letters < 4 && (forall i | 0 <= i < letters :: IsLetter(s[i])) && !IsLetter(s[letters])
    requires s[letters] == PAD ==> letters < 2 || !isLast
    ensures FourDecoded(s[0], s[1], s[2], s[3], isLast) == None
  {
    assert forall i | 0 <= i < letters :: s[i] != PAD;
    hide BitsOf, IsLetter, Byte, Join;
  }

  lemma {:induction false} WholeRead(s: Bytes, temp: Word, isLast: bool)
    requires |s| == 4 && (forall i | 0 <= i < 4 :: IsLetter(s[i])) && Low(temp, 4) == Quantum(s, 4)
    ensures FourDecoded(s[0], s[1], s[2], s[3], isLast) == Some([Byte(temp, 0), Byte(temp, 1), Byte(temp, 2)])
  {
    BytesOfLow(temp);
    assert s[2] != PAD && s[3] != PAD;
    assert Quantum(s, 4) == Join(BitsOf(s[0]), BitsOf(s[1]), BitsOf(s[2]), BitsOf(s[3])) by {
      assert Quantum(s, 1) == BitsOf(s[0]);
      assert Quantum(s, 2) == BitsOf(s[0]) * 64 + BitsOf(s[1]);
    }
    hide BitsOf, IsLetter, Byte, Join, Low, Quantum;
  }

  /** What becomes of a group: an error, the padded end of the input, or three bytes. */
  datatype Outcome = Failed | Ended(bytes: Bytes) | Whole(bytes: Bytes)

  ghost predicate OutcomeOf(r: Outcome, four: Option<Bytes>, isLast: bool) {
    match r
    case Failed => four == None
    case Ended(bytes) => isLast && four == Some(bytes)
    case Whole(bytes) => four == Some(bytes)
  }

  /** Reads four characters into the accumulator, which is never cleared. */
  method DecodeGroup(input: Bytes, start: nat, accumulator: Word) returns (r: Outcome, temp: Word)
    requires start + 4 <= |input| && |input| % 4 == 0 && start % 4 == 0
    ensures OutcomeOf(r, FourDecoded(input[start], input[start + 1], input[start + 2], input[start + 3], start + 4 == |input|), start + 4 == |input|)
  {
    hide BitsOf, IsLetter, Byte, Byte10, Join, FourDecoded, Low, Push;
    temp := accumulator;
    ghost var s := input[start..start + 4];
    ghost var isLast := start + 4 == |input|;
    NothingRead(temp);
    var cursor := start;
    for quantumPosition := 0 to 4
      invariant cursor == start + quantumPosition
      invariant forall i | 0 <= i < quantumPosition :: IsLetter(s[i])
      invariant Low(temp, quantumPosition) == Quantum(s, quantumPosition)
    {
      var c := input[cursor];
      if IsLetter(c) {
        LowStep(temp, quantumPosition, BitsOf(c));
        temp := Push(temp, BitsOf(c));
      } else if c == PAD {
        if |input| - cursor == 1 {
          EndsOnce(s, temp);
          temp := Push(temp, 0);
          return Ended([Byte(temp, 0), Byte(temp, 1)]), temp;
        } else if |input| - cursor == 2 {
          EndsTwice(s, temp);
          temp := Push(temp, 0);
          return Ended([Byte10(temp)]), temp;
        } else {
          EndsBadly(s, quantumPosition, isLast);
          return Failed, temp;
        }
      } else {
        EndsBadly(s, quantumPosition, isLast);
        return Failed, temp;
      }
      cursor := cursor + 1;
    }
    WholeRead(s, temp, isLast);
    r := Whole([Byte(temp, 0), Byte(temp, 1), Byte(temp, 2)]);
  }

  lemma NothingRead(temp: Word)
    ensures Low(temp, 0) == 0
  {
  }

  /** Decoding what is left goes on after what has been decoded. */
  ghost predicate GoesOn(whole: Option<Bytes>, done: Bytes, rest: Bytes) {
    whole == if Decoded(rest).Some? then Some(done + Decoded(rest).value) else None
  }

  lemma GroupDone(whole: Option<Bytes>, done: Bytes, rest: Bytes)
    requires GoesOn(whole, done, rest) && |rest| >= 4
    ensures var four := FourDecoded(rest[0], rest[1], rest[2], rest[3], |rest| == 4);
            && (four.None? ==> whole == None)
            && (four.Some? ==> GoesOn(whole, done + four.value, rest[4..]))
            && (four.Some? && |rest| == 4 ==> whole == Some(done + four.value))
  {
    hide FourDecoded;
    var four := FourDecoded(rest[0], rest[1], rest[2], rest[3], |rest| == 4);
    if four.Some? && Decoded(rest[4..]).Some? {
      assert done + (four.value + Decoded(rest[4..]).value) == done + four.value + Decoded(rest[4..]).value;
    }
    if four.Some? && |rest| == 4 {
      assert rest[4..] == [];
      assert four.value + [] == four.value;
    }
  }

  lemma {:induction false} NothingDecoded(input: Bytes)
    ensures GoesOn(Decoded(input), [], input)
  {
    if Decoded(input).Some? {
      assert [] + Decoded(input).value == Decoded(input).value;
    }
  }

  lemma NoneLeft(whole: Option<Bytes>, done: Bytes, rest: Bytes)
    requires GoesOn(whole, done, rest) && rest == []
    ensures whole == Some(done)
  {
    assert done + [] == done;
  }

  /** None for a length that is not a multiple of four, and for a misplaced or unknown character. */
  method Decode(input: Bytes) returns (output: Option<Bytes>)
    ensures output == if |input| % 4 != 0 then None else Decoded(input)
  {
    hide FourDecoded, IsLetter, BitsOf, Decoded;
    if |input| % 4 != 0 {
      return None;
    }
    var decodedBytes: Bytes := [];
    var temp: Word := 0;
    var cursor := 0;
    NothingDecoded(input);
    assert input[0..] == input;
    while cursor < |input|
      invariant cursor <= |input| && cursor % 4 == 0
      invariant GoesOn(Decoded(input), decodedBytes, input[cursor..])
    {
      ghost var rest := input[cursor..];
      GroupDone(Decoded(input), decodedBytes, rest);
      var r;
      r, temp := DecodeGroup(input, cursor, temp);
      assert input[cursor + 4..] == rest[4..];
      match r {
        case Failed => return None;
        case Ended(bytes) => return Some(decodedBytes + bytes);
        case Whole(bytes) => decodedBytes := decodedBytes + bytes;
      }
      cursor := cursor + 4;
    }
    NoneLeft(Decoded(input), decodedBytes, input[cursor..]);
    return Some(decodedBytes);
  }

  // ---------------------------------------------------------------- the characters

  /** Table 1 of RFC 4648, in three parts. */
  const UPPER: string := "ABCDEFGHIJKLMNOPQRSTUVWXYZ"
  const LOWER: string := "abcdefghijklmnopqrstuvwxyz"
  const OTHER: string := "0123456789+/"

  /** The character for a digit in base 64. */
  predicate Shows(c: Octet, n: int) {
    && 0 <= n < 64
    && c as char == if n < 26 then UPPER[n] else if n < 52 then LOWER[n - 26] else OTHER[n - 52]
  }

  lemma LetterIs(n: Sextet)
    ensures Shows(Letter(n), n)
  {
  }

  lemma {:induction false} GroupAt(b: Bytes, k: nat)
    requires 3 * k + 3 <= |b|
    ensures |Encoded(b)| >= 4 * k + 4 && Encoded(b)[4 * k..4 * k + 4] == Four(GroupOf(b[3 * k], b[3 * k + 1], b[3 * k + 2]))
    decreases k
  {
    hide Four, GroupOf, Tail;
    if k > 0 {
      GroupAt(b[3..], k - 1);
      var e := Encoded(b[3..]);
      assert Encoded(b)[4..] == e;
      assert Encoded(b)[4 * k..4 * k + 4] == e[4 * k - 4..4 * k];
    }
  }

  /** Group k of three bytes is written as its four digits in base 64, the highest first. */
  lemma {:induction false} DigitsOfGroup(b: Bytes, k: nat)
    requires 3 * k + 3 <= |b|
    ensures |Encoded(b)| >= 4 * k + 4
    ensures var n, e := (b[3 * k] as int) * 0x1_0000 + (b[3 * k + 1] as int) * 0x100 + b[3 * k + 2] as int, Encoded(b);
            && Shows(e[4 * k], n / 0x4_0000) && Shows(e[4 * k + 1], n / 0x1000 % 64)
            && Shows(e[4 * k + 2], n / 64 % 64) && Shows(e[4 * k + 3], n % 64)
  {
    GroupAt(b, k);
    var g := GroupOf(b[3 * k], b[3 * k + 1], b[3 * k + 2]);
    LetterIs(Sixth(g, 0));
    LetterIs(Sixth(g, 1));
    LetterIs(Sixth(g, 2));
    LetterIs(Sixth(g, 3));
    hide Letter, Shows, Encoded;
    var four := Encoded(b)[4 * k..4 * k + 4];
    assert four[0] == Encoded(b)[4 * k] && four[1] == Encoded(b)[4 * k + 1];
    assert four[2] == Encoded(b)[4 * k + 2] && four[3] == Encoded(b)[4 * k + 3];
  }

  /** One or two bytes left are written with zeros for the bits that are missing, and padded. */
  lemma {:induction false} DigitsOfTail(b: Bytes)
    requires |b| == 1 || |b| == 2
    ensures |Encoded(b)| == 4 && Encoded(b)[3] == '=' as int && Shows(Encoded(b)[0], b[0] / 4)
    ensures |b| == 1 ==> Shows(Encoded(b)[1], b[0] % 4 * 16) && Encoded(b)[2] == '=' as int
    ensures |b| == 2 ==> Shows(Encoded(b)[1], b[0] % 4 * 16 + b[1] / 16) && Shows(Encoded(b)[2], b[1] % 16 * 4)
  {
    var y := if |b| == 2 then b[1] else 0;
    TailSixths(b[0], y);
    var g := GroupOf(b[0], y, 0);
    LetterIs(Sixth(g, 0));
    LetterIs(Sixth(g, 1));
    LetterIs(Sixth(g, 2));
    hide Letter, GroupOf, Shows, Sixth;
  }

  lemma TailSixths(x: Octet, y: Octet)
    ensures var g := GroupOf(x, y, 0);
            Sixth(g, 0) == x / 4 && Sixth(g, 1) == x % 4 * 16 + y / 16 && Sixth(g, 2) == y % 16 * 4
  {
    var a: int, b: int := x, y;
    var g := GroupOf(x, y, 0);
    Quotient(g, 0x4_0000, a / 4, a % 4 * 0x1_0000 + b * 0x100);
    Quotient(g, 0x1000, a * 16 + b / 16, b % 16 * 0x100);
    Quotient(a * 16 + b / 16, 64, a / 4, a % 4 * 16 + b / 16);
    Quotient(g, 64, a * 0x400 + b * 4, 0);
    Quotient(a * 0x400 + b * 4, 64, a * 16 + b / 16, b % 16 * 4);
  }

  /** What remains after whole groups is written as a tail. */
  lemma {:induction false} TailAtEnd(b: Bytes)
    ensures |Encoded(b)| == 4 * ((|b| + 2) / 3)
    ensures Encoded(b)[4 * (|b| / 3)..] == Encoded(b[|b| - |b| % 3..])
    decreases |b|
  {
    EncodedSize(b);
    if |b| >= 3 {
      TailAtEnd(b[3..]);
      hide Tail, Four, GroupOf;
      assert b[3..][|b| - 3 - (|b| - 3) % 3..] == b[|b| - |b| % 3..];
      assert Encoded(b)[4 * (|b| / 3)..] == Encoded(b[3..])[4 * (|b| / 3) - 4..];
    } else {
      assert b[|b| - |b| % 3..] == b;
    }
  }

  // ---------------------------------------------------------------- what is decoded

  predicate IsDigit(c: Octet) {
    c as char in UPPER || c as char in LOWER || c as char in OTHER
  }

  lemma LetterIff(c: Octet)
    ensures IsLetter(c) <==> IsDigit(c)
  {
    if IsLetter(c) {
      LetterIs(BitsOf(c));
    }
  }

  lemma BitsAre(c: Octet, n: int)
    requires Shows(c, n)
    ensures IsLetter(c) && BitsOf(c) == n
  {
    assert Letter(n) == c;
    BitsOfLetter(n);
  }

  /** Digits up to the last two characters, and then two digits, a digit and an equals sign, or an equals sign and anything. */
  predicate IsDecodable(s: Bytes) {
    && (forall i | 0 <= i < |s| - 2 :: IsDigit(s[i]))
    && (|s| >= 2 ==>
          || s[|s| - 2] == '=' as int
          || (IsDigit(s[|s| - 2]) && (IsDigit(s[|s| - 1]) || s[|s| - 1] == '=' as int)))
  }

  /** What can be decoded. */
  lemma {:induction false} DecodesIff(s: Bytes)
    requires |s| % 4 == 0
    ensures Decoded(s).Some? <==> IsDecodable(s)
    decreases |s|
  {
    if s != [] {
      DecodesIff(s[4..]);
      hide IsLetter, IsDigit, IsDecodable, Decoded;
      FirstDecodesIff(s[0], s[1], s[2], s[3], |s| == 4);
      DecodedStep(s);
      DecodableStep(s);
      assert |s| == 4 ==> IsDecodable(s[4..]);
    }
  }

  lemma FirstDecodesIff(a: Octet, b: Octet, c: Octet, d: Octet, isLast: bool)
    ensures FourDecoded(a, b, c, d, isLast).Some? <==>
            && IsDigit(a) && IsDigit(b)
            && ((isLast && c == '=' as int) || (IsDigit(c) && (IsDigit(d) || (isLast && d == '=' as int))))
  {
    LetterIff(a);
    LetterIff(b);
    LetterIff(c);
    LetterIff(d);
    assert !IsLetter(PAD);
    hide IsLetter, IsDigit, Byte, Join, BitsOf;
  }

  lemma {:induction false} DecodedStep(s: Bytes)
    requires |s| >= 4
    ensures Decoded(s).Some? <==> FourDecoded(s[0], s[1], s[2], s[3], |s| == 4).Some? && Decoded(s[4..]).Some?
  {
    hide FourDecoded;
  }

  lemma DecodableStep(s: Bytes)
    requires |s| == 4 || |s| >= 8
    ensures |s| >= 8 ==> (IsDecodable(s) <==> IsDigit(s[0]) && IsDigit(s[1]) && IsDigit(s[2]) && IsDigit(s[3]) && IsDecodable(s[4..]))
    ensures |s| == 4 ==>
              (IsDecodable(s) <==> IsDigit(s[0]) && IsDigit(s[1])
                                   && (s[2] == '=' as int || (IsDigit(s[2]) && (IsDigit(s[3]) || s[3] == '=' as int))))
  {
    hide IsDigit;
    if |s| >= 8 {
      var rest := s[4..];
      assert forall i | 4 <= i < |s| - 2 :: s[i] == rest[i - 4];
      assert forall i | 0 <= i < |rest| - 2 :: rest[i] == s[i + 4];
    }
  }

  /** Four digits that are not padded are read as three bytes of the number they make in base 64. */
  lemma {:induction false} BytesOfDigits(s: Bytes, k: nat, a: int, b: int, c: int, d: int)
    requires |s| % 4 == 0 && Decoded(s).Some? && 4 * k + 4 <= |s|
    requires Shows(s[4 * k], a) && Shows(s[4 * k + 1], b) && Shows(s[4 * k + 2], c) && Shows(s[4 * k + 3], d)
    ensures |Decoded(s).value| >= 3 * k + 3
    ensures Decoded(s).value[3 * k..3 * k + 3] == BytesOfNumber(a * 0x4_0000 + b * 0x1000 + c * 64 + d)
    decreases k
  {
    hide Decoded, Shows, BytesOfNumber;
    if k > 0 {
      var rest := s[4..];
      WholeBefore(s);
      assert rest[4 * (k - 1)] == s[4 * k] && rest[4 * (k - 1) + 1] == s[4 * k + 1];
      assert rest[4 * (k - 1) + 2] == s[4 * k + 2] && rest[4 * (k - 1) + 3] == s[4 * k + 3];
      BytesOfDigits(rest, k - 1, a, b, c, d);
      SliceAfter(Decoded(s).value, 3 * k - 3);
    } else {
      FirstBytes(s, a, b, c, d);
    }
  }

  /** The three digits of a number in base 256. */
  function BytesOfNumber(n: int): seq<int> {
    [n / 0x1_0000, n / 0x100 % 256, n % 256]
  }

  lemma SliceAfter(b: Bytes, n: nat)
    requires n + 6 <= |b|
    ensures b[n + 3..n + 6] == b[3..][n..n + 3]
  {
    var x, y := b[n + 3..n + 6], b[3..][n..n + 3];
    assert x[0] == y[0] && x[1] == y[1] && x[2] == y[2];
  }

  lemma JoinedBytes(a: Sextet, b: Sextet, c: Sextet, d: Sextet)
    ensures var g := Join(a, b, c, d); [Byte(g, 0), Byte(g, 1), Byte(g, 2)] == BytesOfNumber((a as int) * 0x4_0000 + b * 0x1000 + c * 64 + d)
  {
    var g := Join(a, b, c, d);
    HighByte(g);
    assert g == (a as int) * 0x4_0000 + b * 0x1000 + c * 64 + d;
    hide Join;
  }

  lemma HighByte(g: Group)
    ensures Byte(g, 0) == g / 0x1_0000
  {
  }

  lemma {:induction false} FirstBytes(s: Bytes, a: int, b: int, c: int, d: int)
    requires |s| >= 4 && Decoded(s).Some? && Shows(s[0], a) && Shows(s[1], b) && Shows(s[2], c) && Shows(s[3], d)
    ensures |Decoded(s).value| >= 3
    ensures Decoded(s).value[..3] == BytesOfNumber(a * 0x4_0000 + b * 0x1000 + c * 64 + d)
  {
    hide IsLetter, BitsOf, Shows, Join, Byte, BytesOfNumber;
    BitsAre(s[0], a);
    BitsAre(s[1], b);
    BitsAre(s[2], c);
    BitsAre(s[3], d);
    PadIsNoLetter();
    JoinedBytes(a, b, c, d);
  }

  lemma PadIsNoLetter()
    ensures !IsLetter(PAD)
  {
  }

  lemma ThreeBytes(a: Octet, b: Octet, c: Octet, d: Octet)
    ensures FourDecoded(a, b, c, d, false).Some? ==> |FourDecoded(a, b, c, d, false).value| == 3
  {
  }

  lemma {:induction false} WholeBefore(s: Bytes)
    requires |s| > 4 && Decoded(s).Some?
    ensures Decoded(s[4..]).Some? && |Decoded(s).value| == 3 + |Decoded(s[4..]).value| && Decoded(s).value[3..] == Decoded(s[4..]).value
  {
    hide FourDecoded;
    ThreeBytes(s[0], s[1], s[2], s[3]);
    var four := FourDecoded(s[0], s[1], s[2], s[3], false);
    assert four.Some? && Decoded(s).value == four.value + Decoded(s[4..]).value;
  }

  /** With padding the last group is read as the one or two bytes whose bits are all there. */
  lemma {:induction false} BytesOfPadding(s: Bytes, a: int, b: int)
    requires |s| == 4 && Decoded(s).Some? && Shows(s[0], a) && Shows(s[1], b)
    ensures s[2] == '=' as int ==> Decoded(s).value == [a * 4 + b / 16]
    ensures forall c | Shows(s[2], c) && s[3] == '=' as int :: Decoded(s).value == [a * 4 + b / 16, b % 16 * 16 + c / 4]
  {
    hide IsLetter, BitsOf, Shows, Join, Byte;
    PadIsNoLetter();
    BitsAre(s[0], a);
    BitsAre(s[1], b);
    PaddedBytes(a, b, 0);
    assert Decoded(s[4..]) == Some([]);
    forall c | Shows(s[2], c) && s[3] == '=' as int ensures Decoded(s).value == [a * 4 + b / 16, b % 16 * 16 + c / 4] {
      BitsAre(s[2], c);
      PaddedBytes(a, b, c);
    }
  }

  lemma PaddedBytes(a: Sextet, b: Sextet, c: Sextet)
    ensures Byte(Join(a, b, c, 0), 0) == (a as int) * 4 + b / 16
    ensures Byte(Join(a, b, c, 0), 1) == (b as int) % 16 * 16 + c / 4
  {
    hide Join, Byte;
    HighPadded(a, b, c);
    LowPadded(a, b, c);
  }

  lemma HighPadded(a: Sextet, b: Sextet, c: Sextet)
    ensures Byte(Join(a, b, c, 0), 0) == (a as int) * 4 + b / 16
  {
    Quotient(Join(a, b, c, 0), 0x1_0000, (a as int) * 4 + b / 16, (b as int) % 16 * 0x1000 + c * 64);
  }

  lemma LowPadded(a: Sextet, b: Sextet, c: Sextet)
    ensures Byte(Join(a, b, c, 0), 1) == (b as int) % 16 * 16 + c / 4
  {
    var x: int, y: int, z: int := a, b, c;
    Quotient(Join(a, b, c, 0), 0x100, x * 0x400 + y * 16 + z / 4, z % 4 * 64);
    Quotient(x * 0x400 + y * 16 + z / 4, 256, x * 4 + y / 16, y % 16 * 16 + z / 4);
  }

  /** What stands before the last group does not matter to it. */
  lemma {:induction false} LastGroupAtEnd(s: Bytes, q: nat)
    requires |s| == 4 * q + 4 && Decoded(s).Some?
    ensures Decoded(s[4 * q..]).Some? && |Decoded(s).value| == 3 * q + |Decoded(s[4 * q..]).value|
    ensures Decoded(s).value[3 * q..] == Decoded(s[4 * q..]).value
    decreases q
  {
    hide Decoded;
    if q > 0 {
      WholeBefore(s);
      LastGroupAtEnd(s[4..], q - 1);
      assert s[4..][4 * q - 4..] == s[4 * q..];
      DroppedTwice(Decoded(s).value, 3 * q - 3);
    } else {
      assert s[0..] == s && Decoded(s).value[0..] == Decoded(s).value;
    }
  }

  lemma DroppedTwice(b: Bytes, n: nat)
    requires n + 3 <= |b|
    ensures b[n + 3..] == b[3..][n..]
  {
  }
}
