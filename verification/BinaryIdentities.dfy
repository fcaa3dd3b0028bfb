/** The binary form of an identity: a string of zeros and ones. */
module BinaryIdentities {
  import opened Arithmetic
  import opened Bits
  import opened Identities
  import opened Octets
  import opened Options

  function Digits(b: Bits): (s: string)
    ensures |s| == |b|
  {
    seq(|b|, i requires 0 <= i < |b| => if b[i] then '1' else '0')
  }

  predicate IsBinary(s: string) {
    forall i | 0 <= i < |s| :: s[i] == '0' || s[i] == '1'
  }

  function DigitBits(s: string): (b: Bits)
    ensures |b| == |s|
  {
    seq(|s|, i requires 0 <= i < |s| => s[i] == '1')
  }

  function BinaryOf(bytes: seq<Octet>): string {
    Digits(AllBits(bytes))
  }

  /** None for an uninitialised identity, which is an error. */
  method Encode(id: Identity) returns (r: Option<string>)
    requires id.Valid()
    ensures r == if id.Identity? then Some(BinaryOf(id.bytes)) else None
  {
    if id.Uninitialised? {
      return None;
    }
    var binary := "";
    assert id.bytes[..0] == [];
    for i := 0 to IDENTITY_SIZE
      invariant binary == BinaryOf(id.bytes[..i])
    {
      BitsAppended(id.bytes[..i], id.bytes[i]);
      assert id.bytes[..i + 1] == id.bytes[..i] + [id.bytes[i]];
      binary := binary + Digits(ByteBits(id.bytes[i]));
    }
    assert id.bytes[..IDENTITY_SIZE] == id.bytes;
    return Some(binary);
  }

  lemma BitsAppended(a: seq<Octet>, x: Octet)
    ensures BinaryOf(a + [x]) == BinaryOf(a) + Digits(ByteBits(x))
  {
    BitsSplit(a + [x], |a|);
    assert (a + [x])[..|a|] == a && (a + [x])[|a|..] == [x];
    assert AllBits([x]) == ByteBits(x) + AllBits([x][1..]);
    var b := AllBits(a + [x]);
    assert b == b[..8 * |a|] + b[8 * |a|..];
  }

  /** Up to eight characters from a position that is not beyond the end. */
  function Chunk(s: string, i: nat): (c: string)
    requires 8 * i <= |s|
    ensures |c| <= 8
  {
    if |s| < 8 * i + 8 then s[8 * i..] else s[8 * i..8 * i + 8]
  }

  /** What the program accepts: the last byte may be cut short, and what follows is ignored. */
  predicate Accepted(s: string) {
    |s| >= 8 * (IDENTITY_SIZE - 1) && IsBinary(s[..if |s| < 8 * IDENTITY_SIZE then |s| else 8 * IDENTITY_SIZE])
  }

  lemma ChunkIsByte(s: string, i: nat)
    requires 8 * i <= |s|
    ensures 0 <= Number(DigitBits(Chunk(s, i))) < 256
  {
    var b := DigitBits(Chunk(s, i));
    BitsOfNumber(b);
    assert Pow2(8) == 256;
    BelowPower(b, 0);
    SmallPower(|b|);
  }

  lemma {:induction false} SmallPower(n: nat)
    requires n <= 8
    ensures Pow2(n) <= 256
    decreases 8 - n
  {
    if n < 8 {
      SmallPower(n + 1);
    } else {
      assert Pow2(8) == 256;
    }
  }

  function ByteAt(s: string, i: nat): Octet
    requires 8 * i <= |s|
  {
    ChunkIsByte(s, i);
    Number(DigitBits(Chunk(s, i)))
  }

  function Made(s: string): Identity
    requires Accepted(s)
  {
    Identity(seq(IDENTITY_SIZE, i requires 0 <= i < IDENTITY_SIZE => ByteAt(s, i)))
  }

  /** None for a string that is not accepted, which is an error. */
  method MakeIdentity(s: string) returns (r: Option<Identity>)
    ensures r == if Accepted(s) then Some(Made(s)) else None
  {
    var rawId: seq<Octet> := [];
    for i := 0 to IDENTITY_SIZE
      invariant |rawId| == i && 8 * i - 8 <= |s|
      invariant IsBinary(s[..if |s| < 8 * i then |s| else 8 * i])
      invariant forall j | 0 <= j < i :: 8 * j <= |s| && rawId[j] == ByteAt(s, j)
    {
      if 8 * i > |s| {
        return None;
      }
      var chunk := Chunk(s, i);
      ChunkChecked(s, i);
      if !IsBinary(chunk) {
        return None;
      }
      rawId := rawId + [ByteAt(s, i)];
    }
    assert rawId == Made(s).bytes;
    return Some(Identity(rawId));
  }

  lemma ChunkChecked(s: string, i: nat)
    requires 8 * i <= |s| && i < IDENTITY_SIZE
    ensures IsBinary(s[..if |s| < 8 * (i + 1) then |s| else 8 * (i + 1)]) <==> IsBinary(s[..8 * i]) && IsBinary(Chunk(s, i))
    ensures Accepted(s) ==> IsBinary(Chunk(s, i))
  {
    var n := if |s| < 8 * (i + 1) then |s| else 8 * (i + 1);
    assert s[..n] == s[..8 * i] + Chunk(s, i);
    if Accepted(s) {
      var m := if |s| < 8 * IDENTITY_SIZE then |s| else 8 * IDENTITY_SIZE;
      assert s[..n] == s[..m][..n];
    }
  }

  lemma ChunkOfBits(bytes: seq<Octet>, i: nat)
    requires |bytes| == IDENTITY_SIZE && i < IDENTITY_SIZE
    ensures |BinaryOf(bytes)| == 8 * IDENTITY_SIZE && DigitBits(Chunk(BinaryOf(bytes), i)) == ByteBits(bytes[i])
  {
    BitsSplit(bytes, i);
    var b, rest := AllBits(bytes), bytes[i..];
    assert b[8 * i..] == ByteBits(rest[0]) + AllBits(rest[1..]);
    assert b[8 * i..8 * i + 8] == b[8 * i..][..8];
    forall j | 0 <= j < 8 ensures DigitBits(Chunk(BinaryOf(bytes), i))[j] == ByteBits(bytes[i])[j] {
      assert Chunk(BinaryOf(bytes), i)[j] == Digits(b)[8 * i + j];
    }
  }

  /** An identity is made again from its binary form. */
  lemma RoundTrip(bytes: seq<Octet>)
    requires |bytes| == IDENTITY_SIZE
    ensures Accepted(BinaryOf(bytes)) && Made(BinaryOf(bytes)) == Identity(bytes)
  {
    var s := BinaryOf(bytes);
    assert |s| == 8 * IDENTITY_SIZE;
    forall i: nat | i < IDENTITY_SIZE ensures ByteAt(s, i) == bytes[i] {
      ChunkOfBits(bytes, i);
      assert Pow2(8) == 256;
      NumberOfBits(bytes[i], 8);
    }
  }

  /** An accepted string is the binary form of the identity made from it exactly if it has 512 characters. */
  lemma ReencodedIff(s: string)
    requires Accepted(s)
    ensures BinaryOf(Made(s).bytes) == s <==> |s| == 8 * IDENTITY_SIZE
  {
    var bytes := Made(s).bytes;
    assert |BinaryOf(bytes)| == 8 * IDENTITY_SIZE;
    if |s| == 8 * IDENTITY_SIZE {
      assert s[..8 * IDENTITY_SIZE] == s;
      forall k | 0 <= k < |s| ensures BinaryOf(bytes)[k] == s[k] {
        CharactersAgree(s, k / 8, k % 8);
      }
    }
  }

  lemma CharactersAgree(s: string, i: nat, j: nat)
    requires Accepted(s) && |s| == 8 * IDENTITY_SIZE && i < IDENTITY_SIZE && j < 8
    ensures BinaryOf(Made(s).bytes)[8 * i + j] == s[8 * i + j]
  {
    var bytes := Made(s).bytes;
    ChunkOfBits(bytes, i);
    var b := DigitBits(Chunk(s, i));
    BitsOfNumber(b);
    assert ByteBits(bytes[i]) == b;
    assert DigitBits(Chunk(BinaryOf(bytes), i))[j] == b[j];
    assert s[..8 * IDENTITY_SIZE] == s;
  }

  /** A string one byte short is accepted: its last byte is read as zero. */
  lemma ShortStringAccepted(bytes: seq<Octet>)
    requires |bytes| == IDENTITY_SIZE
    ensures var s := BinaryOf(bytes)[..8 * (IDENTITY_SIZE - 1)]; Accepted(s) && Made(s).bytes[IDENTITY_SIZE - 1] == 0
  {
    var s := BinaryOf(bytes)[..8 * (IDENTITY_SIZE - 1)];
    assert Chunk(s, IDENTITY_SIZE - 1) == "";
  }

  // ---------------------------------------------------------------- what the characters stand for

  /** Character j of byte i is the digit of weight 2^(7 - j). */
  lemma DigitOfByte(s: seq<Octet>, i: nat, j: nat)
    requires i < |s| && j < 8
    ensures BinaryOf(s)[8 * i + j] == if s[i] / Pow2(7 - j) % 2 == 1 then '1' else '0'
  {
    BitOfByte(s, i, j);
  }

  /** A string of zeros and ones as a number in base 2. */
  function BinaryValue(s: string): nat {
    if s == "" then 0 else 2 * BinaryValue(s[..|s| - 1]) + if s[|s| - 1] == '1' then 1 else 0
  }

  lemma {:induction false} DigitsNumber(s: string)
    ensures Number(DigitBits(s)) == BinaryValue(s)
    decreases |s|
  {
    if s != "" {
      DigitsNumber(s[..|s| - 1]);
      assert DigitBits(s)[..|s| - 1] == DigitBits(s[..|s| - 1]);
    }
  }

  /** Every byte is made from eight characters, the last one from those that are left. */
  lemma MadeIs(s: string, i: nat)
    requires Accepted(s) && i < 64
    ensures 504 <= |s| && 8 * i <= |s| && |Made(s).bytes| == 64
    ensures Made(s).bytes[i] == BinaryValue(if |s| < 8 * i + 8 then s[8 * i..] else s[8 * i..8 * i + 8])
  {
    DigitsNumber(Chunk(s, i));
  }

  /** The first 504 characters must be there, and all of the first 512 be digits. */
  lemma AcceptedIff(s: string)
    ensures Accepted(s) <==> |s| >= 504 && forall i | 0 <= i < |s| && i < 512 :: s[i] == '0' || s[i] == '1'
  {
    var t := s[..if |s| < 512 then |s| else 512];
    assert forall i | 0 <= i < |t| :: t[i] == s[i];
  }
}
