/** Messages on a byte stream, each preceded by its size in four bytes, highest first. */
module Framing {
  import opened Arithmetic
  import opened Octets

  type Message = seq<Octet>

  const MAX_MESSAGE_SIZE := 1024 * 1024

  function SizeByte(size: nat, i: nat): Octet
    requires i < 4
  {
    size / (if i == 0 then 0x100_0000 else if i == 1 then 0x1_0000 else if i == 2 then 0x100 else 1) % 256
  }

  function SizeBuffer(size: nat): (b: seq<Octet>)
    ensures |b| == 4
  {
    [SizeByte(size, 0), SizeByte(size, 1), SizeByte(size, 2), SizeByte(size, 3)]
  }

  function SizeOf(b: seq<Octet>): nat
    requires |b| == 4
  {
    var b0: int, b1: int, b2: int, b3: int := b[0], b[1], b[2], b[3];
    ((b0 * 256 + b1) * 256 + b2) * 256 + b3
  }

  /** Four bytes carry every size below 2^32, and every four bytes are the size they carry. */
  lemma SizeReadBack(size: nat)
    requires size < 0x1_0000_0000
    ensures SizeOf(SizeBuffer(size)) == size
  {
    var q1 := size / 0x100;
    var q2 := q1 / 0x100;
    Quotient(size, 0x1_0000, q2, q1 % 0x100 * 0x100 + size % 0x100);
    Quotient(size, 0x100_0000, q2 / 0x100, q2 % 0x100 * 0x1_0000 + q1 % 0x100 * 0x100 + size % 0x100);
  }

  lemma BufferReadBack(b: seq<Octet>)
    requires |b| == 4
    ensures SizeBuffer(SizeOf(b)) == b
  {
    var n := SizeOf(b);
    var b0: int, b1: int, b2: int, b3: int := b[0], b[1], b[2], b[3];
    Quotient(n, 0x100_0000, b0, b1 * 0x1_0000 + b2 * 0x100 + b3);
    Quotient(n, 0x1_0000, b0 * 0x100 + b1, b2 * 0x100 + b3);
    Quotient(n, 0x100, (b0 * 0x100 + b1) * 0x100 + b2, b3);
    Quotient(b0 * 0x100 + b1, 0x100, b0, b1);
    Quotient((b0 * 0x100 + b1) * 0x100 + b2, 0x100, b0 * 0x100 + b1, b2);
  }

  /** The bytes of a size are its digits in base 256, the highest first. */
  lemma SizeBufferIs(size: nat)
    requires size < 0x1_0000_0000
    ensures var b := SizeBuffer(size);
            (b[0] as int) * 0x100_0000 + (b[1] as int) * 0x1_0000 + (b[2] as int) * 0x100 + b[3] as int == size
  {
    SizeReadBack(size);
    SizeOfIs(SizeBuffer(size));
  }

  lemma SizeOfIs(b: seq<Octet>)
    requires |b| == 4
    ensures SizeOf(b) == (b[0] as int) * 0x100_0000 + (b[1] as int) * 0x1_0000 + (b[2] as int) * 0x100 + b[3] as int
  {
  }

  predicate Sendable(m: Message) {
    0 < |m| <= MAX_MESSAGE_SIZE
  }

  function Frame(m: Message): seq<Octet> {
    SizeBuffer(|m|) + m
  }

  function Frames(ms: seq<Message>): seq<Octet> {
    if ms == [] then [] else Frames(ms[..|ms| - 1]) + Frame(ms[|ms| - 1])
  }

  lemma {:induction false} LastFrame(ms: seq<Message>)
    requires ms != []
    ensures Frames(ms) == Frames(ms[..|ms| - 1]) + Frame(ms[|ms| - 1])
  {
  }

  lemma {:induction false} FramesJoined(a: seq<Message>, b: seq<Message>)
    ensures Frames(a + b) == Frames(a) + Frames(b)
    decreases |b|
  {
    if b == [] {
      assert a + b == a;
    } else {
      hide Frame, Frames;
      var last := |b| - 1;
      FramesJoined(a, b[..last]);
      LastFrame(b);
      LastFrame(a + b);
      assert (a + b)[..|a + b| - 1] == a + b[..last];
      Associative(Frames(a), Frames(b[..last]), Frame(b[last]));
    }
  }

  lemma Associative(a: seq<Octet>, b: seq<Octet>, c: seq<Octet>)
    ensures a + b + c == a + (b + c)
  {
  }

  /** The frame of message n starts where the frames before it end. */
  lemma {:induction false} FrameAt(ms: seq<Message>, n: nat)
    requires n < |ms|
    ensures Frames(ms[..n]) + Frame(ms[n]) == Frames(ms[..n + 1]) && Frames(ms[..n + 1]) <= Frames(ms)
  {
    hide Frame, Frames;
    LastFrame(ms[..n + 1]);
    assert ms[..n + 1][..n] == ms[..n];
    FramesJoined(ms[..n + 1], ms[n + 1..]);
    assert ms == ms[..n + 1] + ms[n + 1..];
  }
}
