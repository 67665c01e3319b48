/** Bytes and their two word orders, shared by the modules that handle byte sequences. */
module Bytes {

  /** Where 32-bit unsigned arithmetic wraps around. */
  const M32: nat := 0x1_0000_0000

  type Octet = x: nat | x < 256

  type Word = x: nat | x < M32

  function Join(b0: nat, b1: nat, b2: nat, b3: nat): nat {
    ((b0 * 0x100 + b1) * 0x100 + b2) * 0x100 + b3
  }

  /** The number four bytes stand for, most significant byte first. */
  function BigEndian(b: seq<Octet>): nat
    requires |b| == 4
  {
    Join(b[0], b[1], b[2], b[3])
  }

  /** The number four bytes stand for, least significant byte first. */
  function LittleEndian(b: seq<Octet>): nat
    requires |b| == 4
  {
    Join(b[3], b[2], b[1], b[0])
  }

  function ToBigEndian(x: nat): (b: seq<Octet>)
    requires x < 0x1_0000_0000
    ensures |b| == 4
  {
    var q, r, s := x / 0x100, x / 0x100 / 0x100, x / 0x100 / 0x100 / 0x100;
    [s, r % 0x100, q % 0x100, x % 0x100]
  }

  function ToLittleEndian(x: nat): (b: seq<Octet>)
    requires x < 0x1_0000_0000
    ensures |b| == 4
  {
    var b := ToBigEndian(x);
    [b[3], b[2], b[1], b[0]]
  }

  /** Writing a word and reading it back. */
  lemma WordRoundTrip(x: nat)
    requires x < 0x1_0000_0000
    ensures BigEndian(ToBigEndian(x)) == x && LittleEndian(ToLittleEndian(x)) == x
  {
    var q, r := x / 0x100, x / 0x100 / 0x100;
    assert x == q * 0x100 + x % 0x100 && q == r * 0x100 + q % 0x100;
  }

  /** Reading a word and writing it back. */
  lemma BytesRoundTrip(b: seq<Octet>)
    requires |b| == 4
    ensures BigEndian(b) < 0x1_0000_0000 && ToBigEndian(BigEndian(b)) == b
    ensures LittleEndian(b) < 0x1_0000_0000 && ToLittleEndian(LittleEndian(b)) == b
  {
    JoinSplits(b[0], b[1], b[2], b[3]);
    JoinSplits(b[3], b[2], b[1], b[0]);
  }

  lemma JoinSplits(b0: nat, b1: nat, b2: nat, b3: nat)
    requires b0 < 0x100 && b1 < 0x100 && b2 < 0x100 && b3 < 0x100
    ensures Join(b0, b1, b2, b3) < 0x1_0000_0000
    ensures Join(b0, b1, b2, b3) / 0x100 == (b0 * 0x100 + b1) * 0x100 + b2
    ensures ((b0 * 0x100 + b1) * 0x100 + b2) / 0x100 == b0 * 0x100 + b1
  {}

  /** What the bytes of a word count for in either order. */
  lemma ByteWeights(b: seq<Octet>)
    requires |b| == 4
    ensures var w, x, y, z := b[0] as nat, b[1] as nat, b[2] as nat, b[3] as nat;
      && BigEndian(b) == 0x100_0000 * w + 0x1_0000 * x + 0x100 * y + z
      && LittleEndian(b) == w + 0x100 * x + 0x1_0000 * y + 0x100_0000 * z
  {}
}
