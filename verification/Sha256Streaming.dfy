/**
 Feeding a message to a block function in pieces (the buffering of sha256_update) and padding
 it (sha256_final), for any block function.
 */
module Sha256Streaming {
  import opened Bytes

  const BLOCK: nat := 64

  type Block = s: seq<Octet> | |s| == BLOCK witness seq(BLOCK, _ => 0)

  /** The hash computation over a message of whole blocks: section 6.2 of FIPS 180-4. */
  ghost function Fold<H>(f: (H, Block) -> H, h: H, msg: seq<Octet>): H
    requires |msg| % BLOCK == 0
  {
    if msg == [] then h else
      var n := |msg| - BLOCK;
      f(Fold(f, h, msg[..n]), msg[n..])
  }

  /** How much of a message fills whole blocks. */
  function Whole(n: nat): (w: nat)
    ensures w % BLOCK == 0 && w <= n < w + BLOCK && n - w == n % BLOCK
  {
    n - n % BLOCK
  }

  /**
   The state after absorbing msg, however it was cut up: the hash over its whole blocks, and
   the rest waiting in the buffer.
   */
  ghost predicate Absorbed<H(!new)>(f: (H, Block) -> H, h0: H, msg: seq<Octet>, hash: H, waiting: seq<Octet>) {
    && hash == Fold(f, h0, msg[..Whole(|msg|)])
    && waiting == msg[Whole(|msg|)..]
  }

  lemma AbsorbNothing<H(!new)>(f: (H, Block) -> H, h0: H)
    ensures Absorbed(f, h0, [], h0, [])
  {}

  /** More bytes that do not fill the block only wait. */
  lemma AbsorbPart<H(!new)>(f: (H, Block) -> H, h0: H, msg: seq<Octet>, hash: H, waiting: seq<Octet>, piece: seq<Octet>)
    requires Absorbed(f, h0, msg, hash, waiting) && |waiting| + |piece| < BLOCK
    ensures Absorbed(f, h0, msg + piece, hash, waiting + piece)
  {
    var w := Whole(|msg|);
    assert Whole(|msg + piece|) == w;
    assert (msg + piece)[..w] == msg[..w];
    assert (msg + piece)[w..] == waiting + piece;
  }

  lemma WholeNext(n: nat, k: nat)
    requires n - Whole(n) + k == BLOCK
    ensures Whole(n + k) == n + k == Whole(n) + BLOCK
  {}

  /** Bytes that complete the block are hashed together with those waiting. */
  lemma AbsorbBlock<H(!new)>(f: (H, Block) -> H, h0: H, msg: seq<Octet>,
                             hash: H, waiting: seq<Octet>, piece: seq<Octet>)
    requires Absorbed(f, h0, msg, hash, waiting) && |waiting| + |piece| == BLOCK
    ensures Absorbed(f, h0, msg + piece, f(hash, waiting + piece), [])
  {
    hide Whole;
    var w, all := Whole(|msg|), msg + piece;
    WholeNext(|msg|, |piece|);
    assert all[..|all|] == all;
    assert all[..w] == msg[..w];
    assert all[w..] == waiting + piece;
    assert all[|all|..] == [];
  }

  lemma AbsorbedLength<H(!new)>(f: (H, Block) -> H, h0: H, msg: seq<Octet>, hash: H, waiting: seq<Octet>)
    requires Absorbed(f, h0, msg, hash, waiting)
    ensures |waiting| == |msg| % BLOCK
  {}

  /** At a block boundary the hash is that of the whole message. */
  lemma AbsorbedWhole<H(!new)>(f: (H, Block) -> H, h0: H, msg: seq<Octet>, hash: H, waiting: seq<Octet>)
    requires Absorbed(f, h0, msg, hash, waiting) && |msg| % BLOCK == 0
    ensures hash == Fold(f, h0, msg)
  {
    assert msg[..Whole(|msg|)] == msg;
  }

  // ---------- padding ----------

  /** How many bytes of the padding table precede the length field. */
  function PadBytes(n: nat): (p: nat)
    ensures 1 <= p <= BLOCK && (n + p) % BLOCK == 56
  {
    var p := 120 - n % BLOCK;
    if p > 64 then p - 64 else p
  }

  function Padding(n: nat): (p: seq<Octet>)
    requires n >= 1
    ensures |p| == n && p[0] == 0x80 && forall i :: 1 <= i < n ==> p[i] == 0
  {
    seq(n, i => if i == 0 then 0x80 else 0)
  }

  /** The bit length modulo 2^64, most significant byte first. */
  function LengthField(bits: nat): (b: seq<Octet>)
    ensures |b| == 8
  {
    var m := bits % 0x1_0000_0000_0000_0000;
    ToBigEndian(m / 0x1_0000_0000) + ToBigEndian(m % 0x1_0000_0000)
  }

  /** The padded message that sha256_final completes. */
  function Padded(msg: seq<Octet>): seq<Octet> {
    msg + Padding(PadBytes(|msg|)) + LengthField(8 * |msg|)
  }

  /** A one bit and k zero bits after a message of this many bits leave room for the length field only. */
  predicate FillsUp(bits: nat, k: nat) { (bits + 1 + k) % 512 == 448 }

  /**
   This is the padding of section 5.1.1 of FIPS 180-4: a one bit, then k zero bits for the
   smallest k that makes the length field end on a block boundary, in bits.
   */
  lemma PaddingIsMinimal(msg: seq<Octet>)
    ensures var bits := 8 * |msg|;
      var k := 8 * PadBytes(|msg|) - 1;
      FillsUp(bits, k) && forall j: nat :: j < k ==> !FillsUp(bits, j)
    ensures |Padded(msg)| % BLOCK == 0
  {
    hide PadBytes, FillsUp, Padding, LengthField;
    var n, p := |msg|, PadBytes(|msg|);
    var q := PadLength(n);
    FillsUpThere(8 * n, 8 * p, q);
    forall j: nat | j < 8 * p - 1 ensures !FillsUp(8 * n, j) {
      NotEarlier(8 * n, 8 * p, q, j);
    }
  }

  lemma PadLength(n: nat) returns (q: nat)
    ensures 8 * n + 8 * PadBytes(n) == 512 * q + 448
    ensures (n + PadBytes(n) + 8) % BLOCK == 0
  {
    q := (n + PadBytes(n)) / BLOCK;
    assert n + PadBytes(n) == BLOCK * q + 56;
  }

  lemma Remainder(q: int, r: nat)
    requires r < 512
    ensures (512 * q + r) % 512 == r
  {}

  lemma FillsUpThere(bits: nat, pad: nat, q: nat)
    requires bits + pad == 512 * q + 448 && pad > 0
    ensures FillsUp(bits, pad - 1)
  {
    Remainder(q, 448);
  }

  lemma NotEarlier(bits: nat, pad: nat, q: nat, j: nat)
    requires bits + pad == 512 * q + 448 && j + 1 < pad <= 512
    ensures !FillsUp(bits, j)
  {
    var d := pad - (j + 1);
    if d <= 448 {
      Remainder(q, 448 - d);
    } else {
      Remainder(q - 1, 960 - d);
    }
  }

  /** For a message shorter than 2^64 bits the length field is the number of its bits. */
  lemma LengthFieldIsLength(bits: nat)
    requires bits < 0x1_0000_0000_0000_0000
    ensures var b := LengthField(bits);
      BigEndian(b[..4]) * 0x1_0000_0000 + BigEndian(b[4..]) == bits
  {
    hide ToBigEndian, BigEndian;
    var high, low := bits / 0x1_0000_0000, bits % 0x1_0000_0000;
    WordRoundTrip(high);
    WordRoundTrip(low);
    var b := LengthField(bits);
    assert b == ToBigEndian(high) + ToBigEndian(low);
    assert b[..4] == ToBigEndian(high) && b[4..] == ToBigEndian(low);
  }

  /** Two messages that differ are padded differently. */
  lemma PaddedInjective(m: seq<Octet>, n: seq<Octet>)
    requires 8 * |m| < 0x1_0000_0000_0000_0000 && 8 * |n| < 0x1_0000_0000_0000_0000
    requires Padded(m) == Padded(n)
    ensures m == n
  {
    var a, b := Padded(m), Padded(n);
    assert a[|a| - 8..] == LengthField(8 * |m|) && b[|b| - 8..] == LengthField(8 * |n|);
    LengthFieldIsLength(8 * |m|);
    LengthFieldIsLength(8 * |n|);
    assert a[..|m|] == m && b[..|n|] == n;
  }
}
