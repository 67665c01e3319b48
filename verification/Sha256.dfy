/**
 SHA-256 of Assignment3/src/sha256.c: the block function with its in-place message schedule,
 and the streaming context with both compile-time variants of sha256_update. The standard,
 FIPS 180-4, is written down as functions; the program is proved to compute them.
 */
module Sha256 {
  import opened Basics
  import opened BitMasks
  import opened ByteLanes
  import opened Bytes
  import opened Sha256Words
  import opened Sha256Streaming

  // ---------- section 6.2 of FIPS 180-4 ----------

  /** The constants K of section 4.2.2. */
  function RoundConstant(t: nat): nat
    requires t < 64
  {
    match t
    case 0 => 0x428a2f98 case 1 => 0x71374491 case 2 => 0xb5c0fbcf case 3 => 0xe9b5dba5
    case 4 => 0x3956c25b case 5 => 0x59f111f1 case 6 => 0x923f82a4 case 7 => 0xab1c5ed5
    case 8 => 0xd807aa98 case 9 => 0x12835b01 case 10 => 0x243185be case 11 => 0x550c7dc3
    case 12 => 0x72be5d74 case 13 => 0x80deb1fe case 14 => 0x9bdc06a7 case 15 => 0xc19bf174
    case 16 => 0xe49b69c1 case 17 => 0xefbe4786 case 18 => 0x0fc19dc6 case 19 => 0x240ca1cc
    case 20 => 0x2de92c6f case 21 => 0x4a7484aa case 22 => 0x5cb0a9dc case 23 => 0x76f988da
    case 24 => 0x983e5152 case 25 => 0xa831c66d case 26 => 0xb00327c8 case 27 => 0xbf597fc7
    case 28 => 0xc6e00bf3 case 29 => 0xd5a79147 case 30 => 0x06ca6351 case 31 => 0x14292967
    case 32 => 0x27b70a85 case 33 => 0x2e1b2138 case 34 => 0x4d2c6dfc case 35 => 0x53380d13
    case 36 => 0x650a7354 case 37 => 0x766a0abb case 38 => 0x81c2c92e case 39 => 0x92722c85
    case 40 => 0xa2bfe8a1 case 41 => 0xa81a664b case 42 => 0xc24b8b70 case 43 => 0xc76c51a3
    case 44 => 0xd192e819 case 45 => 0xd6990624 case 46 => 0xf40e3585 case 47 => 0x106aa070
    case 48 => 0x19a4c116 case 49 => 0x1e376c08 case 50 => 0x2748774c case 51 => 0x34b0bcb5
    case 52 => 0x391c0cb3 case 53 => 0x4ed8aa4a case 54 => 0x5b9cca4f case 55 => 0x682e6ff3
    case 56 => 0x748f82ee case 57 => 0x78a5636f case 58 => 0x84c87814 case 59 => 0x8cc70208
    case 60 => 0x90befffa case 61 => 0xa4506ceb case 62 => 0xbef9a3f7 case _ => 0xc67178f2
  }

  datatype Hash = Hash(a: Word, b: Word, c: Word, d: Word, e: Word, f: Word, g: Word, h: Word)

  const INITIAL := Hash(0x6a09e667, 0xbb67ae85, 0x3c6ef372, 0xa54ff53a, 0x510e527f, 0x9b05688c, 0x1f83d9ab, 0x5be0cd19)

  /** The message schedule W of a block. */
  function Schedule(block: Block, t: nat): nat {
    if t < 16 then BigEndian(block[4 * t..4 * t + 4])
    else (SmallSigma1(Schedule(block, t - 2)) + Schedule(block, t - 7)
          + SmallSigma0(Schedule(block, t - 15)) + Schedule(block, t - 16)) % M32
  }

  function Round(v: Hash, k: nat, w: nat): Hash {
    var t1 := (v.h + BigSigma1(v.e) + Ch(v.e, v.f, v.g) + k + w) % M32;
    var t2 := (BigSigma0(v.a) + Maj(v.a, v.b, v.c)) % M32;
    Hash((t1 + t2) % M32, v.a, v.b, v.c, (v.d + t1) % M32, v.e, v.f, v.g)
  }

  function Rounds(v: Hash, block: Block, n: nat): Hash
    requires n <= 64
  {
    if n == 0 then v else Round(Rounds(v, block, n - 1), RoundConstant(n - 1), Schedule(block, n - 1))
  }

  function AddHash(u: Hash, v: Hash): Hash {
    Hash((u.a + v.a) % M32, (u.b + v.b) % M32, (u.c + v.c) % M32, (u.d + v.d) % M32,
         (u.e + v.e) % M32, (u.f + v.f) % M32, (u.g + v.g) % M32, (u.h + v.h) % M32)
  }

  function Compress(h: Hash, block: Block): Hash { AddHash(h, Rounds(h, block, 64)) }

  function Digest(h: Hash): seq<Octet> {
    ToBigEndian(h.a) + ToBigEndian(h.b) + ToBigEndian(h.c) + ToBigEndian(h.d)
    + ToBigEndian(h.e) + ToBigEndian(h.f) + ToBigEndian(h.g) + ToBigEndian(h.h)
  }

  /** The hash of a message: pad it, fold the block function over it, and write out the words. */
  ghost function Sha(msg: seq<Octet>): seq<Octet> {
    PaddingIsMinimal(msg);
    Digest(Fold(Compress, INITIAL, Padded(msg)))
  }

  // ---------- SHA256Guts ----------

  /** DO_ROUND, with the rewritten Ch and Maj. */
  function DoRound(v: Hash, k: nat, w: nat): Hash {
    var t1 := (v.h + BigSigma1(v.e) + ChMacro(v.e, v.f, v.g) + k + w) % M32;
    var t2 := (BigSigma0(v.a) + MajMacro(v.a, v.b, v.c)) % M32;
    Hash((t1 + t2) % M32, v.a, v.b, v.c, (v.d + t1) % M32, v.e, v.f, v.g)
  }

  lemma DoRoundIsRound(v: Hash, k: nat, w: nat)
    ensures DoRound(v, k, w) == Round(v, k, w)
  {
    hide BigSigma0, BigSigma1, Ch, Maj, ChMacro, MajMacro;
    ChRewritten(v.e, v.f, v.g);
    MajRewritten(v.a, v.b, v.c);
  }

  lemma ScheduleStep(block: Block, t: nat)
    ensures t < 16 ==> Schedule(block, t) == BigEndian(block[4 * t..4 * t + 4])
    ensures t >= 16 ==>
      Schedule(block, t) == (SmallSigma1(Schedule(block, t - 2)) + Schedule(block, t - 7)
                             + SmallSigma0(Schedule(block, t - 15)) + Schedule(block, t - 16)) % M32
  {
    hide BigEndian, SmallSigma0, SmallSigma1;
  }

  /** The two loops that fill the schedule, with one pointer for each word it is made from. */
  method FillSchedule(cbuf: Block) returns (buf: array<nat>)
    ensures fresh(buf) && buf.Length == 64 && forall t :: 0 <= t < 64 ==> buf[t] == Schedule(cbuf, t)
  {
    hide ByteSwap, LittleEndian, BigEndian, SmallSigma0, SmallSigma1, Schedule;
    buf := new nat[64];
    var w := 0;
    while w < 16
      invariant 0 <= w <= 16 && forall t :: 0 <= t < w ==> buf[t] == Schedule(cbuf, t)
    {
      ByteSwapReverses(cbuf[4 * w..4 * w + 4]);
      ScheduleStep(cbuf, w);
      buf[w] := ByteSwap(LittleEndian(cbuf[4 * w..4 * w + 4]));
      w := w + 1;
    }
    var w16, w15, w7, w2 := 0, 1, 9, 14;
    while w < 64
      invariant 16 <= w <= 64 && w16 == w - 16 && w15 == w - 15 && w7 == w - 7 && w2 == w - 2
      invariant forall t :: 0 <= t < w ==> buf[t] == Schedule(cbuf, t)
    {
      ScheduleStep(cbuf, w);
      buf[w] := (SmallSigma1(buf[w2]) + buf[w7] + SmallSigma0(buf[w15]) + buf[w16]) % M32;
      w, w7, w16 := w + 1, w7 + 1, w16 + 1;
      w2 := w2 + 1;
      w15 := w15 + 1;
    }
  }

  lemma NoRounds(v: Hash, block: Block)
    ensures Rounds(v, block, 0) == v
  {}

  lemma RoundsStep(v: Hash, block: Block, n: nat)
    requires n < 64
    ensures Rounds(v, block, n + 1) == Round(Rounds(v, block, n), RoundConstant(n), Schedule(block, n))
  {
    hide Round, RoundConstant;
  }

  /** SHA256Guts, four rounds in a loop turn. */
  method Guts(hash: Hash, cbuf: Block) returns (r: Hash)
    ensures r == Compress(hash, cbuf)
  {
    hide DoRound, Round, RoundConstant, BigEndian, SmallSigma0, SmallSigma1;
    var buf := FillSchedule(cbuf);
    var v, w, i := hash, 0, 15;
    NoRounds(hash, cbuf);
    while i >= 0
      invariant forall t :: 0 <= t < 64 ==> buf[t] == Schedule(cbuf, t)
      invariant w == 4 * (15 - i) && -1 <= i <= 15 && v == Rounds(hash, cbuf, w)
    {
      DoRoundIsRound(v, RoundConstant(w), buf[w]);
      v := DoRound(v, RoundConstant(w), buf[w]);
      RoundsStep(hash, cbuf, w);
      DoRoundIsRound(v, RoundConstant(w + 1), buf[w + 1]);
      v := DoRound(v, RoundConstant(w + 1), buf[w + 1]);
      RoundsStep(hash, cbuf, w + 1);
      DoRoundIsRound(v, RoundConstant(w + 2), buf[w + 2]);
      v := DoRound(v, RoundConstant(w + 2), buf[w + 2]);
      RoundsStep(hash, cbuf, w + 2);
      DoRoundIsRound(v, RoundConstant(w + 3), buf[w + 3]);
      v := DoRound(v, RoundConstant(w + 3), buf[w + 3]);
      RoundsStep(hash, cbuf, w + 3);
      w, i := w + 4, i - 1;
    }
    r := AddHash(hash, v);
  }

  // ---------- storing the digest ----------

  function Words(h: Hash): (ws: seq<Word>)
    ensures |ws| == 8
  {
    [h.a, h.b, h.c, h.d, h.e, h.f, h.g, h.h]
  }

  ghost function WordsOut(ws: seq<Word>): (b: seq<Octet>)
    ensures |b| == 4 * |ws|
  {
    if ws == [] then [] else WordsOut(ws[..|ws| - 1]) + ToBigEndian(ws[|ws| - 1])
  }

  lemma {:induction false} WordsOutAppend(ws: seq<Word>, w: Word)
    ensures WordsOut([]) == [] && WordsOut(ws + [w]) == WordsOut(ws) + ToBigEndian(w)
  {
    hide ToBigEndian;
    assert (ws + [w])[..|ws|] == ws;
  }

  lemma FourWords(a: Word, b: Word, c: Word, d: Word)
    ensures WordsOut([a, b, c, d]) == ToBigEndian(a) + ToBigEndian(b) + ToBigEndian(c) + ToBigEndian(d)
  {
    hide ToBigEndian, WordsOut;
    WordsOutAppend([], a);
    WordsOutAppend([a], b);
    WordsOutAppend([a, b], c);
    WordsOutAppend([a, b, c], d);
    assert [] + [a] == [a] && [a] + [b] == [a, b] && [a, b] + [c] == [a, b, c] && [a, b, c] + [d] == [a, b, c, d];
  }

  lemma {:induction false} WordsOutConcat(a: seq<Word>, b: seq<Word>)
    ensures WordsOut(a + b) == WordsOut(a) + WordsOut(b)
  {
    hide ToBigEndian;
    if b == [] {
      assert a + b == a;
    } else {
      var n := |b| - 1;
      WordsOutConcat(a, b[..n]);
      assert (a + b)[..|a + b| - 1] == a + b[..n];
    }
  }

  /** The words one after the other are the digest. */
  lemma DigestIsWords(h: Hash)
    ensures WordsOut(Words(h)) == Digest(h)
  {
    hide ToBigEndian, WordsOut;
    FourWords(h.a, h.b, h.c, h.d);
    FourWords(h.e, h.f, h.g, h.h);
    WordsOutConcat([h.a, h.b, h.c, h.d], [h.e, h.f, h.g, h.h]);
    assert Words(h) == [h.a, h.b, h.c, h.d] + [h.e, h.f, h.g, h.h];
  }

  /** Shifting a word right and cutting it to a byte gives its bytes, most significant first. */
  lemma ShiftedBytes(w: Word)
    ensures ToBigEndian(w) == [w / 0x100_0000 % 256, w / 0x1_0000 % 256, w / 0x100 % 256, w % 256]
  {
    var q := w / 0x100;
    var r := q / 0x100;
    assert r / 0x100 < 256 && r == w / 0x1_0000 && r / 0x100 == w / 0x100_0000;
  }

  /** One more word behind the words stored so far. */
  lemma OneMoreWord(ws: seq<Word>, i: nat, was: seq<Octet>, now: seq<Octet>)
    requires i < |ws| && 4 * i + 4 <= |was| == |now| && was[..4 * i] == WordsOut(ws[..i])
    requires now[..4 * i] == was[..4 * i] && now[4 * i..4 * i + 4] == ToBigEndian(ws[i])
    ensures now[..4 * i + 4] == WordsOut(ws[..i + 1])
  {
    hide ToBigEndian, WordsOut;
    WordsOutAppend(ws[..i], ws[i]);
    assert ws[..i + 1] == ws[..i] + [ws[i]];
    assert now[..4 * i + 4] == now[..4 * i] + now[4 * i..4 * i + 4];
  }

  /** The loop of sha256_final that stores the digest byte by byte. */
  method StoreDigest(h: Hash, out: array<Octet>)
    requires out.Length == 32
    modifies out
    ensures out[..] == Digest(h)
  {
    hide ToBigEndian, WordsOut, Digest, Words;
    var ws := Words(h);
    WordsOutAppend([], 0);
    for i := 0 to 8
      invariant out[..4 * i] == WordsOut(ws[..i])
    {
      ghost var was := out[..];
      ShiftedBytes(ws[i]);
      out[4 * i] := ws[i] / 0x100_0000 % 256;
      out[4 * i + 1] := ws[i] / 0x1_0000 % 256;
      out[4 * i + 2] := ws[i] / 0x100 % 256;
      out[4 * i + 3] := ws[i] % 256;
      OneMoreWord(ws, i, was, out[..]);
    }
    DigestIsWords(h);
    assert ws[..8] == ws && out[..32] == out[..];
  }

  /** The same loop as compiled with SHA256_FAST_COPY on a little-endian machine: a swapped word at a time. */
  method StoreDigestFastCopy(h: Hash, out: array<Octet>)
    requires out.Length == 32
    modifies out
    ensures out[..] == Digest(h)
  {
    hide ToBigEndian, ToLittleEndian, ByteSwap, WordsOut, Digest, Words;
    var ws := Words(h);
    WordsOutAppend([], 0);
    for i := 0 to 8
      invariant out[..4 * i] == WordsOut(ws[..i])
    {
      ghost var was := out[..];
      SwapStores(ws[i]);
      var stored := ToLittleEndian(ByteSwap(ws[i]));
      forall k | 0 <= k < 4 { out[4 * i + k] := stored[k]; }
      OneMoreWord(ws, i, was, out[..]);
    }
    DigestIsWords(h);
    assert ws[..8] == ws && out[..32] == out[..];
  }

  /** Section 6.2.2, at the end: the digest is the eight words of the hash, most significant byte first. */
  lemma DigestWords(h: Hash)
    ensures var d := Digest(h);
      && |d| == 32
      && BigEndian(d[0..4]) == h.a && BigEndian(d[4..8]) == h.b && BigEndian(d[8..12]) == h.c
      && BigEndian(d[12..16]) == h.d && BigEndian(d[16..20]) == h.e && BigEndian(d[20..24]) == h.f
      && BigEndian(d[24..28]) == h.g && BigEndian(d[28..32]) == h.h
  {
    hide ToBigEndian, BigEndian;
    var d := Digest(h);
    assert d[0..4] == ToBigEndian(h.a) && d[4..8] == ToBigEndian(h.b);
    assert d[8..12] == ToBigEndian(h.c) && d[12..16] == ToBigEndian(h.d);
    assert d[16..20] == ToBigEndian(h.e) && d[20..24] == ToBigEndian(h.f);
    assert d[24..28] == ToBigEndian(h.g) && d[28..32] == ToBigEndian(h.h);
    WordRoundTrip(h.a);
    WordRoundTrip(h.b);
    WordRoundTrip(h.c);
    WordRoundTrip(h.d);
    WordRoundTrip(h.e);
    WordRoundTrip(h.f);
    WordRoundTrip(h.g);
    WordRoundTrip(h.h);
  }

  // ---------- where the constants come from ----------

  /** The first 64 prime numbers. */
  function PrimeNumber(t: nat): nat
    requires t < 64
  {
    match t
    case 0 => 2 case 1 => 3 case 2 => 5 case 3 => 7 case 4 => 11 case 5 => 13 case 6 => 17
    case 7 => 19 case 8 => 23 case 9 => 29 case 10 => 31 case 11 => 37 case 12 => 41 case 13 => 43
    case 14 => 47 case 15 => 53 case 16 => 59 case 17 => 61 case 18 => 67 case 19 => 71 case 20 => 73
    case 21 => 79 case 22 => 83 case 23 => 89 case 24 => 97 case 25 => 101 case 26 => 103 case 27 => 107
    case 28 => 109 case 29 => 113 case 30 => 127 case 31 => 131 case 32 => 137 case 33 => 139 case 34 => 149
    case 35 => 151 case 36 => 157 case 37 => 163 case 38 => 167 case 39 => 173 case 40 => 179 case 41 => 181
    case 42 => 191 case 43 => 193 case 44 => 197 case 45 => 199 case 46 => 211 case 47 => 223 case 48 => 227
    case 49 => 229 case 50 => 233 case 51 => 239 case 52 => 241 case 53 => 251 case 54 => 257 case 55 => 263
    case 56 => 269 case 57 => 271 case 58 => 277 case 59 => 281 case 60 => 283 case 61 => 293 case 62 => 307
    case _ => 311
  }

  /** These are the first 32 bits of the fractional part of the cube root of p. */
  ghost predicate IsCubeRoot(bits: nat, p: nat) {
    bits < 0x1_0000_0000
    && exists whole: nat :: IsCubeRootOf(whole * 0x1_0000_0000 + bits, p)
  }

  /** r / 2^32 is the cube root of p, rounded down to 32 bits after the point. */
  predicate IsCubeRootOf(r: nat, p: nat) {
    r * r * r <= p * 0x1_0000_0000_0000_0000_0000_0000 < (r + 1) * (r + 1) * (r + 1)
  }

  predicate IsSquareRootOf(r: nat, p: nat) {
    r * r <= p * 0x1_0000_0000_0000_0000 < (r + 1) * (r + 1)
  }

  ghost predicate IsSquareRoot(bits: nat, p: nat) {
    bits < 0x1_0000_0000
    && exists whole: nat :: IsSquareRootOf(whole * 0x1_0000_0000 + bits, p)
  }

  lemma CubeRoot(whole: nat, bits: nat, p: nat)
    requires bits < 0x1_0000_0000 && IsCubeRootOf(whole * 0x1_0000_0000 + bits, p)
    ensures IsCubeRoot(bits, p)
  {}

  lemma SquareRoot(whole: nat, bits: nat, p: nat)
    requires bits < 0x1_0000_0000 && IsSquareRootOf(whole * 0x1_0000_0000 + bits, p)
    ensures IsSquareRoot(bits, p)
  {}

  lemma RoundConstants0(t: nat)
    requires 0 <= t < 8
    ensures IsCubeRoot(RoundConstant(t), PrimeNumber(t))
  {
    hide IsCubeRoot;
    match t
    case 0 => CubeRoot(1, 0x428a2f98, 2);
    case 1 => CubeRoot(1, 0x71374491, 3);
    case 2 => CubeRoot(1, 0xb5c0fbcf, 5);
    case 3 => CubeRoot(1, 0xe9b5dba5, 7);
    case 4 => CubeRoot(2, 0x3956c25b, 11);
    case 5 => CubeRoot(2, 0x59f111f1, 13);
    case 6 => CubeRoot(2, 0x923f82a4, 17);
    case _ => CubeRoot(2, 0xab1c5ed5, 19);
  }

  lemma RoundConstants8(t: nat)
    requires 8 <= t < 16
    ensures IsCubeRoot(RoundConstant(t), PrimeNumber(t))
  {
    hide IsCubeRoot;
    match t
    case 8 => CubeRoot(2, 0xd807aa98, 23);
    case 9 => CubeRoot(3, 0x12835b01, 29);
    case 10 => CubeRoot(3, 0x243185be, 31);
    case 11 => CubeRoot(3, 0x550c7dc3, 37);
    case 12 => CubeRoot(3, 0x72be5d74, 41);
    case 13 => CubeRoot(3, 0x80deb1fe, 43);
    case 14 => CubeRoot(3, 0x9bdc06a7, 47);
    case _ => CubeRoot(3, 0xc19bf174, 53);
  }

  lemma RoundConstants16(t: nat)
    requires 16 <= t < 24
    ensures IsCubeRoot(RoundConstant(t), PrimeNumber(t))
  {
    hide IsCubeRoot;
    match t
    case 16 => CubeRoot(3, 0xe49b69c1, 59);
    case 17 => CubeRoot(3, 0xefbe4786, 61);
    case 18 => CubeRoot(4, 0x0fc19dc6, 67);
    case 19 => CubeRoot(4, 0x240ca1cc, 71);
    case 20 => CubeRoot(4, 0x2de92c6f, 73);
    case 21 => CubeRoot(4, 0x4a7484aa, 79);
    case 22 => CubeRoot(4, 0x5cb0a9dc, 83);
    case _ => CubeRoot(4, 0x76f988da, 89);
  }

  lemma RoundConstants24(t: nat)
    requires 24 <= t < 32
    ensures IsCubeRoot(RoundConstant(t), PrimeNumber(t))
  {
    hide IsCubeRoot;
    match t
    case 24 => CubeRoot(4, 0x983e5152, 97);
    case 25 => CubeRoot(4, 0xa831c66d, 101);
    case 26 => CubeRoot(4, 0xb00327c8, 103);
    case 27 => CubeRoot(4, 0xbf597fc7, 107);
    case 28 => CubeRoot(4, 0xc6e00bf3, 109);
    case 29 => CubeRoot(4, 0xd5a79147, 113);
    case 30 => CubeRoot(5, 0x06ca6351, 127);
    case _ => CubeRoot(5, 0x14292967, 131);
  }

  lemma RoundConstants32(t: nat)
    requires 32 <= t < 40
    ensures IsCubeRoot(RoundConstant(t), PrimeNumber(t))
  {
    hide IsCubeRoot;
    match t
    case 32 => CubeRoot(5, 0x27b70a85, 137);
    case 33 => CubeRoot(5, 0x2e1b2138, 139);
    case 34 => CubeRoot(5, 0x4d2c6dfc, 149);
    case 35 => CubeRoot(5, 0x53380d13, 151);
    case 36 => CubeRoot(5, 0x650a7354, 157);
    case 37 => CubeRoot(5, 0x766a0abb, 163);
    case 38 => CubeRoot(5, 0x81c2c92e, 167);
    case _ => CubeRoot(5, 0x92722c85, 173);
  }

  lemma RoundConstants40(t: nat)
    requires 40 <= t < 48
    ensures IsCubeRoot(RoundConstant(t), PrimeNumber(t))
  {
    hide IsCubeRoot;
    match t
    case 40 => CubeRoot(5, 0xa2bfe8a1, 179);
    case 41 => CubeRoot(5, 0xa81a664b, 181);
    case 42 => CubeRoot(5, 0xc24b8b70, 191);
    case 43 => CubeRoot(5, 0xc76c51a3, 193);
    case 44 => CubeRoot(5, 0xd192e819, 197);
    case 45 => CubeRoot(5, 0xd6990624, 199);
    case 46 => CubeRoot(5, 0xf40e3585, 211);
    case _ => CubeRoot(6, 0x106aa070, 223);
  }

  lemma RoundConstants48(t: nat)
    requires 48 <= t < 56
    ensures IsCubeRoot(RoundConstant(t), PrimeNumber(t))
  {
    hide IsCubeRoot;
    match t
    case 48 => CubeRoot(6, 0x19a4c116, 227);
    case 49 => CubeRoot(6, 0x1e376c08, 229);
    case 50 => CubeRoot(6, 0x2748774c, 233);
    case 51 => CubeRoot(6, 0x34b0bcb5, 239);
    case 52 => CubeRoot(6, 0x391c0cb3, 241);
    case 53 => CubeRoot(6, 0x4ed8aa4a, 251);
    case 54 => CubeRoot(6, 0x5b9cca4f, 257);
    case _ => CubeRoot(6, 0x682e6ff3, 263);
  }

  lemma RoundConstants56(t: nat)
    requires 56 <= t < 64
    ensures IsCubeRoot(RoundConstant(t), PrimeNumber(t))
  {
    hide IsCubeRoot;
    match t
    case 56 => CubeRoot(6, 0x748f82ee, 269);
    case 57 => CubeRoot(6, 0x78a5636f, 271);
    case 58 => CubeRoot(6, 0x84c87814, 277);
    case 59 => CubeRoot(6, 0x8cc70208, 281);
    case 60 => CubeRoot(6, 0x90befffa, 283);
    case 61 => CubeRoot(6, 0xa4506ceb, 293);
    case 62 => CubeRoot(6, 0xbef9a3f7, 307);
    case _ => CubeRoot(6, 0xc67178f2, 311);
  }

  /** Section 4.2.2 of FIPS 180-4: the constants come from the cube roots of the first 64 primes. */
  lemma RoundConstantsAreRoots(t: nat)
    requires t < 64
    ensures IsCubeRoot(RoundConstant(t), PrimeNumber(t))
  {
    hide IsCubeRoot, RoundConstant, PrimeNumber;
    if t < 8 { RoundConstants0(t); }
    else if t < 16 { RoundConstants8(t); }
    else if t < 24 { RoundConstants16(t); }
    else if t < 32 { RoundConstants24(t); }
    else if t < 40 { RoundConstants32(t); }
    else if t < 48 { RoundConstants40(t); }
    else if t < 56 { RoundConstants48(t); }
    else { RoundConstants56(t); }
  }

  /** Section 5.3.3: the initial hash comes from the square roots of the first eight. */
  lemma InitialHashIsRoots()
    ensures IsSquareRoot(INITIAL.a, 2) && IsSquareRoot(INITIAL.b, 3)
    ensures IsSquareRoot(INITIAL.c, 5) && IsSquareRoot(INITIAL.d, 7)
    ensures IsSquareRoot(INITIAL.e, 11) && IsSquareRoot(INITIAL.f, 13)
    ensures IsSquareRoot(INITIAL.g, 17) && IsSquareRoot(INITIAL.h, 19)
  {
    SquareRoot(1, 0x6a09e667, 2);
    SquareRoot(1, 0xbb67ae85, 3);
    SquareRoot(2, 0x3c6ef372, 5);
    SquareRoot(2, 0xa54ff53a, 7);
    SquareRoot(3, 0x510e527f, 11);
    SquareRoot(3, 0x9b05688c, 13);
    SquareRoot(4, 0x1f83d9ab, 17);
    SquareRoot(4, 0x5be0cd19, 19);
  }

  /** Section 6.2.2, step 3: what one round does to the eight working variables. */
  lemma RoundEquations(v: Hash, k: nat, w: nat)
    ensures var r := Round(v, k, w);
      && r.b == v.a && r.c == v.b && r.d == v.c && r.f == v.e && r.g == v.f && r.h == v.g
      && r.e == (v.d + v.h + BigSigma1(v.e) + Ch(v.e, v.f, v.g) + k + w) % 0x1_0000_0000
      && (r.a + v.d) % 0x1_0000_0000 == (r.e + BigSigma0(v.a) + Maj(v.a, v.b, v.c)) % 0x1_0000_0000
  {
    hide BigSigma0, BigSigma1, Ch, Maj;
    var s, m := v.h + BigSigma1(v.e) + Ch(v.e, v.f, v.g) + k + w, BigSigma0(v.a) + Maj(v.a, v.b, v.c);
    Modular(s, m, v.d);
  }

  lemma Modular(s: nat, m: nat, d: nat)
    ensures (d + s % M32) % M32 == (d + s) % M32
    ensures ((s % M32 + m % M32) % M32 + d) % M32 == ((d + s % M32) % M32 + m) % M32
  {
    Reduced(s, d);
    Reduced(m, s % M32);
    Reduced(s % M32 + m, d);
    Reduced(d + s % M32, m);
  }

  lemma Reduced(x: nat, y: nat)
    ensures (x % M32 + y) % M32 == (x + y) % M32
  {
    DivisionOf(x, M32);
    QuotientShift(x % M32 + y, x / M32);
  }

  lemma QuotientShift(x: nat, q: nat)
    ensures (x + M32 * q) % M32 == x % M32
  {
    DivisionOf(x, M32);
    QuotientIs(x + M32 * q, M32, x / M32 + q, x % M32);
  }

  /** Section 6.2.2: 64 rounds with the constants and the schedule, and the old hash added word by word. */
  lemma CompressEquations(h: Hash, block: Block)
    ensures Rounds(h, block, 0) == h
    ensures forall t :: 0 <= t < 64 ==>
      Rounds(h, block, t + 1) == Round(Rounds(h, block, t), RoundConstant(t), Schedule(block, t))
    ensures var v, r := Rounds(h, block, 64), Compress(h, block);
      && r.a == (h.a + v.a) % 0x1_0000_0000 && r.b == (h.b + v.b) % 0x1_0000_0000
      && r.c == (h.c + v.c) % 0x1_0000_0000 && r.d == (h.d + v.d) % 0x1_0000_0000
      && r.e == (h.e + v.e) % 0x1_0000_0000 && r.f == (h.f + v.f) % 0x1_0000_0000
      && r.g == (h.g + v.g) % 0x1_0000_0000 && r.h == (h.h + v.h) % 0x1_0000_0000
  {
    hide Round, RoundConstant, Schedule;
    forall t | 0 <= t < 64
      ensures Rounds(h, block, t + 1) == Round(Rounds(h, block, t), RoundConstant(t), Schedule(block, t))
    {
      RoundsStep(h, block, t);
    }
  }

  // ---------- the streaming context ----------

  /** What the buffer holds once a piece has been copied behind the bytes that were waiting. */
  lemma CopiedIn(msg: seq<Octet>, hash: Hash, was: seq<Octet>, now: seq<Octet>, waiting: seq<Octet>, piece: seq<Octet>)
    requires Absorbed(Compress, INITIAL, msg, hash, waiting) && waiting <= was
    requires |waiting| + |piece| <= |was| == |now| == BLOCK && now[..|waiting|] == waiting
    requires forall i :: 0 <= i < |piece| ==> now[|waiting| + i] == piece[i]
    ensures var n := |waiting| + |piece|;
      if n == BLOCK then Absorbed(Compress, INITIAL, msg + piece, Compress(hash, now), now[..0])
      else Absorbed(Compress, INITIAL, msg + piece, hash, now[..n])
  {
    hide Compress, Absorbed, Fold;
    var n := |waiting| + |piece|;
    assert now[..n] == waiting + piece;
    if n == BLOCK {
      assert now[..n] == now && now[..0] == [];
      AbsorbBlock(Compress, INITIAL, msg, hash, waiting, piece);
    } else {
      AbsorbPart(Compress, INITIAL, msg, hash, waiting, piece);
    }
  }

  const M64: nat := 0x1_0000_0000_0000_0000

  class Context {
    var totalLength: nat
    var hash: Hash
    var bufferLength: nat
    const buffer: array<Octet>
    /** All bytes absorbed since sha256_init. */
    ghost var message: seq<Octet>

    /** The whole state is a function of the message, however the message was cut up. */
    ghost predicate Valid()
      reads this, buffer
    {
      && buffer.Length == BLOCK && bufferLength < BLOCK
      && totalLength == BitLength(|message|)
      && Absorbed(Compress, INITIAL, message, hash, buffer[..bufferLength])
    }

    /** sha256_init */
    constructor ()
      ensures Valid() && message == [] && fresh(buffer)
    {
      hide Compress, BitLength, Absorbed, Fold;
      totalLength := 0;
      hash := INITIAL;
      bufferLength := 0;
      buffer := new Octet[BLOCK];
      message := [];
      NoBits();
      AbsorbNothing(Compress, INITIAL);
      new;
      assert buffer[..0] == [];
    }

    /** memcpy into the buffer, and SHA256Guts if that filled it. */
    method CopyIn(piece: seq<Octet>)
      requires Valid() && bufferLength + |piece| <= BLOCK
      modifies this, buffer
      ensures Valid() && message == old(message) + piece
      ensures bufferLength == if old(bufferLength) + |piece| == BLOCK then 0 else old(bufferLength) + |piece|
    {
      hide Compress, BitLength, Absorbed, Fold;
      LengthAdds(|message|, |piece|);
      ghost var was, waiting := buffer[..], buffer[..bufferLength];
      forall i | 0 <= i < |piece| {
        buffer[bufferLength + i] := piece[i];
      }
      totalLength := (totalLength + |piece| * 8) % M64;
      bufferLength := bufferLength + |piece|;
      CopiedIn(message, hash, was, buffer[..], waiting, piece);
      if bufferLength == BLOCK {
        hash := Guts(hash, buffer[..]);
        bufferLength := 0;
      }
      message := message + piece;
    }

    /** sha256_update as compiled without SHA256_FAST_COPY. */
    method Update(data: seq<Octet>)
      requires Valid() && |data| < M32
      modifies this, buffer
      ensures Valid() && message == old(message) + data
    {
      hide Compress, BitLength, Absorbed, Fold;
      var p := 0;
      while p < |data|
        invariant Valid() && 0 <= p <= |data| && message == old(message) + data[..p]
      {
        var bufferBytesLeft := BLOCK - bufferLength;
        var bytesToCopy := if bufferBytesLeft > |data| - p then |data| - p else bufferBytesLeft;
        ghost var before := message;
        CopyIn(data[p..p + bytesToCopy]);
        assert data[..p + bytesToCopy] == data[..p] + data[p..p + bytesToCopy];
        p := p + bytesToCopy;
      }
      assert data[..p] == data;
    }

    /** A whole block hashed without copying, while nothing waits in the buffer. */
    method HashInPlace(block: Block)
      requires Valid() && bufferLength == 0
      modifies this
      ensures Valid() && bufferLength == 0 && message == old(message) + block
    {
      hide Compress, BitLength, Absorbed, Fold;
      LengthAdds(|message|, BLOCK);
      assert buffer[..0] + block == block && buffer[..0] == [];
      AbsorbBlock(Compress, INITIAL, message, hash, [], block);
      totalLength := (totalLength + 512) % M64;
      hash := Guts(hash, block);
      message := message + block;
    }

    /** sha256_update as compiled with SHA256_FAST_COPY: whole blocks are hashed where they are. */
    method UpdateFastCopy(data: seq<Octet>)
      requires Valid() && |data| < M32
      modifies this, buffer
      ensures Valid() && message == old(message) + data
    {
      hide Compress, BitLength, Absorbed, Fold;
      var p := 0;
      if bufferLength != 0 {
        var bufferBytesLeft := BLOCK - bufferLength;
        var bytesToCopy := if bufferBytesLeft > |data| then |data| else bufferBytesLeft;
        CopyIn(data[..bytesToCopy]);
        p := bytesToCopy;
      }
      while |data| - p > 63
        invariant Valid() && 0 <= p <= |data| && message == old(message) + data[..p]
        invariant bufferLength == 0 || p == |data|
      {
        HashInPlace(data[p..p + BLOCK]);
        assert data[..p + BLOCK] == data[..p] + data[p..p + BLOCK];
        p := p + BLOCK;
      }
      if p < |data| {
        CopyIn(data[p..]);
        assert data == data[..p] + data[p..];
      } else {
        assert data[..p] == data;
      }
    }

    /** sha256_update, as compiled with or without SHA256_FAST_COPY. */
    method Absorb(data: seq<Octet>, fast: bool)
      requires Valid() && |data| < M32
      modifies this, buffer
      ensures Valid() && message == old(message) + data
    {
      if fast { UpdateFastCopy(data); } else { Update(data); }
    }

    /** The two updates of sha256_final absorb the padding and the length field. */
    method Pad(fast: bool)
      requires Valid()
      modifies this, buffer
      ensures Valid() && message == Padded(old(message))
    {
      LengthOf(|message|);
      hide Compress, BitLength, Absorbed, Fold, LengthField, Padding, Padded;
      AbsorbedLength(Compress, INITIAL, message, hash, buffer[..bufferLength]);
      var bytesToPad := 120 - bufferLength;
      if bytesToPad > 64 { bytesToPad := bytesToPad - 64; }
      assert bytesToPad == PadBytes(|message|);
      hide PadBytes;
      var lengthPad := SwappedLength(totalLength);
      ghost var msg := message;
      Absorb(Padding(bytesToPad), fast);
      Absorb(lengthPad, fast);
      PaddedParts(msg);
    }

    /** sha256_final, as compiled with or without SHA256_FAST_COPY: the digest of everything absorbed. */
    method Final(fast: bool) returns (digest: seq<Octet>)
      requires Valid()
      modifies this, buffer
      ensures digest == Sha(old(message))
    {
      hide Compress, Digest, BitLength, Absorbed, Fold, Padded;
      PaddingIsMinimal(message);
      Pad(fast);
      AbsorbedWhole(Compress, INITIAL, message, hash, buffer[..bufferLength]);
      var out := new Octet[32];
      if fast { StoreDigestFastCopy(hash, out); } else { StoreDigest(hash, out); }
      digest := out[..];
    }
  }

  /** The length of a message in bits, in 64-bit arithmetic. */
  function BitLength(bytes: nat): nat { 8 * bytes % M64 }

  lemma PaddedParts(msg: seq<Octet>)
    ensures Padded(msg) == msg + Padding(PadBytes(|msg|)) + LengthField(8 * |msg|)
  {}

  lemma NoBits()
    ensures BitLength(0) == 0
  {}

  lemma LengthOf(n: nat)
    ensures BitLength(n) < M64 && LengthField(BitLength(n)) == LengthField(8 * n)
  {
    hide ToBigEndian;
    assert BitLength(n) % M64 == BitLength(n);
  }

  lemma LengthAdds(n: nat, k: nat)
    ensures (BitLength(n) + k * 8) % M64 == BitLength(n + k)
  {
    var q := 8 * n / M64;
    assert 8 * n == q * M64 + 8 * n % M64;
    assert 8 * (n + k) == q * M64 + (8 * n % M64 + k * 8);
  }

  /** The swapped word, stored by a little-endian machine, is the word in big-endian order. */
  lemma SwapStores(x: nat)
    requires x < M32
    ensures ByteSwap(x) < M32 && ToLittleEndian(ByteSwap(x)) == ToBigEndian(x)
  {
    WordRoundTrip(x);
    ByteSwapReverses(ToLittleEndian(x));
    BytesRoundTrip(ToLittleEndian(x));
  }

  lemma OrOfHalves(high: nat, low: nat)
    requires low < M32
    ensures Or(high * M32, low) == high * M32 + low
  {
    Power32();
    ConcatSum(0, high, 32);
    ConcatSum(low, 0, 32);
    OrConcat(0, high, low, 0, 32);
    OrZero(high);
    ConcatSum(low, high, 32);
  }

  /** BYTESWAP64 of the length, as it then lies in the memory of a little-endian machine. */
  method SwappedLength(x: nat) returns (bytes: seq<Octet>)
    requires x < M64
    ensures bytes == LengthField(x)
  {
    hide ByteSwap, ToBigEndian, ToLittleEndian, Or;
    var a := x / M32;
    var b := x % M32;
    SwapStores(a);
    SwapStores(b);
    var swapped := Or(ByteSwap(b) * M32, ByteSwap(a));
    OrOfHalves(ByteSwap(b), ByteSwap(a));
    assert swapped % M32 == ByteSwap(a) && swapped / M32 == ByteSwap(b);
    bytes := ToLittleEndian(swapped % M32) + ToLittleEndian(swapped / M32);
  }

  /** init, any sequence of updates of either variant, final of either variant: the hash of all pieces together. */
  method HashPieces(pieces: seq<seq<Octet>>, fast: seq<bool>, fastFinal: bool) returns (digest: seq<Octet>)
    requires |fast| == |pieces| && forall i :: 0 <= i < |pieces| ==> |pieces[i]| < M32
    ensures digest == Sha(Joined(pieces))
  {
    hide Compress, Digest, Sha;
    var context := new Context();
    for i := 0 to |pieces|
      invariant context.Valid() && context.message == Joined(pieces[..i])
      invariant fresh(context) && fresh(context.buffer)
    {
      assert pieces[..i + 1][..i] == pieces[..i];
      context.Absorb(pieces[i], fast[i]);
    }
    assert pieces[..|pieces|] == pieces;
    digest := context.Final(fastFinal);
  }
}
