/**
 Bit histograms of files (Assignment2/src-3/histogram.h) and the sequential program that sums
 them (Assignment2/src-3/fhistogram.c), which merges its local histogram into the global one
 after every 100000 bytes as well as at the end of each file.
 */
module Histogram {
  import opened BitMasks
  import opened Bytes

  const BITS: nat := 8

  /** The files that can be opened, with their contents. */
  datatype Path = Path(name: string)
  type FileSystem = map<Path, seq<Octet>>

  // ---------- what is counted ----------

  ghost function BitOf(byte: Octet, b: nat): nat { if Bit(byte, Power2(b)) then 1 else 0 }

  /** In how many of the bytes bit b is set. */
  ghost function BitCount(bytes: seq<Octet>, b: nat): nat {
    if bytes == [] then 0 else BitCount(bytes[..|bytes| - 1], b) + BitOf(bytes[|bytes| - 1], b)
  }

  /** What a file adds to the histogram: nothing if it cannot be opened. */
  ghost function FileCount(fs: FileSystem, path: Path, b: nat): nat {
    if path in fs then BitCount(fs[path], b) else 0
  }

  ghost function Total(fs: FileSystem, paths: seq<Path>, b: nat): nat {
    if paths == [] then 0 else Total(fs, paths[..|paths| - 1], b) + FileCount(fs, paths[|paths| - 1], b)
  }

  // ---------- what these counts are ----------

  /** Counter b belongs to the b-th binary digit, the least significant being digit 0. */
  lemma BitOfIsDigit(byte: Octet, b: nat)
    ensures BitOf(byte, b) == byte / Power2(b) % 2
  {
    BitIsDigit(byte, b);
  }

  /** There is a counter for each binary digit that a byte can have, and no other. */
  lemma CountersAreDigits(b: nat)
    ensures b < BITS <==> BitOf(255, b) == 1
  {
    SmallPowers();
    BitOfIsDigit(255, b);
    if b >= 8 { PowerGrows(b); }
  }

  lemma {:induction false} PowerGrows(b: nat)
    requires b >= 8
    ensures Power2(b) >= 256
  {
    if b > 8 { PowerGrows(b - 1); } else { SmallPowers(); }
  }

  /** The eight counters of one byte, weighted, are the byte. */
  lemma ByteIsItsBits(byte: Octet)
    ensures byte == BitOf(byte, 0) + 2 * BitOf(byte, 1) + 4 * BitOf(byte, 2) + 8 * BitOf(byte, 3)
                    + 16 * BitOf(byte, 4) + 32 * BitOf(byte, 5) + 64 * BitOf(byte, 6) + 128 * BitOf(byte, 7)
  {
    hide BitOf;
    forall b: nat | b < 8 ensures BitOf(byte, b) == byte / Power2(b) % 2 { BitOfIsDigit(byte, b); }
    SmallPowers();
    hide Power2;
    BinaryDigits(byte);
  }

  lemma SmallPowers()
    ensures Power2(0) == 1 && Power2(1) == 2 && Power2(2) == 4 && Power2(3) == 8
    ensures Power2(4) == 16 && Power2(5) == 32 && Power2(6) == 64 && Power2(7) == 128
  {}

  lemma BinaryDigits(x: nat)
    requires x < 256
    ensures x == x / 1 % 2 + 2 * (x / 2 % 2) + 4 * (x / 4 % 2) + 8 * (x / 8 % 2)
                 + 16 * (x / 16 % 2) + 32 * (x / 32 % 2) + 64 * (x / 64 % 2) + 128 * (x / 128 % 2)
  {
    NextDigit(x, 1);
    NextDigit(x, 2);
    NextDigit(x, 4);
    NextDigit(x, 8);
    NextDigit(x, 16);
    NextDigit(x, 32);
    NextDigit(x, 64);
    NextDigit(x, 128);
    QuotientIs(x, 256, 0, x);
  }

  lemma NextDigit(x: nat, p: nat)
    requires p > 0
    ensures x / p == 2 * (x / (2 * p)) + x / p % 2
    ensures p == 1 ==> x / p == x
  {
    var h := x / p;
    DivisionOf(x, p);
    assert 2 * p * (h / 2) == p * (2 * (h / 2));
    assert x == 2 * p * (h / 2) + (p * (h % 2) + x % p);
    QuotientIs(x, 2 * p, h / 2, p * (h % 2) + x % p);
  }

  /** The positions of a file at which bit b is set. */
  ghost function Positions(bytes: seq<Octet>, b: nat): set<nat> {
    set i: nat | i < |bytes| && bytes[i] / Power2(b) % 2 == 1
  }

  /** A count is the number of positions at which the bit is set. */
  lemma {:induction false} CountIsPositions(bytes: seq<Octet>, b: nat)
    ensures BitCount(bytes, b) == |Positions(bytes, b)|
  {
    if bytes != [] {
      var n := |bytes| - 1;
      CountIsPositions(bytes[..n], b);
      BitOfIsDigit(bytes[n], b);
      hide BitOf;
      if bytes[n] / Power2(b) % 2 == 1 {
        assert Positions(bytes, b) == Positions(bytes[..n], b) + {n};
      } else {
        assert Positions(bytes, b) == Positions(bytes[..n], b);
      }
    }
  }

  /** The sum of the bytes of a file. */
  ghost function ByteSum(bytes: seq<Octet>): nat {
    if bytes == [] then 0 else ByteSum(bytes[..|bytes| - 1]) + bytes[|bytes| - 1]
  }

  ghost function AllBytes(fs: FileSystem, paths: seq<Path>): nat {
    if paths == [] then 0 else
      var last := paths[|paths| - 1];
      AllBytes(fs, paths[..|paths| - 1]) + if last in fs then ByteSum(fs[last]) else 0
  }

  /** A histogram, weighted: the first counter counts ones, the next twos, then fours. */
  ghost function Weighted(h: nat -> nat): nat {
    h(0) + 2 * h(1) + 4 * h(2) + 8 * h(3) + 16 * h(4) + 32 * h(5) + 64 * h(6) + 128 * h(7)
  }

  lemma {:induction false} CountsWeighted(bytes: seq<Octet>)
    ensures Weighted(b => BitCount(bytes, b)) == ByteSum(bytes)
  {
    if bytes != [] {
      CountsWeighted(bytes[..|bytes| - 1]);
      ByteIsItsBits(bytes[|bytes| - 1]);
      hide BitOf;
    }
  }

  /** The weighted totals of all readable files are the sum of their bytes. */
  lemma {:induction false} TotalsWeighted(fs: FileSystem, paths: seq<Path>)
    ensures Weighted(b => Total(fs, paths, b)) == AllBytes(fs, paths)
  {
    if paths != [] {
      var last := paths[|paths| - 1];
      TotalsWeighted(fs, paths[..|paths| - 1]);
      if last in fs { CountsWeighted(fs[last]); }
      hide BitCount, ByteSum;
    }
  }

  /** What one file counts for among all of them. */
  lemma TotalOfOne(fs: FileSystem, path: Path, b: nat)
    ensures Total(fs, [path], b) == if path in fs then |Positions(fs[path], b)| else 0
  {
    assert [path][..0] == [];
    if path in fs { CountIsPositions(fs[path], b); }
  }

  // ---------- histogram.h ----------

  /** update_histogram: count the set bits of a byte. */
  method UpdateHistogram(histogram: array<int>, byte: Octet)
    requires histogram.Length == BITS
    modifies histogram
    ensures forall b :: 0 <= b < BITS ==> histogram[b] == old(histogram[b]) + BitOf(byte, b)
  {
    for i := 0 to BITS
      invariant forall b :: 0 <= b < i ==> histogram[b] == old(histogram[b]) + BitOf(byte, b)
      invariant forall b :: i <= b < BITS ==> histogram[b] == old(histogram[b])
    {
      PowerOneHot(i);
      TestBit(byte, Power2(i));
      if And(byte, Power2(i)) != 0 {
        histogram[i] := histogram[i] + 1;
      }
    }
  }

  /** merge_histogram: add the one into the other and set it to zero. */
  method MergeHistogram(from: array<int>, to: array<int>)
    requires from.Length == BITS && to.Length == BITS && from != to
    modifies from, to
    ensures forall b :: 0 <= b < BITS ==> to[b] == old(to[b] + from[b]) && from[b] == 0
  {
    for i := 0 to BITS
      invariant forall b :: 0 <= b < i ==> to[b] == old(to[b] + from[b]) && from[b] == 0
      invariant forall b :: i <= b < BITS ==> to[b] == old(to[b]) && from[b] == old(from[b])
    {
      to[i] := to[i] + from[i];
      from[i] := 0;
    }
  }

  // ---------- the loop of a worker ----------

  /** A worker reads a whole file into its local histogram. */
  method LocalHistogram(bytes: seq<Octet>) returns (local: array<int>)
    ensures fresh(local) && local.Length == BITS
    ensures forall b :: 0 <= b < BITS ==> local[b] == BitCount(bytes, b)
  {
    local := new int[BITS](_ => 0);
    for i := 0 to |bytes|
      invariant fresh(local) && forall b :: 0 <= b < BITS ==> local[b] == BitCount(bytes[..i], b)
    {
      assert bytes[..i + 1][..i] == bytes[..i];
      UpdateHistogram(local, bytes[i]);
    }
    assert bytes[..|bytes|] == bytes;
  }

  // ---------- fhistogram.c ----------

  /** fhistogram: -1 and no change if the file cannot be opened, else its bits are added. */
  method FHistogram(fs: FileSystem, path: Path, globalHistogram: array<int>) returns (status: int)
    requires globalHistogram.Length == BITS
    modifies globalHistogram
    ensures status == if path in fs then 0 else -1
    ensures forall b :: 0 <= b < BITS ==> globalHistogram[b] == old(globalHistogram[b]) + FileCount(fs, path, b)
  {
    var local := new int[BITS](_ => 0);
    if path !in fs { return -1; }
    var bytes := fs[path];
    var i := 0;
    while i < |bytes|
      invariant 0 <= i <= |bytes|
      invariant forall b :: 0 <= b < BITS ==>
        globalHistogram[b] + local[b] == old(globalHistogram[b]) + BitCount(bytes[..i], b)
    {
      assert bytes[..i + 1][..i] == bytes[..i];
      i := i + 1;
      UpdateHistogram(local, bytes[i - 1]);
      if i % 100000 == 0 {
        MergeHistogram(local, globalHistogram);
      }
    }
    assert bytes[..|bytes|] == bytes;
    MergeHistogram(local, globalHistogram);
    status := 0;
  }

  /** The sequential program over the regular files found, in the order found. */
  method Sequential(fs: FileSystem, paths: seq<Path>) returns (globalHistogram: array<int>)
    ensures fresh(globalHistogram) && globalHistogram.Length == BITS
    ensures forall b :: 0 <= b < BITS ==> globalHistogram[b] == Total(fs, paths, b)
  {
    globalHistogram := new int[BITS](_ => 0);
    for i := 0 to |paths|
      invariant fresh(globalHistogram)
      invariant forall b :: 0 <= b < BITS ==> globalHistogram[b] == Total(fs, paths[..i], b)
    {
      assert paths[..i + 1][..i] == paths[..i];
      var _ := FHistogram(fs, paths[i], globalHistogram);
    }
    assert paths[..|paths|] == paths;
  }

  // ---------- order does not matter ----------

  lemma {:induction false} TotalAppend(fs: FileSystem, p: seq<Path>, q: seq<Path>, b: nat)
    ensures Total(fs, p + q, b) == Total(fs, p, b) + Total(fs, q, b)
  {
    if q == [] {
      assert p + q == p;
    } else {
      assert (p + q)[..|p + q| - 1] == p + q[..|q| - 1];
      TotalAppend(fs, p, q[..|q| - 1], b);
    }
  }

  /** The total depends only on which files are counted how often, not on their order. */
  lemma {:induction false} TotalPermutation(fs: FileSystem, p: seq<Path>, q: seq<Path>, b: nat)
    requires multiset(p) == multiset(q)
    ensures Total(fs, p, b) == Total(fs, q, b)
    decreases |p|
  {
    if p == [] {
      assert |q| == |multiset(q)| == 0;
    } else {
      hide Total;
      var first, x := p[..|p| - 1], p[|p| - 1];
      assert p == first + [x];
      assert x in multiset(q);
      var i :| 0 <= i < |q| && q[i] == x;
      var before, after := q[..i], q[i + 1..];
      assert q == before + [x] + after;
      WithoutMiddle(first, x, before, after);
      TotalPermutation(fs, first, before + after, b);
      TotalAppend(fs, first, [x], b);
      TotalAppend(fs, before + [x], after, b);
      TotalAppend(fs, before, [x], b);
      TotalAppend(fs, before, after, b);
    }
  }

  lemma WithoutMiddle(first: seq<Path>, x: Path, before: seq<Path>, after: seq<Path>)
    requires multiset(first + [x]) == multiset(before + [x] + after)
    ensures multiset(first) == multiset(before + after)
  {
    assert multiset(first) == multiset(first + [x]) - multiset{x};
    assert multiset(before + after) == multiset(before + [x] + after) - multiset{x};
  }
}
