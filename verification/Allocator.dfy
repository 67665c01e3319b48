/**
 The size-class allocator of Assignment4/predictor-benchmarks/lib.c. Free lists are threaded
 through raw memory: the first four bytes of a free block hold the address of the next one,
 those of a block in use hold the block's size.
 */
module Allocator {
  import opened BitMasks
  import opened ByteLanes
  import opened Bytes

  const NUM_SIZES: nat := 512
  const BLOCK_SIZE_STEP: nat := 8
  const MIN_ALLOCATION: nat := 100
  const INT_MAX: nat := 0x7fff_ffff

  // ---------- raw memory ----------

  /** Bytes by address; a byte never written reads as 0. */
  type Memory = map<nat, Octet>

  function Byte(mem: Memory, a: nat): Octet { if a in mem then mem[a] else 0 }

  /** A word is stored little-endian, as the RISC-V machine does. */
  function LoadWord(mem: Memory, a: nat): nat {
    Join(Byte(mem, a + 3), Byte(mem, a + 2), Byte(mem, a + 1), Byte(mem, a))
  }

  function StoreWord(mem: Memory, a: nat, v: nat): Memory
    requires v < M32
  {
    var b := ToLittleEndian(v);
    mem[a := b[0]][a + 1 := b[1]][a + 2 := b[2]][a + 3 := b[3]]
  }

  lemma StoreBytes(mem: Memory, a: nat, v: nat, x: nat)
    requires v < M32
    ensures x < a || a + 4 <= x ==> Byte(StoreWord(mem, a, v), x) == Byte(mem, x)
  {}

  /** A stored word can be read back, and no other word is disturbed. */
  lemma StoreLoad(mem: Memory, a: nat, v: nat, b: nat)
    requires v < M32 && (b == a || b + 4 <= a || a + 4 <= b)
    ensures LoadWord(StoreWord(mem, a, v), b) == if b == a then v else LoadWord(mem, b)
  {
    if b == a {
      WordRoundTrip(v);
    } else {
      StoreBytes(mem, a, v, b);
      StoreBytes(mem, a, v, b + 1);
      StoreBytes(mem, a, v, b + 2);
      StoreBytes(mem, a, v, b + 3);
    }
  }

  /** The low byte of a word comes first. */
  lemma LowByteFirst(mem: Memory, a: nat, v: nat)
    requires v < M32
    ensures var m := StoreWord(mem, a, v);
      && v == Byte(m, a) + 0x100 * Byte(m, a + 1) + 0x1_0000 * Byte(m, a + 2) + 0x100_0000 * Byte(m, a + 3)
      && forall x: nat :: x < a || x >= a + 4 ==> Byte(m, x) == Byte(mem, x)
  {
    WordRoundTrip(v);
    ByteWeights(ToLittleEndian(v));
    hide ToBigEndian, LittleEndian;
  }

  // ---------- sizes ----------

  /** The requested size plus the size field, rounded up to a multiple of the step. */
  function BlockSize(request: nat): nat
    requires request >= 1
  {
    var size := request + 4;
    var offset := And(size, BLOCK_SIZE_STEP - 1);
    if offset != 0 then And(size, Not(offset)) + BLOCK_SIZE_STEP else size
  }

  function ClassOf(request: nat): nat
    requires request >= 1
  {
    BlockSize(request) / BLOCK_SIZE_STEP
  }

  // ---------- the heap as a value ----------

  /**
   `cls` gives every block ever carved its size class. A block in use is in `live`, which also
   records how many bytes were asked for, and its payload starts four bytes into it; any
   other block is on the free list of its class.
   */
  datatype Heap = Heap(start: nat, top: nat, cls: map<nat, nat>, live: map<nat, nat>, free: seq<seq<nat>>)

  /** The block at a contains the byte x. */
  ghost predicate Contains(cls: map<nat, nat>, a: nat, x: nat) {
    a in cls && a <= x < a + 8 * cls[a]
  }

  ghost predicate Covered(cls: map<nat, nat>, x: nat) {
    exists a :: Contains(cls, a, x)
  }

  /** The blocks tile the carved space without gap or overlap; addresses have 32 bits. */
  ghost predicate Tiled(h: Heap) {
    && 0 < h.start <= h.top <= M32
    && (forall a :: a in h.cls ==> 0 < h.cls[a] < NUM_SIZES && h.start <= a && a + 8 * h.cls[a] <= h.top)
    && (forall a, b :: a in h.cls && b in h.cls && a < b ==> a + 8 * h.cls[a] <= b)
    && (forall x :: h.start <= x < h.top ==> Covered(h.cls, x))
  }

  ghost predicate NoDuplicates(s: seq<nat>) {
    forall i, j :: 0 <= i < j < |s| ==> s[i] != s[j]
  }

  ghost predicate FreeListsOk(h: Heap) {
    && |h.free| == NUM_SIZES
    && (forall c :: 0 <= c < NUM_SIZES ==> NoDuplicates(h.free[c]))
    && (forall c, a :: 0 <= c < NUM_SIZES && a in h.free[c] ==> a in h.cls && h.cls[a] == c && a !in h.live)
  }

  ghost predicate LiveOk(h: Heap) {
    forall a :: a in h.live ==> a in h.cls && 0 < h.live[a] && h.live[a] + 4 <= 8 * h.cls[a] < h.live[a] + 12
  }

  ghost predicate NothingLost(h: Heap) {
    forall a :: a in h.cls ==> h.cls[a] < |h.free| && (a in h.live || a in h.free[h.cls[a]])
  }

  ghost predicate Good(h: Heap) {
    Tiled(h) && FreeListsOk(h) && LiveOk(h) && NothingLost(h)
  }

  // ---------- what the invariant gives ----------

  /** Every byte handed out so far lies in exactly one block, in use or on one free list. */
  lemma EveryByteAccounted(h: Heap, x: nat)
    requires Good(h) && h.start <= x < h.top
    ensures exists a: nat :: Contains(h.cls, a, x) && (a in h.live <==> a !in h.free[h.cls[a]])
    ensures forall a: nat, b: nat :: Contains(h.cls, a, x) && Contains(h.cls, b, x) ==> a == b
  {
    assert Covered(h.cls, x);
    var a: nat :| Contains(h.cls, a, x);
    assert a in h.free[h.cls[a]] ==> a !in h.live;
  }

  /** The block at a, of the given class, lies inside the carved space. */
  ghost predicate Inside(h: Heap, a: nat, c: nat) { h.start <= a && a + 8 * c <= h.top }

  /**
   What a client relies on. Every block in use is inside the carved space and holds the bytes
   asked for besides its size field; every free block is inside it too; and no two blocks, in
   use or on whatever free lists, share a byte.
   */
  ghost predicate Separate(h: Heap) {
    && |h.free| == NUM_SIZES
    && (forall a :: a in h.live ==> a in h.cls && Inside(h, a, h.cls[a]) && h.live[a] + 4 <= 8 * h.cls[a])
    && (forall a, b :: a in h.live && b in h.live && a < b ==> a + 8 * h.cls[a] <= b)
    && (forall c, f :: 0 <= c < NUM_SIZES && f in h.free[c] ==> Inside(h, f, c))
    && (forall c, d, f, g :: 0 <= c < NUM_SIZES && 0 <= d < NUM_SIZES && f in h.free[c] && g in h.free[d] ==>
          (f == g && c == d) || f + 8 * c <= g || g + 8 * d <= f)
    && (forall a, c, f :: a in h.live && 0 <= c < NUM_SIZES && f in h.free[c] ==>
          a + 8 * h.cls[a] <= f || f + 8 * c <= a)
  }

  lemma GoodIsSeparate(h: Heap)
    requires Good(h)
    ensures Separate(h)
  {
    LiveSeparate(h);
    hide Good;
    forall c, f | 0 <= c < NUM_SIZES && f in h.free[c] ensures Inside(h, f, c) {
      FreeIsBlock(h, c, f);
    }
    forall c, d, f, g | 0 <= c < NUM_SIZES && 0 <= d < NUM_SIZES && f in h.free[c] && g in h.free[d]
      ensures (f == g && c == d) || f + 8 * c <= g || g + 8 * d <= f
    {
      FreeIsBlock(h, c, f);
      FreeIsBlock(h, d, g);
      BlocksApart(h, f, g);
    }
    forall a, c, f | a in h.live && 0 <= c < NUM_SIZES && f in h.free[c]
      ensures a + 8 * h.cls[a] <= f || f + 8 * c <= a
    {
      FreeIsBlock(h, c, f);
      BlocksApart(h, a, f);
    }
  }

  lemma LiveSeparate(h: Heap)
    requires Good(h)
    ensures |h.free| == NUM_SIZES
    ensures forall a :: a in h.live ==> a in h.cls && Inside(h, a, h.cls[a]) && h.live[a] + 4 <= 8 * h.cls[a]
    ensures forall a, b :: a in h.live && b in h.live && a < b ==> a + 8 * h.cls[a] <= b
  {}

  lemma BlocksApart(h: Heap, a: nat, b: nat)
    requires Good(h) && a in h.cls && b in h.cls
    ensures a == b || a + 8 * h.cls[a] <= b || b + 8 * h.cls[b] <= a
  {}

  lemma FreeIsBlock(h: Heap, c: nat, f: nat)
    requires Good(h) && c < NUM_SIZES && f in h.free[c]
    ensures f in h.cls && h.cls[f] == c && f !in h.live && Inside(h, f, c)
  {}

  // ---------- allocate and release on values ----------

  /** Masking with 7 keeps the last three bits. */
  lemma MaskLow(n: nat)
    ensures And(n, 7) == n % 8
  {
    assert Power2(3) == 8;
    AndModulo(n, 3);
  }

  lemma ClearBit(x: nat, y: int, bit: nat)
    requires bit <= 1
    ensures And(2 * x + bit, 2 * y + 1 - bit) == 2 * And(x, y)
  {
    hide And;
    var n, m := 2 * x + bit, 2 * y + 1 - bit;
    assert n / 2 == x && m / 2 == y && !(n % 2 == 1 && m % 2 == 1);
    AndParts(n, m);
  }

  /** Masking with the complement of the last three bits clears them. */
  lemma MaskHigh(q: nat, a: nat, b: nat, c: nat)
    requires a <= 1 && b <= 1 && c <= 1
    ensures And(8 * q + 4 * a + 2 * b + c, Not(4 * a + 2 * b + c)) == 8 * q
  {
    hide And;
    AndAll(q);
    ClearBit(q, -1, a);
    ClearBit(2 * q + a, -1 - a, b);
    ClearBit(4 * q + 2 * a + b, -1 - 2 * a - b, c);
  }

  lemma BlockSizeRounds(request: nat)
    requires request >= 1
    ensures BlockSize(request) % 8 == 0 && request + 4 <= BlockSize(request) < request + 12
  {
    hide And;
    ClearsLow(request + 4);
  }

  /** Clearing the bits that were found under the mask rounds down to a multiple of 8. */
  lemma ClearsLow(n: nat)
    ensures And(n, 7) == n % 8 && And(n, Not(n % 8)) == n - n % 8
  {
    hide And;
    var q, r := n / 8, n % 8;
    MaskLow(n);
    Octal(r);
    MaskHigh(q, r / 4, r % 4 / 2, r % 2);
  }

  // ---------- the same in 32 bits ----------

  predicate IsInt(x: int) { -0x8000_0000 <= x <= INT_MAX }

  /** The size as lib.c computes it, as the bits of an int. */
  function SizeBits(request: int): (bits: nat)
    ensures bits < M32
  {
    var size: nat := (request + 4) % M32;
    var offset := And(size, BLOCK_SIZE_STEP - 1);
    if offset == 0 then size else (And(size, Not(offset)) + BLOCK_SIZE_STEP) % M32
  }

  /** The int with these bits. */
  function Signed(bits: nat): int { if bits < 0x8000_0000 then bits else bits - M32 }

  /** Division in C, which rounds towards zero. */
  function Quotient(x: int, y: nat): int
    requires y > 0
  {
    if x >= 0 then x / y else -(-x / y)
  }

  /** The index into the table of headers. */
  function Index(request: int): int { Quotient(Signed(SizeBits(request)), BLOCK_SIZE_STEP) }

  /** Adding the size field and rounding up do not overflow an int. */
  predicate SizeFits(request: int) { request <= INT_MAX - 11 }

  /** The index of a request that is looked up is never in front of the table exactly if the size does not overflow. */
  lemma IndexExactly(request: int)
    requires IsInt(request)
    ensures request < 1 || Index(request) >= 0 <==> SizeFits(request)
    ensures request >= 1 && SizeFits(request) ==>
      SizeBits(request) == BlockSize(request) && Index(request) == ClassOf(request)
  {
    hide And;
    if request >= 1 {
      var size: nat := (request + 4) % M32;
      ClearsLow(size);
      BlockSizeRounds(request);
      if SizeFits(request) { assert size == request + 4; }
    }
  }

  /** Where that fails first and last: the index is far in front of the table. */
  lemma IndexInFront()
    ensures Index(INT_MAX - 11) == 0x1000_0000 - 1
    ensures Index(INT_MAX - 10) == -0x1000_0000 && Index(INT_MAX) == -0x1000_0000 + 1
  {
    hide And;
    ClearsLow(0x7fff_fff8);
    ClearsLow(0x7fff_fff9);
    ClearsLow(0x8000_0003);
  }

  /** The last three bits, one by one. */
  lemma Octal(r: nat)
    requires r < 8
    ensures r == 4 * (r / 4) + 2 * (r % 4 / 2) + r % 2 && r / 4 <= 1 && r % 4 / 2 <= 1
  {}

  /** A class holds the request, and no lower class does. */
  lemma ClassFits(request: nat)
    requires request >= 1
    ensures var c := ClassOf(request);
      1 <= c && request + 4 <= 8 * c < request + 12
  {
    BlockSizeRounds(request);
  }

  /** Ten blocks at a time; for the smallest class as many as fit into MIN_ALLOCATION bytes. */
  function BlocksPerChunk(c: nat): nat
    requires c >= 1
  {
    if 10 * (8 * c) < MIN_ALLOCATION then MIN_ALLOCATION / (8 * c) else 10
  }

  /** One more free block of class c at the end of the carved space. */
  ghost function AddBlock(h: Heap, c: nat): Heap
    requires c < |h.free|
  {
    h.(top := h.top + 8 * c,
       cls := h.cls[h.top := c],
       free := h.free[c := h.free[c] + [h.top]])
  }

  ghost function Carve(h: Heap, c: nat, n: nat): (r: Heap)
    requires c < |h.free|
    ensures |r.free| == |h.free|
  {
    if n == 0 then h else AddBlock(Carve(h, c, n - 1), c)
  }

  /** Unlink the first free block of class c for a request. */
  ghost function TakeFirst(h: Heap, c: nat, request: nat): Heap
    requires c < |h.free| && h.free[c] != []
  {
    h.(free := h.free[c := h.free[c][1..]], live := h.live[h.free[c][0] := request])
  }

  ghost function Supplied(h: Heap, c: nat): (r: Heap)
    requires 1 <= c < |h.free|
    ensures |r.free| == |h.free|
  {
    if h.free[c] == [] then Carve(h, c, BlocksPerChunk(c)) else h
  }

  /** Where the next chunk of class c would end. */
  ghost function ChunkEnd(h: Heap, c: nat): nat
    requires c >= 1
  {
    At(h.top, 8 * c, BlocksPerChunk(c))
  }

  /**
   What allocate takes for granted: the size does not overflow an int, and a chunk that has to
   be carved still fits below 2^32. It looks for neither.
   */
  ghost predicate HasRoom(h: Heap, request: int)
    requires |h.free| == NUM_SIZES
  {
    IsInt(request) && SizeFits(request) && ChunkFits(h, request)
  }

  ghost predicate ChunkFits(h: Heap, request: int)
    requires |h.free| == NUM_SIZES
  {
    request >= 1 && FitsClass(request) && h.free[ClassOf(request)] == [] ==> ChunkEnd(h, ClassOf(request)) <= M32
  }

  /** The request has a size class. */
  predicate FitsClass(request: int) { request >= 1 && 1 <= ClassOf(request) < NUM_SIZES }

  /** allocate: the heap afterwards and the address returned. */
  ghost function Allocated(h: Heap, request: int): (Heap, nat)
    requires Good(h)
  {
    if request < 1 then (h, 0) else
      BlockSizeRounds(request);
      var c := ClassOf(request);
      if c >= NUM_SIZES then (h, 0) else
        CarveProvides(h, c, BlocksPerChunk(c), 0);
        (TakeFirst(Supplied(h, c), c, request), Supplied(h, c).free[c][0] + 4)
  }

  /** release: the block goes to the front of the free list of its class. */
  ghost function Released(h: Heap, a: nat): Heap
    requires Good(h) && a in h.live
  {
    var c := h.cls[a];
    h.(free := h.free[c := [a] + h.free[c]], live := h.live - {a})
  }

  // ---------- every operation keeps the invariant ----------

  lemma AddBlockGood(h: Heap, c: nat)
    requires Good(h) && 0 < c < NUM_SIZES && h.top + 8 * c <= M32
    ensures Good(AddBlock(h, c))
  {
    assert c < |h.free| && h.top !in h.cls && forall a :: a in h.live ==> a in h.cls;
    AddBlockTiles(h, c);
    AddBlockLists(h, c);
    AddBlockRest(h, c);
    hide Tiled, FreeListsOk, LiveOk, NothingLost, AddBlock;
  }

  lemma AddBlockRest(h: Heap, c: nat)
    requires c < |h.free| && h.top !in h.cls && LiveOk(h) && NothingLost(h)
    ensures LiveOk(AddBlock(h, c)) && NothingLost(AddBlock(h, c))
  {
    OneMore(h.free[c], h.top);
    hide NoDuplicates;
  }

  lemma AddBlockLists(h: Heap, c: nat)
    requires FreeListsOk(h) && 0 < c < NUM_SIZES && h.top !in h.cls && forall a :: a in h.live ==> a in h.cls
    ensures FreeListsOk(AddBlock(h, c))
  {
    hide NoDuplicates;
    OneMore(h.free[c], h.top);
  }

  /** A new element at the end of a list. */
  lemma OneMore(list: seq<nat>, a: nat)
    ensures a in list + [a] && forall b :: b in list + [a] <==> b == a || b in list
    ensures NoDuplicates(list) && a !in list ==> NoDuplicates(list + [a])
  {
    assert (list + [a])[|list|] == a;
    forall b | b in list ensures b in list + [a] {
      var i :| 0 <= i < |list| && list[i] == b;
      assert (list + [a])[i] == b;
    }
  }

  lemma AddBlockTiles(h: Heap, c: nat)
    requires Tiled(h) && 0 < c < NUM_SIZES && c < |h.free| && h.top + 8 * c <= M32
    ensures Tiled(AddBlock(h, c)) && h.top !in h.cls
  {
    var r := AddBlock(h, c);
    forall x | r.start <= x < r.top ensures Covered(r.cls, x) {
      if x < h.top {
        assert Covered(h.cls, x);
        var a :| Contains(h.cls, a, x);
        assert Contains(r.cls, a, x);
      } else {
        assert Contains(r.cls, h.top, x);
      }
    }
  }

  /** base + i * step */
  ghost function At(base: nat, step: nat, i: nat): nat {
    if i == 0 then base else At(base, step, i - 1) + step
  }

  lemma {:induction false} CarveGood(h: Heap, c: nat, n: nat)
    requires Good(h) && 0 < c < NUM_SIZES && At(h.top, 8 * c, n) <= M32
    ensures Good(Carve(h, c, n))
  {
    if n > 0 {
      CarveGood(h, c, n - 1);
      CarveProvides(h, c, n - 1, 0);
      AddBlockGood(Carve(h, c, n - 1), c);
    }
  }

  /** Carving gives class c the blocks top, top + 8c, ... in ascending order. */
  lemma {:induction false} CarveProvides(h: Heap, c: nat, n: nat, i: nat)
    requires c < |h.free| && i <= n
    ensures var r := Carve(h, c, n);
      && r.top == At(h.top, 8 * c, n) && |r.free[c]| == |h.free[c]| + n
      && (i < n ==> r.free[c][|h.free[c]| + i] == At(h.top, 8 * c, i))
  {
    if n > 0 { CarveProvides(h, c, n - 1, if i < n then i else n - 1); }
  }

  /** Carving leaves everything else as it was. */
  lemma {:induction false} CarveKeeps(h: Heap, c: nat, n: nat)
    requires c < |h.free|
    ensures var r := Carve(h, c, n);
      r.start == h.start && r.live == h.live && forall d :: 0 <= d < |h.free| && d != c ==> r.free[d] == h.free[d]
  {
    if n > 0 { CarveKeeps(h, c, n - 1); }
  }

  lemma TakeFirstGood(h: Heap, c: nat, request: nat)
    requires Good(h) && 0 < c < NUM_SIZES && h.free[c] != []
    requires 0 < request && request + 4 <= 8 * c < request + 12
    ensures Good(TakeFirst(h, c, request))
  {
    var list := h.free[c];
    hide Tiled, NoDuplicates, FreeListsOk;
    TakeFirstLists(h, c, request);
    SameTiles(h, TakeFirst(h, c, request));
    FirstFree(h, c);
    WithoutFirst(list);
  }

  lemma TakeFirstLists(h: Heap, c: nat, request: nat)
    requires Good(h) && c < NUM_SIZES && h.free[c] != []
    ensures FreeListsOk(TakeFirst(h, c, request))
  {
    hide NoDuplicates, Tiled, NothingLost, LiveOk;
    FirstFree(h, c);
    WithoutFirst(h.free[c]);
  }

  lemma SameTiles(h: Heap, r: Heap)
    requires Tiled(h) && r.start == h.start && r.top == h.top && r.cls == h.cls
    ensures Tiled(r)
  {}

  /** A list without its first element. */
  lemma WithoutFirst(list: seq<nat>)
    requires list != [] && NoDuplicates(list)
    ensures NoDuplicates(list[1..]) && list[0] !in list[1..]
    ensures forall b :: b in list <==> b == list[0] || b in list[1..]
  {
    assert list == [list[0]] + list[1..];
  }

  /** Supplying a class keeps the invariant and leaves everyone's blocks alone. */
  lemma SuppliedGood(h: Heap, c: nat)
    requires Good(h) && 0 < c < NUM_SIZES && (h.free[c] == [] ==> ChunkEnd(h, c) <= M32)
    ensures var s := Supplied(h, c);
      Good(s) && s.free[c] != [] && s.free[c][0] in s.free[c] && s.live == h.live && s.start == h.start
  {
    if h.free[c] == [] {
      CarveGood(h, c, BlocksPerChunk(c));
      CarveKeeps(h, c, BlocksPerChunk(c));
      CarveProvides(h, c, BlocksPerChunk(c), 0);
    }
  }

  lemma FirstFree(h: Heap, c: nat)
    requires Good(h) && c < NUM_SIZES && h.free[c] != []
    ensures |h.free| == NUM_SIZES && h.free[c][0] in h.cls && h.cls[h.free[c][0]] == c && h.free[c][0] !in h.live
  {
    assert h.free[c][0] in h.free[c];
  }

  /** allocate keeps the invariant, hands out enough bytes, and takes nothing away from anyone. */
  lemma AllocateGood(h: Heap, request: int)
    requires Good(h) && HasRoom(h, request)
    ensures var (r, p) := Allocated(h, request);
      && Good(r) && r.start == h.start
      && (p == 0 <==> !FitsClass(request))
      && (p == 0 ==> r == h)
      && (p != 0 ==> p >= 4 && p - 4 !in h.live && r.live == h.live[p - 4 := request])
      && (p != 0 ==> p - 4 in r.cls && request <= 8 * r.cls[p - 4] - 4)
  {
    hide Good, HasRoom, ClassOf;
    if request >= 1 {
      ClassFits(request);
      if FitsClass(request) { AllocateServes(h, request); }
    }
  }

  /** Which requests are served: those of up to 4084 bytes, which 511 classes of 8 bytes each can hold. */
  lemma ServedExactly(h: Heap, request: int)
    requires Good(h)
    ensures FitsClass(request) <==> 1 <= request <= 4084
    ensures Allocated(h, request).1 == 0 <==> request < 1 || request > 4084
    ensures 1 <= request <= 4084 ==> ClassOf(request) == (request + 11) / 8
  {
    hide BlockSize;
    if request >= 1 { ClassFits(request); }
    if FitsClass(request) { FitsIsServed(h, request); }
  }

  lemma FitsIsServed(h: Heap, request: int)
    requires Good(h) && FitsClass(request)
    ensures Allocated(h, request).1 >= 4
  {}

  /** A chunk holds twelve blocks of the smallest class and ten of any other. */
  lemma ChunkSizes(c: nat)
    requires c >= 1
    ensures BlocksPerChunk(c) == if c == 1 then 12 else 10
  {}

  /**
   Where a block comes from: the front of its free list; if that is empty, the lowest block of a
   new chunk of ten, or twelve of the smallest, at the end of the carved space.
   */
  lemma WhereFrom(h: Heap, request: int)
    requires Good(h) && 1 <= request <= 4084
    ensures var c := (request + 11) / 8;
      var (r, p) := Allocated(h, request);
      && |h.free| == 512 && c < 512 && ClassOf(request) == c
      && (h.free[c] != [] ==> p == h.free[c][0] + 4 && r.top == h.top)
      && (h.free[c] == [] ==> p == h.top + 4 && r.top == h.top + if c == 1 then 96 else 80 * c)
  {
    ServedExactly(h, request);
    hide Good, BlockSize, ClassOf, FitsClass;
    var c := ClassOf(request);
    ChunkSizes(c);
    if h.free[c] == [] {
      CarveProvides(h, c, BlocksPerChunk(c), 0);
      CarveTop(h, c, BlocksPerChunk(c));
    }
  }

  lemma {:induction false} CarveTop(h: Heap, c: nat, n: nat)
    requires c < |h.free|
    ensures Carve(h, c, n).top == h.top + 8 * c * n
  {
    if n > 0 { CarveTop(h, c, n - 1); }
  }

  lemma AllocateServes(h: Heap, request: int)
    requires Good(h) && HasRoom(h, request) && FitsClass(request)
    ensures var (r, p) := Allocated(h, request);
      && Good(r) && r.start == h.start
      && p >= 4 && p - 4 !in h.live && r.live == h.live[p - 4 := request]
      && p - 4 in r.cls && request <= 8 * r.cls[p - 4] - 4
  {
    assert |h.free| == NUM_SIZES;
    AllocatedFirst(h, request);
    hide ClassOf, Supplied, TakeFirst, Good, Allocated;
    var c := ClassOf(request);
    ClassFits(request);
    SuppliedGood(h, c);
    TakenFrom(Supplied(h, c), c, request);
  }

  lemma AllocatedFirst(h: Heap, request: int)
    requires Good(h) && FitsClass(request)
    ensures var c := ClassOf(request);
      && 1 <= c < NUM_SIZES == |h.free| && Supplied(h, c).free[c] != []
      && Allocated(h, request) == (TakeFirst(Supplied(h, c), c, request), Supplied(h, c).free[c][0] + 4)
  {
    ClassFits(request);
    CarveProvides(h, ClassOf(request), BlocksPerChunk(ClassOf(request)), 0);
    hide ClassOf, TakeFirst, Good, Tiled, Carve;
  }

  /** What taking the first free block of a class comes to. */
  lemma TakenFrom(s: Heap, c: nat, request: nat)
    requires Good(s) && 0 < c < NUM_SIZES && s.free[c] != []
    requires 0 < request && request + 4 <= 8 * c < request + 12
    ensures var r, a := TakeFirst(s, c, request), s.free[c][0];
      && Good(r) && r.start == s.start && a !in s.live && r.live == s.live[a := request]
      && a in r.cls && request <= 8 * r.cls[a] - 4
  {
    FirstFree(s, c);
    TakeFirstGood(s, c, request);
    hide Good;
  }

  /** release keeps the invariant. */
  lemma ReleaseGood(h: Heap, a: nat)
    requires Good(h) && a in h.live
    ensures Good(Released(h, a))
  {
    hide Tiled, NoDuplicates;
    var c := h.cls[a];
    SameTiles(h, Released(h, a));
    OneInFront(h.free[c], a);
  }

  /** A new element in front of a list. */
  lemma OneInFront(list: seq<nat>, a: nat)
    ensures forall b :: b in [a] + list <==> b == a || b in list
    ensures NoDuplicates(list) && a !in list ==> NoDuplicates([a] + list)
  {
    assert ([a] + list)[0] == a;
    forall b | b in list ensures b in [a] + list {
      var i :| 0 <= i < |list| && list[i] == b;
      assert ([a] + list)[i + 1] == b;
    }
  }

  lemma SizeGivesClass(h: Heap, a: nat)
    requires Good(h) && a in h.live
    ensures h.live[a] >= 1 && ClassOf(h.live[a]) == h.cls[a] < NUM_SIZES
  {
    BlockSizeRounds(h.live[a]);
  }

  /** A released block is the next one handed out for its size class: release undoes allocate. */
  lemma ReleaseThenAllocate(h: Heap, a: nat)
    requires Good(h) && a in h.live
    ensures Good(Released(h, a)) && Allocated(Released(h, a), h.live[a]) == (h, a + 4)
  {
    ReleaseGood(h, a);
    SizeGivesClass(h, a);
    hide Good, BlockSize, ClassOf;
    var c, r := h.cls[a], Released(h, a);
    assert r.free[c] == [a] + h.free[c];
    assert r.free[c][1..] == h.free[c];
    assert r.free[c := h.free[c]] == h.free;
    assert r.live[a := h.live[a]] == h.live;
  }

  // ---------- whole runs ----------

  /** x is one of the bytes that were asked for when the live block a was allocated. */
  ghost predicate InPayload(h: Heap, a: nat, x: nat) {
    a in h.live && a + 4 <= x < a + 4 + h.live[a]
  }

  datatype Call = Allocate(request: int) | Release(block: nat) | Write(block: nat, x: nat, v: Octet)

  /** A client may release only what it holds, and write only where it was given room. */
  ghost predicate Legal(h: Heap, call: Call)
    requires |h.free| == NUM_SIZES
  {
    match call
    case Allocate(request) => HasRoom(h, request)
    case Release(a) => a in h.live
    case Write(a, x, _) => InPayload(h, a, x)
  }

  ghost function Step(h: Heap, call: Call): (r: Heap)
    requires Good(h) && Legal(h, call)
    ensures Good(r) && r.start == h.start
  {
    match call
    case Allocate(request) => AllocateGood(h, request); Allocated(h, request).0
    case Release(a) => ReleaseGood(h, a); Released(h, a)
    case Write(_, _, _) => h
  }

  ghost predicate LegalRun(h: Heap, calls: seq<Call>)
    requires Good(h)
    decreases |calls|
  {
    calls == [] || (Legal(h, calls[0]) && LegalRun(Step(h, calls[0]), calls[1..]))
  }

  /** The heap after any legal sequence of calls: it satisfies the invariant. */
  ghost function Run(h: Heap, calls: seq<Call>): (r: Heap)
    requires Good(h) && LegalRun(h, calls)
    ensures Good(r) && r.start == h.start
    decreases |calls|
  {
    if calls == [] then h else Run(Step(h, calls[0]), calls[1..])
  }

  /** In every heap a client can reach, no two blocks share a byte, and all lie inside the carved space. */
  lemma ReachableBlocksApart(h: Heap, calls: seq<Call>)
    requires Good(h) && LegalRun(h, calls)
    ensures Separate(Run(h, calls))
  {
    GoodIsSeparate(Run(h, calls));
  }

  /** The client does not release the block during the run. */
  ghost predicate StaysLive(h: Heap, calls: seq<Call>, a: nat)
    requires Good(h) && LegalRun(h, calls)
    decreases |calls|
  {
    a in h.live && (calls == [] || StaysLive(Step(h, calls[0]), calls[1..], a))
  }

  lemma StaysLiveAfter(h: Heap, calls: seq<Call>, a: nat)
    requires Good(h) && LegalRun(h, calls) && calls != [] && StaysLive(h, calls, a)
    ensures a in Step(h, calls[0]).live && StaysLive(Step(h, calls[0]), calls[1..], a)
  {
    hide Good, Legal, Step;
  }

  /** Byte x after one call of its owner. */
  function Written(call: Call, x: nat, before: Octet): Octet { if call.Write? && call.x == x then call.v else before }

  /** What the run last wrote to byte x, or what was there before. */
  ghost function LastWritten(calls: seq<Call>, x: nat, before: Octet): Octet {
    if calls == [] then before else LastWritten(calls[1..], x, Written(calls[0], x, before))
  }

  /** No call changes the size of a block that stays in use. */
  lemma StepKeepsPayload(h: Heap, call: Call, a: nat, x: nat)
    requires Good(h) && Legal(h, call) && InPayload(h, a, x) && a in Step(h, call).live
    ensures InPayload(Step(h, call), a, x)
  {
    if call.Allocate? { AllocateGood(h, call.request); }
  }

  // ---------- the heap in memory ----------

  ghost function First(list: seq<nat>): nat { if list == [] then 0 else list[0] }

  /** The blocks of `list`, linked through memory from `head` to NULL. */
  ghost predicate Chain(mem: Memory, head: nat, list: seq<nat>) {
    && head == First(list) && 0 !in list
    && forall i {:trigger LoadWord(mem, list[i])} :: 0 <= i < |list| ==> LoadWord(mem, list[i]) == First(list[i + 1..])
  }

  /** Memory and headers hold the heap h, as far as the classes other than `except` go. */
  ghost predicate Holds(mem: Memory, heads: seq<nat>, h: Heap, except: nat) {
    && |heads| == |h.free| == NUM_SIZES
    && (forall c :: 0 <= c < NUM_SIZES && c != except ==> Chain(mem, heads[c], h.free[c]))
    && (forall a :: a in h.live ==> a in h.cls && LoadWord(mem, a) == 8 * h.cls[a])
  }

  lemma ChainKept(mem: Memory, mem': Memory, head: nat, list: seq<nat>)
    requires Chain(mem, head, list) && forall a :: a in list ==> LoadWord(mem', a) == LoadWord(mem, a)
    ensures Chain(mem', head, list)
  {}

  /** Memory changes that spare the first word of every block keep the heap, wherever else they are. */
  lemma HoldsKept(mem: Memory, mem': Memory, heads: seq<nat>, h: Heap, except: nat)
    requires Good(h) && Holds(mem, heads, h, except)
    requires forall a :: a in h.cls ==> LoadWord(mem', a) == LoadWord(mem, a)
    ensures Holds(mem', heads, h, except)
  {
    forall c | 0 <= c < NUM_SIZES && c != except ensures Chain(mem', heads[c], h.free[c]) {
      ChainKept(mem, mem', heads[c], h.free[c]);
    }
  }

  /** Storing a link above all blocks. */
  lemma StoreAbove(mem: Memory, heads: seq<nat>, h: Heap, except: nat, x: nat, v: nat)
    requires Good(h) && Holds(mem, heads, h, except) && h.top <= x && v < M32
    ensures Holds(StoreWord(mem, x, v), heads, h, except)
  {
    forall a | a in h.cls ensures LoadWord(StoreWord(mem, x, v), a) == LoadWord(mem, a) {
      StoreLoad(mem, x, v, a);
    }
    HoldsKept(mem, StoreWord(mem, x, v), heads, h, except);
  }

  /** Writing a byte of a live payload changes no free list and no size field. */
  lemma WriteInside(mem: Memory, heads: seq<nat>, h: Heap, a: nat, x: nat, v: Octet)
    requires Good(h) && Holds(mem, heads, h, NUM_SIZES) && InPayload(h, a, x)
    ensures Holds(mem[x := v], heads, h, NUM_SIZES)
  {
    forall b | b in h.cls ensures LoadWord(mem[x := v], b) == LoadWord(mem, b) {
      assert b == a || b + 8 <= a || a + 8 * h.cls[a] <= b;
    }
    HoldsKept(mem, mem[x := v], heads, h, NUM_SIZES);
  }

  /** Storing in a block disturbs the first word of no other. */
  lemma StoreApart(mem: Memory, h: Heap, a: nat, v: nat)
    requires Good(h) && a in h.cls && v < M32
    ensures forall b :: b in h.cls && b != a ==> LoadWord(StoreWord(mem, a, v), b) == LoadWord(mem, b)
  {
    hide StoreWord, LoadWord;
    forall b | b in h.cls && b != a ensures LoadWord(StoreWord(mem, a, v), b) == LoadWord(mem, b) {
      StoreLoad(mem, a, v, b);
    }
  }

  lemma ChainHead(mem: Memory, head: nat, list: seq<nat>)
    requires Chain(mem, head, list)
    ensures head == First(list)
  {}

  /** The header of a free list holds a 32-bit address. */
  lemma HeadIsWord(mem: Memory, heads: seq<nat>, h: Heap, c: nat)
    requires Good(h) && c < NUM_SIZES && Holds(mem, heads, h, NUM_SIZES)
    ensures heads[c] < M32
  {
    ChainHead(mem, heads[c], h.free[c]);
    if h.free[c] != [] { FirstIsFree(h, c); }
  }

  lemma ChainPop(mem: Memory, mem': Memory, head: nat, list: seq<nat>)
    requires Chain(mem, head, list) && list != [] && NoDuplicates(list)
    requires forall b :: b in list && b != head ==> LoadWord(mem', b) == LoadWord(mem, b)
    ensures head == list[0] && Chain(mem', LoadWord(mem, head), list[1..])
  {
    hide LoadWord;
    var rest := list[1..];
    assert LoadWord(mem, list[0]) == First(list[1..]);
    forall i | 0 <= i < |rest| ensures LoadWord(mem', rest[i]) == First(rest[i + 1..]) {
      assert rest[i] == list[i + 1] && list[i + 1] in list && list[i + 1] != list[0];
      assert list[i + 2..] == rest[i + 1..];
    }
  }

  lemma ChainPush(mem: Memory, mem': Memory, head: nat, list: seq<nat>, a: nat)
    requires Chain(mem, head, list) && a != 0 && LoadWord(mem', a) == head
    requires forall b :: b in list ==> LoadWord(mem', b) == LoadWord(mem, b)
    ensures Chain(mem', a, [a] + list)
  {
    hide LoadWord;
    var all := [a] + list;
    assert all[1..] == list;
    forall i | 0 < i < |all| ensures LoadWord(mem', all[i]) == First(all[i + 1..]) {
      assert all[i] == list[i - 1] && list[i - 1] in list && all[i + 1..] == list[i..];
    }
  }

  /** A block is on no free list but that of its class, and there only when it is not in use. */
  lemma OnOneList(h: Heap, a: nat, d: nat)
    requires Good(h) && a in h.cls && d < NUM_SIZES && (d != h.cls[a] || a in h.live)
    ensures a !in h.free[d] && a != 0
    ensures forall b :: b in h.free[d] ==> b in h.cls && b != a
  {}

  /** Unlinking the first block of class c and writing its size. */
  lemma PopHolds(mem: Memory, heads: seq<nat>, h: Heap, c: nat, request: nat)
    requires Good(h) && 0 < c < NUM_SIZES && Holds(mem, heads, h, NUM_SIZES) && h.free[c] != []
    ensures heads[c] == h.free[c][0]
    ensures Holds(StoreWord(mem, heads[c], 8 * c), heads[c := LoadWord(mem, heads[c])],
                  TakeFirst(h, c, request), NUM_SIZES)
  {
    hide LoadWord, StoreWord, Chain, Good, NoDuplicates;
    var a, list := h.free[c][0], h.free[c];
    var mem' := StoreWord(mem, a, 8 * c);
    FirstIsFree(h, c);
    StoreApart(mem, h, a, 8 * c);
    StoreLoad(mem, a, 8 * c, a);
    ChainHead(mem, heads[c], list);
    ChainPop(mem, mem', heads[c], list);
    forall d | 0 <= d < NUM_SIZES && d != c ensures Chain(mem', heads[d], h.free[d]) {
      OnOneList(h, a, d);
      ChainKept(mem, mem', heads[d], h.free[d]);
    }
  }

  lemma FirstIsFree(h: Heap, c: nat)
    requires Good(h) && c < NUM_SIZES && h.free[c] != []
    ensures h.free[c][0] in h.cls && h.cls[h.free[c][0]] == c && NoDuplicates(h.free[c])
    ensures forall b :: b in h.free[c] ==> b in h.cls
    ensures forall b :: b in h.live ==> b in h.cls && b != h.free[c][0]
  {
    assert h.free[c][0] in h.free[c];
  }

  /** Linking a block back in front of its list. */
  lemma PushHolds(mem: Memory, heads: seq<nat>, h: Heap, a: nat)
    requires Good(h) && Holds(mem, heads, h, NUM_SIZES) && a in h.live
    ensures var c := h.cls[a];
      heads[c] < M32 && Holds(StoreWord(mem, a, heads[c]), heads[c := a], Released(h, a), NUM_SIZES)
  {
    hide LoadWord, StoreWord, Chain;
    var c := h.cls[a];
    HeadIsWord(mem, heads, h, c);
    var list, mem' := h.free[c], StoreWord(mem, a, heads[c]);
    StoreApart(mem, h, a, heads[c]);
    StoreLoad(mem, a, heads[c], a);
    forall d | 0 <= d < NUM_SIZES ensures Chain(mem', heads[d], h.free[d]) {
      OnOneList(h, a, d);
      ChainKept(mem, mem', heads[d], h.free[d]);
    }
    OnOneList(h, a, c);
    ChainPush(mem, mem', heads[c], list, a);
  }

  lemma HeadEmpty(mem: Memory, heads: seq<nat>, h: Heap, c: nat)
    requires Good(h) && c < NUM_SIZES && Holds(mem, heads, h, NUM_SIZES)
    ensures heads[c] == 0 <==> h.free[c] == []
  {
    assert Chain(mem, heads[c], h.free[c]);
  }

  /** No byte that a client owns has changed. */
  ghost predicate SamePayloads(h: Heap, mem: Memory, mem': Memory) {
    forall a: nat, x: nat :: InPayload(h, a, x) ==> Byte(mem', x) == Byte(mem, x)
  }

  lemma SamePayloadsTransitive(h: Heap, g: Heap, m0: Memory, m1: Memory, m2: Memory)
    requires SamePayloads(h, m0, m1) && SamePayloads(g, m1, m2) && h.live == g.live
    ensures SamePayloads(h, m0, m2)
  {
    forall a: nat, x: nat | InPayload(h, a, x) ensures Byte(m2, x) == Byte(m0, x) {
      assert InPayload(g, a, x);
    }
  }

  /** The payload of a live block lies below the top and off the first word of any other block. */
  lemma PayloadApart(h: Heap, b: nat, x: nat)
    requires Good(h) && InPayload(h, b, x)
    ensures x < h.top && forall a: nat :: a in h.cls && a != b ==> x < a || a + 4 <= x
  {
    assert forall a: nat :: a in h.cls && a != b ==> a + 8 <= b || b + 8 * h.cls[b] <= a;
  }

  // ---------- carving a chunk ----------

  /** The blocks still to be linked, counted from the end of the chunk downwards. */
  ghost predicate Carving(mem: Memory, heads: seq<nat>, h: Heap, c: nat, n: nat, j: nat) {
    && Holds(mem, heads, h, c) && c < NUM_SIZES && j <= n
    && |Carve(h, c, n).free[c]| == n && At(h.top, 8 * c, n) <= M32
    && Chain(mem, heads[c], Carve(h, c, n).free[c][j..])
  }

  /** One turn of the loop: the block at index j - 1 goes in front. */
  lemma CarveStep(mem: Memory, heads: seq<nat>, h: Heap, c: nat, n: nat, j: nat)
    requires Good(h) && 0 < c < NUM_SIZES && h.free[c] == [] && 0 < j && Carving(mem, heads, h, c, n, j)
    ensures var a := At(h.top, 8 * c, j - 1);
      heads[c] < M32 && Carving(StoreWord(mem, a, heads[c]), heads[c := a], h, c, n, j - 1)
  {
    hide LoadWord, StoreWord, Chain, Carve;
    var a := At(h.top, 8 * c, j - 1);
    var list := Carve(h, c, n).free[c];
    CarveProvides(h, c, n, j - 1);
    AtGrows(h.top, 8 * c, 0, j - 1);
    ChainHead(mem, heads[c], list[j..]);
    if j < n {
      CarveProvides(h, c, n, j);
      AtGrows(h.top, 8 * c, j, n);
    }
    var mem' := StoreWord(mem, a, heads[c]);
    StoreAbove(mem, heads, h, c, a, heads[c]);
    StoreLoad(mem, a, heads[c], a);
    forall b | b in list[j..] ensures LoadWord(mem', b) == LoadWord(mem, b) {
      var i :| j <= i < n && list[i] == b;
      CarveProvides(h, c, n, i);
      AtGrows(h.top, 8 * c, j - 1, i);
      StoreLoad(mem, a, heads[c], b);
    }
    ChainPush(mem, mem', heads[c], list[j..], a);
    assert list[j - 1..] == [a] + list[j..];
    HoldsOther(mem', heads, heads[c := a], h, c);
  }

  lemma HoldsOther(mem: Memory, heads: seq<nat>, heads': seq<nat>, h: Heap, c: nat)
    requires c < NUM_SIZES && Holds(mem, heads, h, c) && |heads'| == NUM_SIZES && heads' == heads[c := heads'[c]]
    ensures Holds(mem, heads', h, c)
  {
    hide LoadWord, Chain;
  }

  lemma CarveStart(mem: Memory, heads: seq<nat>, h: Heap, c: nat, n: nat)
    requires Good(h) && 0 < c < NUM_SIZES && h.free[c] == [] && Holds(mem, heads, h, NUM_SIZES)
    requires At(h.top, 8 * c, n) <= M32
    ensures Carving(mem, heads, h, c, n, n)
  {
    CarveProvides(h, c, n, n);
    assert Carve(h, c, n).free[c][n..] == [];
  }

  lemma {:induction false} AtGrows(base: nat, step: nat, i: nat, j: nat)
    requires i <= j && step >= 8
    ensures At(base, step, i) <= At(base, step, j) && (i < j ==> At(base, step, i) + step <= At(base, step, j))
  {
    if i < j { AtGrows(base, step, i, j - 1); }
  }

  lemma {:induction false} AtProduct(base: nat, step: nat, i: nat)
    ensures At(base, step, i) == base + i * step
  {
    if i > 0 { AtProduct(base, step, i - 1); }
  }

  lemma CarveDone(mem: Memory, heads: seq<nat>, h: Heap, c: nat, n: nat)
    requires Good(h) && 0 < c < NUM_SIZES && h.free[c] == [] && Carving(mem, heads, h, c, n, 0)
    ensures Holds(mem, heads, Carve(h, c, n), NUM_SIZES)
  {
    CarveKeeps(h, c, n);
    CarveKeepsClasses(h, c, n);
    assert Carve(h, c, n).free[c][0..] == Carve(h, c, n).free[c];
  }

  lemma {:induction false} CarveKeepsClasses(h: Heap, c: nat, n: nat)
    requires Good(h) && 0 < c < NUM_SIZES && At(h.top, 8 * c, n) <= M32
    ensures forall a :: a in h.cls ==> a in Carve(h, c, n).cls && Carve(h, c, n).cls[a] == h.cls[a]
  {
    if n > 0 {
      CarveKeepsClasses(h, c, n - 1);
      CarveProvides(h, c, n - 1, 0);
      CarveGood(h, c, n - 1);
      assert Carve(h, c, n - 1).top !in Carve(h, c, n - 1).cls;
    }
  }

  ghost function Fresh(start: nat): Heap {
    Heap(start, start, map[], map[], seq(NUM_SIZES, _ => []))
  }

  lemma FreshHolds(mem: Memory, heads: seq<nat>, start: nat)
    requires |heads| == NUM_SIZES && forall c :: 0 <= c < NUM_SIZES ==> heads[c] == 0
    ensures Holds(mem, heads, Fresh(start), NUM_SIZES)
  {}

  /** Storing a word into the header of a block touches no other live payload. */
  lemma StoreSparesPayloads(mem: Memory, h: Heap, r: Heap, f: nat, v: nat)
    requires Good(h) && f in h.cls && v < M32
    requires forall a :: a in r.live ==> a in h.live && a != f && r.live[a] == h.live[a]
    ensures SamePayloads(r, mem, StoreWord(mem, f, v))
  {
    forall a: nat, x: nat | InPayload(r, a, x) ensures Byte(StoreWord(mem, f, v), x) == Byte(mem, x) {
      PayloadApart(h, a, x);
      StoreBytes(mem, f, v, x);
    }
  }

  lemma PayloadsBelow(h: Heap, mem: Memory, mem': Memory)
    requires Good(h) && forall x: nat :: x < h.top ==> Byte(mem', x) == Byte(mem, x)
    ensures SamePayloads(h, mem, mem')
  {
    forall a: nat, x: nat | InPayload(h, a, x) ensures Byte(mem', x) == Byte(mem, x) { PayloadApart(h, a, x); }
  }

  class SmallBlockHeap {
    const headers: array<nat>
    var freeSpace: nat
    var initialized: bool
    var mem: Memory
    ghost var h: Heap

    ghost predicate Valid()
      reads this, headers
    {
      && headers.Length == NUM_SIZES && Good(h) && h.top == freeSpace && 8 * NUM_SIZES <= h.start
      && (if initialized then Holds(mem, headers[..], h, NUM_SIZES) else h == Fresh(freeSpace))
    }

    /** init_heap */
    constructor (heapStart: nat)
      requires 8 * NUM_SIZES <= heapStart <= M32
      ensures Valid() && h == Fresh(heapStart)
      ensures fresh(headers)
    {
      headers := new nat[NUM_SIZES];
      freeSpace := heapStart;
      initialized := false;
      mem := map[];
      h := Fresh(heapStart);
    }

    /** The loop that places a linked list inside a new chunk, from its last block downwards. */
    method LinkBlocks(chunk: nat, end: nat, size: nat, numSize: nat, ghost n: nat)
      requires headers.Length == NUM_SIZES && Good(h) && h.top == chunk && 8 * NUM_SIZES <= h.start
      requires size == 8 * numSize && 0 < numSize < NUM_SIZES && h.free[numSize] == []
      requires end == At(chunk, size, n) && Carving(mem, headers[..], h, numSize, n, n)
      modifies this`mem, headers
      ensures Carving(mem, headers[..], h, numSize, n, 0)
      ensures forall x: nat :: x < chunk ==> Byte(mem, x) == old(Byte(mem, x))
    {
      var endChunk: int := end - size;
      ghost var j := n;
      while endChunk >= chunk
        invariant endChunk + size == At(chunk, size, j)
        invariant Carving(mem, headers[..], h, numSize, n, j)
        invariant forall x: nat :: x < chunk ==> Byte(mem, x) == old(Byte(mem, x))
        decreases j
      {
        assert j > 0 && endChunk == At(chunk, size, j - 1);
        ghost var heads := headers[..];
        CarveStep(mem, heads, h, numSize, n, j);
        mem := StoreWord(mem, endChunk, headers[numSize]);
        headers[numSize] := endChunk;
        assert headers[..] == heads[numSize := At(chunk, size, j - 1)];
        endChunk := endChunk - size;
        j := j - 1;
      }
      AtGrows(chunk, size, 0, j);
    }

    /** allocate fills an empty free list with a chunk of equal blocks. */
    method CarveChunk(size: nat, numSize: nat)
      requires Valid() && initialized && size == 8 * numSize && 0 < numSize < NUM_SIZES && h.free[numSize] == []
      requires ChunkEnd(h, numSize) <= M32
      modifies this, headers
      ensures Valid() && initialized && h == Carve(old(h), numSize, BlocksPerChunk(numSize))
      ensures forall x: nat :: x < old(freeSpace) ==> Byte(mem, x) == old(Byte(mem, x))
    {
      hide Good, Holds, Carving;
      var allocation := size * 10;
      if allocation < MIN_ALLOCATION {
        var numChunks := MIN_ALLOCATION / size;
        allocation := numChunks * size;
      }
      var chunk := freeSpace;
      freeSpace := chunk + allocation;
      ghost var n := BlocksPerChunk(numSize);
      AtProduct(chunk, size, n);
      CarveStart(mem, headers[..], h, numSize, n);
      LinkBlocks(chunk, chunk + allocation, size, numSize, n);
      CarveDone(mem, headers[..], h, numSize, n);
      CarveProvides(h, numSize, n, n);
      CarveGood(h, numSize, n);
      CarveKeeps(h, numSize, n);
      h := Carve(h, numSize, n);
    }

    /** The first call of allocate empties all free lists. */
    method ClearHeaders()
      requires Valid() && !initialized
      modifies this`initialized, headers
      ensures Valid() && initialized
    {
      initialized := true;
      for j := 0 to NUM_SIZES
        invariant initialized && forall i :: 0 <= i < j ==> headers[i] == 0
      {
        headers[j] := 0;
      }
      FreshHolds(mem, headers[..], h.start);
    }

    /** The end of allocate: unlink the first free block and store its size in front. */
    method Unlink(size: nat, numSize: nat, request: nat, ghost before: Heap) returns (p: nat)
      requires Valid() && initialized && Good(before) && 0 < numSize < NUM_SIZES && size == 8 * numSize
      requires request >= 1 && ClassOf(request) == numSize && h == Supplied(before, numSize) && h.free[numSize] != []
      modifies this, headers
      ensures initialized && h == Allocated(before, request).0 && p == Allocated(before, request).1
      ensures Good(h) ==> Valid()
      ensures SamePayloads(old(h), old(mem), mem)
    {
      hide Good, Holds;
      FirstFree(h, numSize);
      PopHolds(mem, headers[..], h, numSize, request);
      StoreSparesPayloads(mem, h, h, headers[numSize], size);
      var block := headers[numSize];
      ghost var heads := headers[..];
      headers[numSize] := LoadWord(mem, block);
      assert headers[..] == heads[numSize := LoadWord(mem, block)];
      mem := StoreWord(mem, block, size);
      h := TakeFirst(h, numSize, request);
      p := block + 4;
    }

    /** allocate. If the size overflows an int, the header looked up lies in front of the table. */
    method Allocate(request: int) returns (p: nat, outside: bool)
      requires Valid() && IsInt(request) && ChunkFits(h, request)
      modifies this, headers
      ensures outside <==> !SizeFits(request)
      ensures outside ==> h == old(h) && mem == old(mem)
      ensures !outside ==> Valid() && h == Allocated(old(h), request).0 && p == Allocated(old(h), request).1
      ensures !outside ==> (p == 0 <==> request < 1 || request > 4084)
      ensures !outside ==> SamePayloads(old(h), old(mem), mem)
    {
      hide Good, Holds;
      IndexExactly(request);
      ServedExactly(h, request);
      if !initialized { ClearHeaders(); }
      if request < 1 { return 0, false; }
      var bits: nat := (request + 4) % M32;
      var offset := And(bits, BLOCK_SIZE_STEP - 1);
      if offset != 0 {
        bits := (And(bits, Not(offset)) + BLOCK_SIZE_STEP) % M32;
      }
      var numSize := Quotient(Signed(bits), BLOCK_SIZE_STEP);
      if numSize >= NUM_SIZES { return 0, false; }
      if numSize < 0 { return 0, true; }
      ClassFits(request);
      p := Serve(bits, numSize, request);
      outside := false;
    }

    /** The rest of allocate, for a size with a class. */
    method Serve(size: nat, numSize: nat, request: int) returns (p: nat)
      requires Valid() && initialized && HasRoom(h, request) && FitsClass(request)
      requires size == BlockSize(request) && numSize == ClassOf(request)
      modifies this, headers
      ensures Valid() && h == Allocated(old(h), request).0 && p == Allocated(old(h), request).1
      ensures SamePayloads(old(h), old(mem), mem)
    {
      hide Good, Holds;
      BlockSizeRounds(request);
      HeadEmpty(mem, headers[..], h, numSize);
      SuppliedGood(h, numSize);
      AllocateGood(h, request);
      if headers[numSize] == 0 {
        CarveChunk(size, numSize);
        PayloadsBelow(old(h), old(mem), mem);
      }
      ghost var supplied, carved := h, mem;
      p := Unlink(size, numSize, request, old(h));
      SamePayloadsTransitive(old(h), supplied, old(mem), carved, mem);
    }

    /** release */
    method Release(memory: nat)
      requires Valid() && IsLive(memory)
      modifies this, headers
      ensures Valid() && h == Released(old(h), memory - 4)
      ensures SamePayloads(h, old(mem), mem)
    {
      hide Good, Holds;
      var chunk: nat := memory - 4;
      ReleaseReady(mem, headers[..], h, chunk);
      var size := LoadWord(mem, chunk);
      var numSize := size / BLOCK_SIZE_STEP;
      ghost var heads := headers[..];
      mem := StoreWord(mem, chunk, headers[numSize]);
      headers[numSize] := chunk;
      assert headers[..] == heads[numSize := chunk];
      h := Released(h, chunk);
    }

    /** An address that allocate returned and nobody has released since. */
    ghost predicate IsLive(memory: nat)
      reads this
    {
      memory >= 4 && memory - 4 in h.live
    }

    /** A client writes a byte of a block it owns. */
    method WriteByte(memory: nat, x: nat, v: Octet)
      requires Valid() && IsLive(memory) && InPayload(h, memory - 4, x)
      modifies this`mem
      ensures Valid() && h == old(h)
      ensures forall y: nat :: Byte(mem, y) == if y == x then v else old(Byte(mem, y))
    {
      hide Good, Holds;
      if initialized {
        WriteInside(mem, headers[..], h, memory - 4, x, v);
      }
      mem := mem[x := v];
    }

    /** One call of a client; the blocks that stay in use keep their bytes, but for the one written. */
    method Perform(call: Call)
      requires Valid() && Legal(h, call)
      modifies this, headers
      ensures Valid() && h == Step(old(h), call)
      ensures forall a: nat, x: nat :: InPayload(old(h), a, x) && a in h.live ==>
        InPayload(h, a, x) && Byte(mem, x) == Written(call, x, old(Byte(mem, x)))
    {
      hide Good, Holds, Allocated, Released, IsInt, SizeFits, ChunkFits;
      ghost var before := h;
      match call {
        case Allocate(request) => var _, _ := Allocate(request);
        case Release(block) => Release(block + 4);
        case Write(block, x, v) => WriteByte(block + 4, x, v);
      }
      forall a: nat, x: nat | InPayload(before, a, x) && a in h.live ensures InPayload(h, a, x) {
        StepKeepsPayload(before, call, a, x);
      }
    }

    /**
     A client's run. Every byte of a block that is not released holds what was last written to
     it, whatever else is allocated, released and written meanwhile.
     */
    method Execute(calls: seq<Call>)
      requires Valid() && LegalRun(h, calls)
      modifies this, headers
      ensures Valid() && h == Run(old(h), calls)
      ensures forall a: nat, x: nat :: InPayload(old(h), a, x) && StaysLive(old(h), calls, a) ==>
        Byte(mem, x) == LastWritten(calls, x, old(Byte(mem, x)))
      decreases |calls|
    {
      hide Good, Holds, Legal, Step, InPayload, Byte, Written;
      if calls == [] { return; }
      ghost var start, bytes := h, mem;
      var first := calls[0];
      Perform(first);
      ghost var next, between := h, mem;
      Execute(calls[1..]);
      forall a: nat, x: nat | InPayload(start, a, x) && StaysLive(start, calls, a)
        ensures Byte(mem, x) == LastWritten(calls, x, Byte(bytes, x))
      {
        StaysLiveAfter(start, calls, a);
        assert InPayload(next, a, x) && Byte(between, x) == Written(first, x, Byte(bytes, x));
      }
    }
  }

  lemma ReleaseReady(mem: Memory, heads: seq<nat>, h: Heap, a: nat)
    requires Good(h) && Holds(mem, heads, h, NUM_SIZES) && a in h.live
    ensures LoadWord(mem, a) / BLOCK_SIZE_STEP == h.cls[a] < |heads|
    ensures var c := h.cls[a];
      heads[c] < M32 && Holds(StoreWord(mem, a, heads[c]), heads[c := a], Released(h, a), NUM_SIZES)
    ensures Good(Released(h, a)) && Released(h, a).top == h.top && Released(h, a).start == h.start
    ensures SamePayloads(Released(h, a), mem, StoreWord(mem, a, heads[h.cls[a]]))
  {
    PushHolds(mem, heads, h, a);
    ReleaseGood(h, a);
    StoreSparesPayloads(mem, h, Released(h, a), a, heads[h.cls[a]]);
  }
}
