/**
 The simulator's memory, Assignment4/src/memory.c: pages of 16384 words, allocated when first
 touched, behind reads and writes of words, halfwords and bytes. It is proved to be a flat,
 zero-initialised, little-endian array of 2^32 bytes. An address or a word is the unsigned
 reading of the C `int`.
 */
module PagedMemory {
  import opened BitMasks
  import opened ByteLanes
  import opened Bytes

  const PAGES: nat := 0x1_0000
  const PAGE_WORDS: nat := 0x4000

  type Page = array<Word>

  /** The byte at an address of the word it lies in. */
  function ByteOf(word: Word, a: nat): Octet { ToLittleEndian(word)[a % 4] }

  class Memory {
    const pages: array<array?<Word>>
    ghost var Repr: set<object>

    ghost predicate Valid()
      reads this, pages, Repr
    {
      && pages.Length == PAGES && pages !in Repr
      && (forall p :: 0 <= p < PAGES && pages[p] != null ==> pages[p] in Repr && pages[p].Length == PAGE_WORDS)
      && (forall p, q :: 0 <= p < q < PAGES && pages[p] != null ==> pages[p] != pages[q])
    }

    /** The word with index i; a page not yet allocated holds zeros. */
    ghost function WordAt(i: nat): Word
      requires Valid() && i < PAGES * PAGE_WORDS
      reads this, pages, Repr
    {
      if pages[i / PAGE_WORDS] == null then 0 else pages[i / PAGE_WORDS][i % PAGE_WORDS]
    }

    /** The flat memory. */
    ghost function ByteAt(a: nat): Octet
      requires Valid() && a < M32
      reads this, pages, Repr
    {
      ByteOf(WordAt(a / 4), a)
    }

    /** memory_create */
    constructor ()
      ensures Valid() && fresh(pages) && Repr == {}
      ensures forall a :: 0 <= a < M32 ==> ByteAt(a) == 0
    {
      pages := new array?<Word>[PAGES](_ => null);
      Repr := {};
    }

    /** get_page: allocating a page cannot be observed. */
    method GetPage(addr: nat) returns (page: Page)
      requires Valid() && addr < M32
      modifies this, pages
      ensures Valid() && Repr >= old(Repr) && fresh(Repr - old(Repr))
      ensures page in Repr && page == pages[addr / 0x1_0000] && page.Length == PAGE_WORDS
      ensures forall i :: 0 <= i < PAGES * PAGE_WORDS ==> WordAt(i) == old(WordAt(i))
    {
      PageOf(addr);
      var pageNumber := And(addr / 0x1_0000, 0xffff);
      if pages[pageNumber] == null {
        var empty := new Word[PAGE_WORDS](_ => 0);
        pages[pageNumber] := empty;
        Repr := Repr + {empty};
      }
      page := pages[pageNumber];
    }

    /** `page[(addr >> 2) & 0x3fff]` */
    method Load(addr: nat) returns (word: Word)
      requires Valid() && addr < M32
      modifies this, pages
      ensures Valid() && fresh(Repr - old(Repr)) && Same()
      ensures word == WordAt(addr / 4)
    {
      PageOf(addr);
      var page := GetPage(addr);
      word := page[And(addr / 4, 0x3fff)];
    }

    /** No byte has changed. */
    twostate predicate Same()
      requires Valid() && old(Valid())
      reads this, pages, Repr
    {
      forall i :: 0 <= i < PAGES * PAGE_WORDS ==> WordAt(i) == old(WordAt(i))
    }

    /** Exactly the bytes from addr on have been replaced by the given ones. */
    twostate predicate Wrote(addr: nat, bytes: seq<Octet>)
      requires Valid() && old(Valid())
      reads this, pages, Repr
    {
      forall a :: 0 <= a < M32 ==> ByteAt(a) == if addr <= a < addr + |bytes| then bytes[a - addr] else old(ByteAt(a))
    }

    /** Storing a word some of whose bytes are new, the others as they were. */
    method Store(addr: nat, word: Word, ghost bytes: seq<Octet>)
      requires Valid() && addr < M32 && addr % 4 + |bytes| <= 4
      requires ToLittleEndian(word) == Patched(ToLittleEndian(WordAt(addr / 4)), addr % 4, bytes)
      modifies this, pages, Repr
      ensures Valid() && fresh(Repr - old(Repr)) && Wrote(addr, bytes)
    {
      PageOf(addr);
      var page := GetPage(addr);
      page[And(addr / 4, 0x3fff)] := word;
      assert WordAt(addr / 4) == word;
      assert forall i :: 0 <= i < PAGES * PAGE_WORDS && i != addr / 4 ==> WordAt(i) == old(WordAt(i));
      forall a | 0 <= a < M32
        ensures ByteAt(a) == if addr <= a < addr + |bytes| then bytes[a - addr] else old(ByteAt(a))
      {
        if a / 4 != addr / 4 { assert !(addr <= a < addr + |bytes|); }
      }
    }

    /** memory_wr_w: an unaligned address stops the program before anything is written. */
    method WriteWord(addr: nat, data: Word) returns (ok: bool)
      requires Valid() && addr < M32
      modifies this, pages, Repr
      ensures Valid() && fresh(Repr - old(Repr)) && ok == (addr % 4 == 0)
      ensures if ok then Wrote(addr, ToLittleEndian(data)) else Same()
    {
      LowBits(addr);
      ok := And(addr, 3) == 0;
      if ok {
        Store(addr, data, ToLittleEndian(data));
      }
    }

    /** memory_wr_h: the two low bytes of data. */
    method WriteHalf(addr: nat, data: Word) returns (ok: bool)
      requires Valid() && addr < M32
      modifies this, pages, Repr
      ensures Valid() && fresh(Repr - old(Repr)) && ok == (addr % 2 == 0)
      ensures if ok then Wrote(addr, ToLittleEndian(data)[..2]) else Same()
    {
      LowBits(addr);
      if And(addr, 1) != 0 { return false; }
      label start:
      var word := Load(addr);
      HalfLanes(word, data);
      if And(addr, 2) == 0 {
        word := Or(And(word, 0xffff0000), And(data, 0x0000ffff));
      } else {
        word := Or(And(word, 0x0000ffff), data * 0x1_0000 % M32);
      }
      Store(addr, word, ToLittleEndian(data)[..2]);
      ok := true;
    }

    /** memory_wr_b: the lowest byte of data. */
    method WriteByte(addr: nat, data: Word)
      requires Valid() && addr < M32
      modifies this, pages, Repr
      ensures Valid() && fresh(Repr - old(Repr)) && Wrote(addr, ToLittleEndian(data)[..1])
    {
      LowBits(addr);
      var word := Load(addr);
      LowByteLanes(word, data);
      HighByteLanes(word, data);
      match And(addr, 3) {
        case 0 => word := Or(And(word, 0xffffff00), And(data, 0xff));
        case 1 => word := Or(And(word, 0xffff00ff), And(data, 0xff) * 0x100);
        case 2 => word := Or(And(word, 0xff00ffff), And(data, 0xff) * 0x1_0000);
        case _ => word := Or(And(word, 0x00ffffff), And(data, 0xff) * 0x100_0000);
      }
      Store(addr, word, ToLittleEndian(data)[..1]);
    }

    /** memory_rd_w */
    method ReadWord(addr: nat) returns (ok: bool, data: Word)
      requires Valid() && addr < M32
      modifies this, pages
      ensures Valid() && fresh(Repr - old(Repr)) && Same() && ok == (addr % 4 == 0)
      ensures ok ==> data == LittleEndian([ByteAt(addr), ByteAt(addr + 1), ByteAt(addr + 2), ByteAt(addr + 3)])
    {
      hide And, ToBigEndian, BigEndian, LittleEndian;
      LowBits(addr);
      data := Load(addr);
      ok := And(addr, 3) == 0;
      WordRoundTrip(data);
      if ok {
        assert ToLittleEndian(data) == [ByteAt(addr), ByteAt(addr + 1), ByteAt(addr + 2), ByteAt(addr + 3)];
      }
    }

    /** memory_rd_h: zero-extended. */
    method ReadHalf(addr: nat) returns (ok: bool, data: Word)
      requires Valid() && addr < M32
      modifies this, pages
      ensures Valid() && fresh(Repr - old(Repr)) && Same() && ok == (addr % 2 == 0)
      ensures ok ==> data == LittleEndian([ByteAt(addr), ByteAt(addr + 1), 0, 0])
    {
      LowBits(addr);
      var word := Load(addr);
      ok := And(addr, 1) == 0;
      ReadLanes(word);
      if And(addr, 2) == 0 {
        data := And(word, 0xffff);
      } else {
        data := And(word / 0x1_0000, 0xffff);
      }
    }

    /** memory_rd_b: zero-extended. */
    method ReadByte(addr: nat) returns (data: Word)
      requires Valid() && addr < M32
      modifies this, pages
      ensures Valid() && fresh(Repr - old(Repr)) && Same()
      ensures data == ByteAt(addr)
    {
      LowBits(addr);
      var word := Load(addr);
      ReadLanes(word);
      match And(addr, 3) {
        case 0 => data := And(word, 0xff);
        case 1 => data := And(word / 0x100, 0xff);
        case 2 => data := And(word / 0x1_0000, 0xff);
        case _ => data := And(word / 0x100_0000, 0xff);
      }
    }
  }

  /** The bytes of a word with some of them replaced. */
  ghost function Patched(old4: seq<Octet>, from: nat, bytes: seq<Octet>): seq<Octet>
    requires |old4| == 4 && from + |bytes| <= 4
  {
    old4[..from] + bytes + old4[from + |bytes|..]
  }

  // ---------- what the masks do ----------

  lemma Powers()
    ensures Power2(16) == 0x1_0000 && Power2(14) == 0x4000 && Power2(2) == 4 && Power2(1) == 2 && Power2(8) == 0x100
  {
    assert Power2(8) == 0x100;
  }

  /** The masks of the address arithmetic select page number and index in the page. */
  lemma PageOf(addr: nat)
    requires addr < M32
    ensures And(addr / 0x1_0000, 0xffff) == addr / 0x1_0000 < PAGES
    ensures And(addr / 4, 0x3fff) == addr / 4 % PAGE_WORDS && addr / 4 / PAGE_WORDS == addr / 0x1_0000
  {
    Powers();
    AndMask(addr / 0x1_0000, 16);
    AndModulo(addr / 4, 14);
  }

  lemma LowBits(addr: nat)
    ensures And(addr, 3) == addr % 4 && And(addr, 1) == addr % 2 && (And(addr, 2) == 0 <==> addr % 4 < 2)
  {
    Powers();
    AndModulo(addr, 2);
    AndModulo(addr, 1);
    TestBit(addr, 2);
    assert Bit(addr, 2) <==> addr / 2 % 2 == 1;
  }

  /** A word is made of its bytes. */
  lemma Bytes4(w: Word)
    ensures var b := ToLittleEndian(w); w == Join(b[3], b[2], b[1], b[0])
  {
    WordRoundTrip(w);
  }

  lemma FromBytes(b3: Octet, b2: Octet, b1: Octet, b0: Octet)
    ensures Join(b3, b2, b1, b0) < M32 && ToLittleEndian(Join(b3, b2, b1, b0)) == [b0, b1, b2, b3]
  {
    BytesRoundTrip([b0, b1, b2, b3]);
  }

  /** Taking some lanes of w and the others of c. */
  lemma Select(w: Word, c: Word, k3: bool, k2: bool, k1: bool, k0: bool)
    ensures var b, d := ToLittleEndian(w), ToLittleEndian(c);
      var kept := And(w, Join(Lane(k3, 0xff), Lane(k2, 0xff), Lane(k1, 0xff), Lane(k0, 0xff)));
      var r := Or(kept, Join(Lane(!k3, d[3]), Lane(!k2, d[2]), Lane(!k1, d[1]), Lane(!k0, d[0])));
      && r < M32
      && ToLittleEndian(r) == [if k0 then b[0] else d[0], if k1 then b[1] else d[1],
                               if k2 then b[2] else d[2], if k3 then b[3] else d[3]]
  {
    hide And, Or, ToBigEndian;
    var b, d := ToLittleEndian(w), ToLittleEndian(c);
    Bytes4(w);
    MaskLanes(b[3], b[2], b[1], b[0], k3, k2, k1, k0);
    MergeLanes(b[3], b[2], b[1], b[0], d[3], d[2], d[1], d[0], k3, k2, k1, k0);
    FromBytes(if k3 then b[3] else d[3], if k2 then b[2] else d[2],
              if k1 then b[1] else d[1], if k0 then b[0] else d[0]);
  }

  /** The low bytes of a word, shifted into place. */
  lemma Shifts(w: Word)
    ensures var b := ToLittleEndian(w);
      && And(w, 0xffff) == Join(0, 0, b[1], b[0]) && And(w, 0xff) == b[0]
      && w * 0x1_0000 % M32 == Join(b[1], b[0], 0, 0)
  {
    hide And, ToBigEndian;
    var b := ToLittleEndian(w);
    Bytes4(w);
    MaskLanes(b[3], b[2], b[1], b[0], false, false, true, true);
    MaskLanes(b[3], b[2], b[1], b[0], false, false, false, true);
    assert w * 0x1_0000 == Join(b[1], b[0], 0, 0) + (b[3] as nat * 0x100 + b[2]) * M32;
  }

  lemma HalfLanes(w: Word, data: Word)
    ensures var low := Or(And(w, 0xffff0000), And(data, 0x0000ffff));
      low < M32 && ToLittleEndian(low) == Patched(ToLittleEndian(w), 0, ToLittleEndian(data)[..2])
    ensures var high := Or(And(w, 0x0000ffff), data * 0x1_0000 % M32);
      high < M32 && ToLittleEndian(high) == Patched(ToLittleEndian(w), 2, ToLittleEndian(data)[..2])
  {
    hide And, Or, ToBigEndian;
    var d := ToLittleEndian(data);
    Shifts(data);
    Select(w, data, true, true, false, false);
    FromBytes(d[1], d[0], 0, 0);
    Select(w, Join(d[1], d[0], 0, 0), false, false, true, true);
  }

  lemma FirstByte(data: Word)
    ensures ToLittleEndian(data)[..1] == [ToLittleEndian(data)[0]]
  {}

  lemma LowByteLanes(w: Word, data: Word)
    ensures var b := ToLittleEndian(data)[..1];
      var r0, r1 := Or(And(w, 0xffffff00), And(data, 0xff)), Or(And(w, 0xffff00ff), And(data, 0xff) * 0x100);
      && r0 < M32 && ToLittleEndian(r0) == Patched(ToLittleEndian(w), 0, b)
      && r1 < M32 && ToLittleEndian(r1) == Patched(ToLittleEndian(w), 1, b)
  {
    hide And, Or, ToBigEndian, Patched;
    var d := ToLittleEndian(data)[0];
    Shifts(data);
    OneLane(w, d, 0);
    OneLane(w, d, 1);
    FirstByte(data);
  }

  lemma HighByteLanes(w: Word, data: Word)
    ensures var b := ToLittleEndian(data)[..1];
      var r2 := Or(And(w, 0xff00ffff), And(data, 0xff) * 0x1_0000);
      var r3 := Or(And(w, 0x00ffffff), And(data, 0xff) * 0x100_0000);
      && r2 < M32 && ToLittleEndian(r2) == Patched(ToLittleEndian(w), 2, b)
      && r3 < M32 && ToLittleEndian(r3) == Patched(ToLittleEndian(w), 3, b)
  {
    hide And, Or, ToBigEndian, Patched;
    var d := ToLittleEndian(data)[0];
    Shifts(data);
    OneLane(w, d, 2);
    OneLane(w, d, 3);
    FirstByte(data);
  }

  /** Replacing the byte in lane k. */
  lemma OneLane(w: Word, d: Octet, k: nat)
    requires k < 4
    ensures var kept := And(w, Join(Lane(k != 3, 0xff), Lane(k != 2, 0xff), Lane(k != 1, 0xff), Lane(k != 0, 0xff)));
      var r := Or(kept, Join(Lane(k == 3, d), Lane(k == 2, d), Lane(k == 1, d), Lane(k == 0, d)));
      r < M32 && ToLittleEndian(r) == Patched(ToLittleEndian(w), k, [d])
  {
    hide And, Or, ToBigEndian;
    FromBytes(d, d, d, d);
    Select(w, Join(d, d, d, d), k != 3, k != 2, k != 1, k != 0);
  }

  lemma ReadLanes(w: Word)
    ensures var b := ToLittleEndian(w);
      && And(w, 0xffff) == LittleEndian([b[0], b[1], 0, 0])
      && And(w / 0x1_0000, 0xffff) == LittleEndian([b[2], b[3], 0, 0])
      && And(w, 0xff) == b[0] && And(w / 0x100, 0xff) == b[1]
      && And(w / 0x1_0000, 0xff) == b[2] && And(w / 0x100_0000, 0xff) == b[3]
  {
    hide And, ToBigEndian;
    var b := ToLittleEndian(w);
    Bytes4(w);
    assert w / 0x100 == Join(0, b[3], b[2], b[1]);
    assert w / 0x1_0000 == Join(0, 0, b[3], b[2]);
    assert w / 0x100_0000 == Join(0, 0, 0, b[3]);
    MaskLanes(b[3], b[2], b[1], b[0], false, false, true, true);
    MaskLanes(0, 0, b[3], b[2], false, false, true, true);
    MaskLanes(b[3], b[2], b[1], b[0], false, false, false, true);
    MaskLanes(0, b[3], b[2], b[1], false, false, false, true);
    MaskLanes(0, 0, b[3], b[2], false, false, false, true);
    MaskLanes(0, 0, 0, b[3], false, false, false, true);
  }
}
