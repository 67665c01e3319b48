/** How the bitwise operators of BitMasks act on the four bytes of a word. */
module ByteLanes {
  import opened BitMasks
  import opened Bytes

  // ---------- numbers side by side ----------

  /** The number with the k low bits of a below the bits of b. */
  ghost function Concat(a: nat, b: nat, k: nat): nat {
    if k == 0 then b else 2 * Concat(a / 2, b, k - 1) + a % 2
  }

  lemma {:induction false} ConcatSum(a: nat, b: nat, k: nat)
    requires a < Power2(k)
    ensures Concat(a, b, k) == a + Power2(k) * b
  {
    if k > 0 {
      ConcatSum(a / 2, b, k - 1);
      assert Power2(k) * b == 2 * (Power2(k - 1) * b);
    }
  }

  lemma {:induction false} OrConcat(a: nat, b: nat, c: nat, d: nat, k: nat)
    ensures Or(Concat(a, b, k), Concat(c, d, k)) == Concat(Or(a, c), Or(b, d), k)
  {
    if k > 0 {
      OrConcat(a / 2, b, c / 2, d, k - 1);
      OrParts(Concat(a, b, k), Concat(c, d, k));
      OrParts(a, c);
    }
  }

  lemma {:induction false} AndConcat(a: nat, b: nat, c: nat, d: nat, k: nat)
    ensures And(Concat(a, b, k), Concat(c, d, k)) == Concat(And(a, c), And(b, d), k)
  {
    if k > 0 {
      AndConcat(a / 2, b, c / 2, d, k - 1);
      AndParts(Concat(a, b, k), Concat(c, d, k));
      AndParts(a, c);
    }
  }

  lemma {:induction false} OrBound(a: nat, c: nat, k: nat)
    requires a < Power2(k) && c < Power2(k)
    ensures Or(a, c) < Power2(k) && And(a, c) < Power2(k)
  {
    if k > 0 {
      OrBound(a / 2, c / 2, k - 1);
      OrParts(a, c);
      AndParts(a, c);
    }
  }

  /** Or and And of a byte below a number. */
  lemma ByteBelow(a: nat, b: nat, c: nat, d: nat)
    requires a < 256 && c < 256
    ensures Or(b * 256 + a, d * 256 + c) == Or(b, d) * 256 + Or(a, c)
    ensures And(b * 256 + a, d * 256 + c) == And(b, d) * 256 + And(a, c)
  {
    assert Power2(8) == 256;
    OrBound(a, c, 8);
    ConcatSum(a, b, 8);
    ConcatSum(c, d, 8);
    ConcatSum(Or(a, c), Or(b, d), 8);
    ConcatSum(And(a, c), And(b, d), 8);
    OrConcat(a, b, c, d, 8);
    AndConcat(a, b, c, d, 8);
  }

  lemma {:induction false} AndMask(x: nat, k: nat)
    requires x < Power2(k)
    ensures And(x, Power2(k) - 1) == x && And(x, 0) == 0
  {
    if k > 0 {
      AndMask(x / 2, k - 1);
      AndParts(x, Power2(k) - 1);
    }
  }

  /** Or and And of four bytes side by side. */
  lemma BytesApart(a3: nat, a2: nat, a1: nat, a0: nat, c3: nat, c2: nat, c1: nat, c0: nat)
    requires a2 < 256 && a1 < 256 && a0 < 256 && c2 < 256 && c1 < 256 && c0 < 256
    ensures Or(Join(a3, a2, a1, a0), Join(c3, c2, c1, c0)) == Join(Or(a3, c3), Or(a2, c2), Or(a1, c1), Or(a0, c0))
    ensures And(Join(a3, a2, a1, a0), Join(c3, c2, c1, c0)) == Join(And(a3, c3), And(a2, c2), And(a1, c1), And(a0, c0))
  {
    hide And, Or;
    ByteBelow(a2, a3, c2, c3);
    ByteBelow(a1, a3 * 256 + a2, c1, c3 * 256 + c2);
    ByteBelow(a0, (a3 * 256 + a2) * 256 + a1, c0, (c3 * 256 + c2) * 256 + c1);
  }

  lemma OrZeroLeft(x: nat)
    ensures Or(0, x) == x
  {}

  // ---------- selecting and merging lanes ----------

  function Lane(keep: bool, b: nat): nat { if keep then b else 0 }

  lemma MaskLane(b: nat, keep: bool)
    requires b < 256
    ensures And(b, Lane(keep, 0xff)) == Lane(keep, b)
  {
    assert Power2(8) == 256;
    AndMask(b, 8);
  }

  /** Masking a word with bytes of all ones or all zeros keeps or clears its bytes. */
  lemma MaskLanes(b3: nat, b2: nat, b1: nat, b0: nat, k3: bool, k2: bool, k1: bool, k0: bool)
    requires b3 < 256 && b2 < 256 && b1 < 256 && b0 < 256
    ensures And(Join(b3, b2, b1, b0), Join(Lane(k3, 0xff), Lane(k2, 0xff), Lane(k1, 0xff), Lane(k0, 0xff)))
         == Join(Lane(k3, b3), Lane(k2, b2), Lane(k1, b1), Lane(k0, b0))
  {
    BytesApart(b3, b2, b1, b0, Lane(k3, 0xff), Lane(k2, 0xff), Lane(k1, 0xff), Lane(k0, 0xff));
    MaskLane(b3, k3);
    MaskLane(b2, k2);
    MaskLane(b1, k1);
    MaskLane(b0, k0);
  }

  lemma MergeLane(b: nat, c: nat, first: bool)
    ensures Or(Lane(first, b), Lane(!first, c)) == if first then b else c
  {
    OrZero(b);
    OrZeroLeft(c);
  }

  /** Or of two words that share no lane takes each byte from where it is. */
  lemma MergeLanes(b3: nat, b2: nat, b1: nat, b0: nat, c3: nat, c2: nat, c1: nat, c0: nat,
                   k3: bool, k2: bool, k1: bool, k0: bool)
    requires b3 < 256 && b2 < 256 && b1 < 256 && b0 < 256 && c3 < 256 && c2 < 256 && c1 < 256 && c0 < 256
    ensures Or(Join(Lane(k3, b3), Lane(k2, b2), Lane(k1, b1), Lane(k0, b0)),
               Join(Lane(!k3, c3), Lane(!k2, c2), Lane(!k1, c1), Lane(!k0, c0)))
         == Join(if k3 then b3 else c3, if k2 then b2 else c2, if k1 then b1 else c1, if k0 then b0 else c0)
  {
    BytesApart(Lane(k3, b3), Lane(k2, b2), Lane(k1, b1), Lane(k0, b0),
               Lane(!k3, c3), Lane(!k2, c2), Lane(!k1, c1), Lane(!k0, c0));
    MergeLane(b3, c3, k3);
    MergeLane(b2, c2, k2);
    MergeLane(b1, c1, k1);
    MergeLane(b0, c0, k0);
  }

  /** Masking with 2^k - 1 is the remainder modulo 2^k. */
  lemma AndModulo(x: nat, k: nat)
    ensures And(x, Power2(k) - 1) == x % Power2(k)
  {
    hide And, Power2;
    DivMod(x, Power2(k));
    AndSplit(x % Power2(k), x / Power2(k), k);
  }

  lemma DivMod(x: nat, p: nat)
    requires p > 0
    ensures x == x % p + p * (x / p) && x % p < p && x / p >= 0
  {}

  lemma AndSplit(r: nat, q: nat, k: nat)
    requires r < Power2(k)
    ensures And(r + Power2(k) * q, Power2(k) - 1) == r
  {
    ConcatSum(r, q, k);
    ConcatSum(Power2(k) - 1, 0, k);
    AndConcat(r, q, Power2(k) - 1, 0, k);
    AndMask(r, k);
    ConcatSum(r, 0, k);
  }
}
