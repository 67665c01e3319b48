/**
 The bit arithmetic of Assignment4/predictor-benchmarks/radix.c, in two's complement over the
 integers: a negative number continues with ones on the left, so `/ 2` and `% 2` peel off the
 last bit of any C `int`. None of the expressions below leaves the range of a 32-bit `int`
 for numbers in [0, 2^31) and bit positions up to 2^30.
 */
module BitMasks {

  const MAX_BITS: nat := 0x4000_0000
  const LIMIT: nat := 0x8000_0000

  // ---------- the C operators ----------

  function And(x: int, y: int): (r: int)
    requires x >= 0 || y >= 0
    ensures r >= 0
    decreases if x >= 0 then x else y
  {
    if x == 0 || y == 0 then 0
    else 2 * And(x / 2, y / 2) + (if x % 2 == 1 && y % 2 == 1 then 1 else 0)
  }

  function Xor(x: nat, y: nat): nat {
    if x == 0 then y else 2 * Xor(x / 2, y / 2) + (if x % 2 == y % 2 then 0 else 1)
  }

  function Or(x: nat, y: nat): nat {
    if x == 0 then y else 2 * Or(x / 2, y / 2) + (if x % 2 == 1 || y % 2 == 1 then 1 else 0)
  }

  function Not(x: int): int { -x - 1 }

  // ---------- halves and last bits ----------

  lemma AndParts(x: int, y: int)
    requires x >= 0 || y >= 0
    ensures And(x, y) / 2 == And(x / 2, y / 2) && And(x, y) % 2 == if x % 2 == 1 && y % 2 == 1 then 1 else 0
  {}

  lemma XorParts(x: nat, y: nat)
    ensures Xor(x, y) / 2 == Xor(x / 2, y / 2) && Xor(x, y) % 2 == if x % 2 == y % 2 then 0 else 1
  {}

  lemma OrParts(x: nat, y: nat)
    ensures Or(x, y) / 2 == Or(x / 2, y / 2) && Or(x, y) % 2 == if x % 2 == 1 || y % 2 == 1 then 1 else 0
  {}

  // ---------- the masks ----------

  function HigherBits(bitPos: nat): int { 0 - bitPos - bitPos }
  function NotHigherBits(bitPos: nat): int { Not(HigherBits(bitPos)) }
  function BitRange(high: nat, low: nat): nat
    requires high > 0
  {
    And(HigherBits(low), NotHigherBits(high))
  }

  // ---------- what they mean ----------

  predicate OneHot(b: int) { b == 1 || (b > 1 && b % 2 == 0 && OneHot(b / 2)) }

  /** The bits of x above position b, as a number. */
  function Prefix(x: nat, b: nat): nat {
    if b <= 1 then x / 2 else Prefix(x / 2, b / 2)
  }

  /** The bit of x at position b. */
  predicate Bit(x: nat, b: nat) {
    if b <= 1 then x % 2 == 1 else Bit(x / 2, b / 2)
  }

  lemma {:induction false} TestBit(x: nat, b: nat)
    requires OneHot(b)
    ensures And(x, b) != 0 <==> Bit(x, b)
    ensures And(b, x) != 0 <==> Bit(x, b)
  {
    if b > 1 { TestBit(x / 2, b / 2); }
  }

  lemma {:induction false} AndAll(x: nat)
    ensures And(x, -1) == x && And(-1, x) == x
  {
    if x > 0 { AndAll(x / 2); }
  }

  lemma {:induction false} XorZero(x: nat, y: nat)
    ensures Xor(x, y) == 0 <==> x == y
    ensures Xor(x, y) / 2 == Xor(x / 2, y / 2)
    ensures Xor(x, y) % 2 == 1 <==> x % 2 != y % 2
  {
    if x > 0 { XorZero(x / 2, y / 2); }
  }

  /** The bits above position low in which x and y differ. */
  ghost function Difference(x: nat, y: nat, low: nat): nat {
    if low <= 1 then 2 * Xor(x / 2, y / 2) else 2 * Difference(x / 2, y / 2, low / 2)
  }

  lemma {:induction false} DifferenceBits(x: nat, y: nat, low: nat, b: nat)
    requires OneHot(low) && OneHot(b)
    ensures Difference(x, y, low) != 0 <==> Prefix(x, low) != Prefix(y, low)
    ensures Bit(Difference(x, y, low), b) <==> low < b && Bit(x, b) != Bit(y, b)
  {
    if low == 1 {
      XorZero(x / 2, y / 2);
      if b > 1 { XorBit(x / 2, y / 2, b / 2); }
    } else {
      DifferenceBits(x / 2, y / 2, low / 2, if b == 1 then 1 else b / 2);
    }
  }

  lemma {:induction false} XorBit(x: nat, y: nat, b: nat)
    ensures Bit(Xor(x, y), b) <==> Bit(x, b) != Bit(y, b)
  {
    XorZero(x, y);
    if b > 1 { XorBit(x / 2, y / 2, b / 2); }
  }

  lemma {:induction false} LowMask(x: nat, y: nat, high: nat)
    requires OneHot(high) && Prefix(x, high) == Prefix(y, high)
    ensures And(high + high - 1, Xor(x, y)) == Xor(x, y)
  {
    XorZero(x, y);
    if high == 1 {
      XorZero(x / 2, y / 2);
    } else {
      LowMask(x / 2, y / 2, high / 2);
    }
  }

  /**
   The masked difference of add_number: where x and y agree above `high`, masking their
   exclusive or with BitRange(high, low) keeps exactly the differences above `low`.
   */
  lemma {:induction false} MaskedDifference(x: nat, y: nat, high: nat, low: nat)
    requires OneHot(high) && OneHot(low) && low < high && Prefix(x, high) == Prefix(y, high)
    ensures And(BitRange(high, low), Xor(x, y)) == Difference(x, y, low)
  {
    hide And, Xor, BitRange;
    XorZero(x, y);
    BitRangeHalves(high, low);
    AndParts(BitRange(high, low), Xor(x, y));
    if low == 1 {
      LowMask(x / 2, y / 2, high / 2);
    } else {
      MaskedDifference(x / 2, y / 2, high / 2, low / 2);
    }
  }

  /** The mask for a range is even; halved, it is the mask for the halved range, or all ones up to it. */
  lemma BitRangeHalves(high: nat, low: nat)
    requires OneHot(high) && OneHot(low) && low < high
    ensures BitRange(high, low) % 2 == 0
    ensures BitRange(high, low) / 2 == if low == 1 then high - 1 else BitRange(high / 2, low / 2)
  {
    hide And;
    AndParts(HigherBits(low), NotHigherBits(high));
    if low == 1 { AndAll(high - 1); }
  }

  // ---------- numbers that share a prefix ----------

  /** Agreeing above a low position means agreeing at and above every higher one. */
  lemma {:induction false} PrefixNests(x: nat, y: nat, low: nat, high: nat)
    requires OneHot(low) && OneHot(high) && low < high && Prefix(x, low) == Prefix(y, low)
    ensures Prefix(x, high) == Prefix(y, high) && Bit(x, high) == Bit(y, high)
  {
    if low > 1 { PrefixNests(x / 2, y / 2, low / 2, high / 2); }
  }

  /** Agreeing above a position and at it means agreeing above the next lower one. */
  lemma {:induction false} PrefixExtends(x: nat, y: nat, b: nat)
    requires OneHot(b) && b > 1 && Prefix(x, b) == Prefix(y, b) && Bit(x, b) == Bit(y, b)
    ensures Prefix(x, b / 2) == Prefix(y, b / 2)
  {
    if b > 2 { PrefixExtends(x / 2, y / 2, b / 2); }
  }

  /** Numbers that part at position b are ordered by it. */
  lemma {:induction false} PrefixOrders(x: nat, y: nat, b: nat)
    requires Prefix(x, b) == Prefix(y, b) && !Bit(x, b) && Bit(y, b)
    ensures x < y
  {
    if b > 1 { PrefixOrders(x / 2, y / 2, b / 2); }
  }

  lemma {:induction false} NoPrefix(x: nat, b: nat)
    requires OneHot(b) && x < b + b
    ensures Prefix(x, b) == 0
  {
    if b > 1 { NoPrefix(x / 2, b / 2); }
  }

  function Power2(k: nat): (p: nat)
    ensures p > 0
  {
    if k == 0 then 1 else 2 * Power2(k - 1)
  }

  lemma {:induction false} PowerOneHot(k: nat)
    ensures OneHot(Power2(k))
  {
    if k > 0 { PowerOneHot(k - 1); }
  }

  lemma PowerHalves(k: nat)
    requires k > 0
    ensures Power2(k) > 1 && Power2(k) / 2 == Power2(k - 1)
  {}

  lemma DividedTwice(x: nat, p: nat)
    requires p > 0
    ensures x / (2 * p) == x / 2 / p
  {
    var h := x / 2;
    var q, r := h / p, h % p;
    DivisionOf(h, p);
    assert 2 * (p * q) == 2 * p * q;
    QuotientIs(x, 2 * p, q, 2 * r + x % 2);
  }

  lemma QuotientIs(x: nat, d: nat, q: nat, r: nat)
    requires r < d && x == d * q + r
    ensures x / d == q && x % d == r
  {
    var other, left := x / d, x % d;
    DivisionOf(x, d);
    if q > other { Multiple(d, other, q); }
    if q < other { Multiple(d, q, other); }
  }

  lemma DivisionOf(x: nat, d: nat)
    requires d > 0
    ensures x == d * (x / d) + x % d && 0 <= x % d < d && x / d >= 0
  {}

  lemma Multiple(d: nat, a: nat, b: nat)
    requires a < b
    ensures d * b >= d * a + d
  {
    assert d * b == d * a + d * (b - a);
    assert d * (b - a) == d * (b - a - 1) + d;
  }

  /** The bit at the k-th position is the k-th binary digit. */
  lemma {:induction false} BitIsDigit(x: nat, k: nat)
    ensures Bit(x, Power2(k)) <==> x / Power2(k) % 2 == 1
  {
    if k > 0 {
      PowerHalves(k);
      BitIsDigit(x / 2, k - 1);
      DividedTwice(x, Power2(k - 1));
    }
  }

  /** And and Or, bit by bit. */
  lemma {:induction false} AndOrBit(x: nat, y: nat, b: nat)
    ensures Bit(And(x, y), b) <==> Bit(x, b) && Bit(y, b)
    ensures Bit(Or(x, y), b) <==> Bit(x, b) || Bit(y, b)
  {
    AndParts(x, y);
    OrParts(x, y);
    if b > 1 { AndOrBit(x / 2, y / 2, b / 2); }
  }

  /** Bit i of a number, the least significant one being bit 0. */
  predicate BitAt(x: nat, i: nat) { Bit(x, Power2(i)) }

  lemma BitAtStep(x: nat, i: nat)
    ensures BitAt(x, i) <==> if i == 0 then x % 2 == 1 else BitAt(x / 2, i - 1)
  {
    if i > 0 { PowerHalves(i); }
  }

  /** Cutting a number to its n low bits. */
  lemma {:induction false} LowBitsKept(x: nat, n: nat, i: nat)
    ensures BitAt(x % Power2(n), i) <==> i < n && BitAt(x, i)
    decreases n, i
  {
    hide BitAt;
    var y := x % Power2(n);
    BitAtStep(x, i);
    BitAtStep(y, i);
    if n == 0 {
      assert y == 0;
      if i > 0 { LowBitsKept(0, 0, i - 1); }
    } else {
      HalfOfRemainder(x, Power2(n - 1));
      if i > 0 { LowBitsKept(x / 2, n - 1, i - 1); }
    }
  }

  lemma HalfOfRemainder(x: nat, p: nat)
    requires p > 0
    ensures x % (2 * p) % 2 == x % 2 && x % (2 * p) / 2 == x / 2 % p
  {
    var q, r := x / 2 / p, x / 2 % p;
    DivisionOf(x / 2, p);
    assert 2 * (p * q) == 2 * p * q;
    QuotientIs(x, 2 * p, q, 2 * r + x % 2);
  }

  lemma {:induction false} BeyondTop(x: nat, n: nat, i: nat)
    requires x < Power2(n) && n <= i
    ensures !BitAt(x, i)
  {
    LowBitsKept(x, n, i);
    assert x % Power2(n) == x by { QuotientIs(x, Power2(n), 0, x); }
  }

  lemma Power32()
    ensures Power2(32) == 0x1_0000_0000
  {
    assert Power2(8) == 0x100;
    assert Power2(16) == 0x1_0000;
    assert Power2(24) == 0x100_0000;
  }

  lemma MaxBitsOneHot()
    ensures OneHot(MAX_BITS)
  {
    PowerOneHot(30);
    assert Power2(10) == 1024;
    assert Power2(20) == 1024 * 1024;
    assert Power2(30) == 0x4000_0000;
  }

  /** Two numbers of the program agree above the topmost position. */
  lemma AgreeAtTop(x: nat, y: nat)
    requires x < LIMIT && y < LIMIT
    ensures OneHot(MAX_BITS) && Prefix(x, MAX_BITS) == Prefix(y, MAX_BITS)
  {
    MaxBitsOneHot();
    NoPrefix(x, MAX_BITS);
    NoPrefix(y, MAX_BITS);
  }

  lemma {:induction false} OneHotOrder(a: nat, b: nat)
    requires OneHot(a) && OneHot(b) && a < b
    ensures a <= b / 2
  {
    if a > 1 { OneHotOrder(a / 2, b / 2); }
  }

  /** The highest position at or below b at which x and y differ. */
  function TopBit(x: nat, y: nat, b: nat): (r: nat)
    requires OneHot(b) && Prefix(x, b) == Prefix(y, b) && x != y
    ensures OneHot(r) && r <= b && Prefix(x, r) == Prefix(y, r) && Bit(x, r) != Bit(y, r)
    decreases b
  {
    if Bit(x, b) != Bit(y, b) then b else
      assert b > 1;
      PrefixExtends(x, y, b);
      TopBit(x, y, b / 2)
  }

  lemma {:induction false} TopBitUnique(x: nat, y: nat, a: nat, b: nat)
    requires OneHot(a) && Prefix(x, a) == Prefix(y, a) && Bit(x, a) != Bit(y, a)
    requires OneHot(b) && Prefix(x, b) == Prefix(y, b) && Bit(x, b) != Bit(y, b)
    ensures a == b
  {
    if a < b { PrefixNests(x, y, a, b); }
    if b < a { PrefixNests(x, y, b, a); }
  }

  /**
   One step of the scan of add_number: while the position b is not set in the difference,
   the numbers agree further down, and the topmost difference is still below b.
   */
  lemma ScanStep(x: nat, y: nat, low: nat, b: nat)
    requires OneHot(low) && OneHot(b) && low < b
    requires Prefix(x, b) == Prefix(y, b) && Prefix(x, low) != Prefix(y, low)
    ensures And(b, Difference(x, y, low)) != 0 ==> Bit(x, b) != Bit(y, b)
    ensures And(b, Difference(x, y, low)) == 0 ==> OneHot(b / 2) && low < b / 2 && Prefix(x, b / 2) == Prefix(y, b / 2)
  {
    TestBit(Difference(x, y, low), b);
    DifferenceBits(x, y, low, b);
    if Bit(x, b) == Bit(y, b) {
      PrefixExtends(x, y, b);
      OneHotOrder(low, b);
    }
  }

  // ---------- the two numbers of a leaf ----------

  function Even(n: nat): nat { And(n, Not(1)) }
  function Odd(n: nat): nat { Or(n, 1) }

  lemma LeafNumbers(n: nat)
    ensures Even(n) == n / 2 * 2 && Odd(n) == n / 2 * 2 + 1
  {
    AndAll(n / 2);
    assert Or(n / 2, 0) == n / 2 by { OrZero(n / 2); }
  }

  lemma {:induction false} OrZero(x: nat)
    ensures Or(x, 0) == x
  {
    if x > 0 { OrZero(x / 2); }
  }

  lemma LowestBit(n: nat)
    ensures And(n, 1) == n % 2
  {}
}
