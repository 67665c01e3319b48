/**
 The decimal printer and parser of Assignment4/predictor-benchmarks/lib.c: uns_to_str writes
 the digits of a 32-bit number backwards into a buffer and reverses them in place; str_to_uns
 reads a NUL-terminated text in 32-bit unsigned arithmetic.
 */
module Decimal {
  import opened Bytes

  const ZERO_CHAR: nat := 48

  /** The decimal numeral of a number, most significant digit first. */
  function Numeral(v: nat): seq<nat> {
    if v < 10 then [ZERO_CHAR + v] else Numeral(v / 10) + [ZERO_CHAR + v % 10]
  }

  ghost predicate IsDigits(text: seq<nat>) {
    forall i :: 0 <= i < |text| ==> ZERO_CHAR <= text[i] < ZERO_CHAR + 10
  }

  /** The number a digit text denotes, each character counting for its distance from '0'. */
  ghost function Value(text: seq<nat>): int {
    if text == [] then 0 else 10 * Value(text[..|text| - 1]) + (text[|text| - 1] - ZERO_CHAR)
  }

  /** A numeral denotes its number, and the numeral of a 32-bit number has at most ten digits. */
  lemma {:induction false} NumeralValue(v: nat)
    ensures IsDigits(Numeral(v)) && Value(Numeral(v)) == v && Numeral(v) != []
  {
    if v >= 10 {
      NumeralValue(v / 10);
      assert Numeral(v)[..|Numeral(v)| - 1] == Numeral(v / 10);
    } else {
      assert Value([]) == 0;
      assert [ZERO_CHAR + v][..0] == [];
    }
  }

  /** One digit more behind a numeral is ten times the number plus the digit; the digits are '0' to '9'. */
  lemma NumeralAppends(v: nat, d: nat)
    requires d <= 9
    ensures Numeral(d) == [48 + d]
    ensures v > 0 ==> Numeral(10 * v + d) == Numeral(v) + [48 + d]
  {}

  lemma ValueAppends(text: seq<nat>, c: nat)
    ensures Value([]) == 0 && Value(text + [c]) == 10 * Value(text) + c - 48
  {
    assert (text + [c])[..|text|] == text;
  }

  function Power10(k: nat): nat { if k == 0 then 1 else 10 * Power10(k - 1) }

  lemma {:induction false} NumeralLength(v: nat, k: nat)
    requires v < Power10(k) && k >= 1
    ensures |Numeral(v)| <= k
  {
    if v >= 10 {
      if k > 1 { NumeralLength(v / 10, k - 1); }
    }
  }

  lemma TenDigits(v: nat)
    requires v < M32
    ensures 1 <= |Numeral(v)| <= 10
  {
    assert Power10(5) == 100000;
    assert Power10(10) == 10000000000;
    NumeralLength(v, 10);
  }

  // ---------- uns_to_str ----------

  /** The digits the first loop produces: least significant first. */
  ghost function LowFirst(v: nat): seq<nat> {
    if v == 0 then [] else [ZERO_CHAR + v % 10] + LowFirst(v / 10)
  }

  ghost function Reversed(s: seq<nat>): seq<nat> {
    if s == [] then [] else Reversed(s[1..]) + [s[0]]
  }

  lemma {:induction false} ReversedAt(s: seq<nat>, k: nat)
    ensures |Reversed(s)| == |s|
    ensures k < |s| ==> Reversed(s)[k] == s[|s| - 1 - k]
  {
    if s != [] { ReversedAt(s[1..], if k < |s| - 1 then k else 0); }
  }

  lemma {:induction false} NumeralReverses(v: nat)
    requires v > 0
    ensures Reversed(LowFirst(v)) == Numeral(v)
  {
    assert LowFirst(v)[1..] == LowFirst(v / 10);
    if v >= 10 {
      NumeralReverses(v / 10);
    } else {
      assert LowFirst(0) == [] && Reversed([]) == [];
    }
  }

  lemma LowFirstStep(val: nat)
    ensures LowFirst(val) == if val == 0 then [] else [ZERO_CHAR + val % 10] + LowFirst(val / 10)
  {}

  lemma Associate(before: seq<nat>, x: nat, after: seq<nat>)
    ensures before + [x] + after == before + ([x] + after)
  {}

  /** The first loop: digits, least significant first, then a NUL. */
  method WriteDigits(buffer: array<nat>, val: nat) returns (n: nat)
    requires val > 0 && |LowFirst(val)| < buffer.Length
    modifies buffer
    ensures n == |LowFirst(val)| && buffer[..] == LowFirst(val) + [0] + old(buffer[n + 1..])
  {
    hide LowFirst;
    var ptr: nat, rest: nat := 0, val;
    while rest != 0
      invariant ptr + |LowFirst(rest)| == |LowFirst(val)|
      invariant buffer[..ptr] + LowFirst(rest) == LowFirst(val)
      invariant buffer[ptr..] == old(buffer[ptr..])
      decreases rest
    {
      ghost var before := buffer[..ptr];
      LowFirstStep(rest);
      buffer[ptr] := (rest % 10) + ZERO_CHAR;
      ptr := ptr + 1;
      assert buffer[..ptr] == before + [ZERO_CHAR + rest % 10];
      Associate(before, ZERO_CHAR + rest % 10, LowFirst(rest / 10));
      rest := rest / 10;
    }
    LowFirstStep(0);
    assert buffer[..ptr] == LowFirst(val);
    buffer[ptr] := 0;
    assert buffer[..ptr] == LowFirst(val);
    n := ptr;
  }

  /** The second loop: the first n characters change places end for end. */
  method ReverseInPlace(buffer: array<nat>, n: nat)
    requires 0 < n <= buffer.Length
    modifies buffer
    ensures buffer[..] == Reversed(old(buffer[..n])) + old(buffer[n..])
  {
    var low, high := 0, n - 1;
    while high > low
      invariant low + high == n - 1 && 0 <= low <= n && -1 <= high
      invariant forall k :: 0 <= k < low ==> buffer[k] == old(buffer[n - 1 - k]) && buffer[n - 1 - k] == old(buffer[k])
      invariant forall k :: low <= k <= high ==> buffer[k] == old(buffer[k])
      invariant forall k :: n <= k < buffer.Length ==> buffer[k] == old(buffer[k])
      decreases high - low
    {
      var tmp := buffer[high];
      buffer[high] := buffer[low];
      buffer[low] := tmp;
      high := high - 1;
      low := low + 1;
    }
    ghost var was := old(buffer[..n]);
    ReversedAt(was, 0);
    forall k | 0 <= k < n ensures buffer[k] == Reversed(was)[k] {
      ReversedAt(was, k);
    }
  }

  /**
   uns_to_str: the numeral, NUL-terminated, and nothing else in the buffer changes. The
   value returned is one less than the number of digits, except that it is 1 for zero.
   */
  method UnsToStr(buffer: array<nat>, val: nat) returns (retval: int)
    requires val < M32 && |Numeral(val)| < buffer.Length
    modifies buffer
    ensures |Numeral(val)| <= 10
    ensures buffer[..] == Numeral(val) + [0] + old(buffer[|Numeral(val)| + 1..])
    ensures retval == if val == 0 then 1 else |Numeral(val)| - 1
  {
    TenDigits(val);
    if val == 0 {
      buffer[0] := ZERO_CHAR;
      buffer[1] := 0;
      assert Numeral(0) == [ZERO_CHAR];
      return 1;
    }
    NumeralReverses(val);
    ReversedAt(LowFirst(val), 0);
    var n := WriteDigits(buffer, val);
    retval := n - 1;
    ghost var was := buffer[..];
    assert was[..n] == LowFirst(val);
    ReverseInPlace(buffer, n);
  }

  // ---------- str_to_uns ----------

  /** The result of 32-bit unsigned arithmetic. */
  function Wrap(x: int): nat { x % M32 }

  /**
   str_to_uns on a NUL-terminated text: its value modulo 2^32, whatever the characters. (The
   first character is taken without looking whether it is the NUL.)
   */
  method StrToUns(str: seq<nat>, ghost text: seq<nat>) returns (val: nat)
    requires text != [] && 0 !in text && text + [0] <= str
    ensures val == Value(text) % M32
  {
    var p := 1;
    val := Wrap(str[0] - ZERO_CHAR);
    assert text[..1][..0] == [];
    while str[p] != 0
      invariant 1 <= p <= |text|
      invariant val == Value(text[..p]) % M32
      decreases |text| - p
    {
      assert str[p] == text[p];
      ParseStep(val, text, p);
      val := Wrap(val * 10 + str[p] - ZERO_CHAR);
      p := p + 1;
    }
    assert text[..p] == text;
  }

  lemma ParseStep(val: nat, text: seq<nat>, p: nat)
    requires 1 <= p < |text| && val == Value(text[..p]) % M32
    ensures Wrap(val * 10 + text[p] - ZERO_CHAR) == Value(text[..p + 1]) % M32
  {
    assert text[..p + 1][..p] == text[..p];
    var v := Value(text[..p]);
    assert v == v / M32 * M32 + val;
    ModuloShift(val * 10 + text[p] - ZERO_CHAR, v / M32 * 10);
  }

  lemma ModuloShift(x: int, k: int)
    ensures (x + k * M32) % M32 == x % M32
  {}

  /** The parser recovers every 32-bit number from the text the printer writes. */
  method PrintThenParse(val: nat) returns (back: nat)
    requires val < M32
    ensures back == val
  {
    TenDigits(val);
    var buffer := new nat[11];
    var _ := UnsToStr(buffer, val);
    NumeralValue(val);
    back := StrToUns(buffer[..], Numeral(val));
  }
}
