/**
 The text recognisers of Assignment0/file.c. is_UTF8 is proved to accept one language: sequences
 of code points below 0x200000 in their shortest form (section 3 of RFC 3629, without its limit
 of 0x10FFFF and with surrogates), less most control characters.
 */
module Utf8 {
  import opened Basics
  import opened BitMasks
  import opened ByteLanes
  import opened Bytes

  const EOF: int := -1

  /** A FILE opened for reading, with its cursor. */
  class File {
    const bytes: seq<Octet>
    var pos: nat

    ghost predicate Valid()
      reads this
    {
      pos <= |bytes|
    }

    method Fgetc() returns (ch: int)
      requires Valid()
      modifies this
      ensures Valid()
      ensures if old(pos) == |bytes| then ch == EOF && pos == old(pos)
              else ch == bytes[old(pos)] as int && pos == old(pos) + 1
    {
      if pos == |bytes| { return EOF; }
      ch := bytes[pos];
      pos := pos + 1;
    }

    method Rewind()
      modifies this
      ensures pos == 0
    {
      pos := 0;
    }
  }

  // ---------- the language ----------

  /** The shortest form of a code point. */
  function Encode(cp: nat): (b: seq<Octet>)
    requires cp < 0x20_0000
    ensures |b| > 0
  {
    if cp < 0x80 then [cp]
    else if cp < 0x800 then [0xC0 + cp / 64, 0x80 + cp % 64]
    else if cp < 0x1_0000 then [0xE0 + cp / 4096, 0x80 + cp / 64 % 64, 0x80 + cp % 64]
    else [0xF0 + cp / 262144, 0x80 + cp / 4096 % 64, 0x80 + cp / 64 % 64, 0x80 + cp % 64]
  }

  predicate Control(cp: nat) { cp < 0x20 && cp != 9 && cp != 10 && cp != 13 }

  predicate Allowed(cp: nat) { cp < 0x20_0000 && !Control(cp) }

  predicate AllAllowed(cps: seq<nat>) { forall i :: 0 <= i < |cps| ==> Allowed(cps[i]) }

  ghost function EncodeAll(cps: seq<nat>): seq<Octet>
    requires AllAllowed(cps)
  {
    if cps == [] then [] else Encode(cps[0]) + EncodeAll(cps[1..])
  }

  ghost predicate Encodes(cps: seq<nat>, bytes: seq<Octet>) { AllAllowed(cps) && EncodeAll(cps) == bytes }

  ghost predicate SomePrintable(cps: seq<nat>) { exists i :: 0 <= i < |cps| && cps[i] != 0x7F }

  /** What is_UTF8 accepts. */
  ghost predicate IsText(bytes: seq<Octet>) {
    exists cps: seq<nat> :: Encodes(cps, bytes) && SomePrintable(cps)
  }

  // ---------- one code point ----------

  predicate Tail(b: seq<Octet>, i: nat) { i < |b| && b[i] / 64 == 2 }

  /** The code point at the front of a stream. */
  function Next(b: seq<Octet>): Option<nat> {
    if b == [] then None
    else if b[0] < 0x80 then
      if Control(b[0]) then None else Some(b[0])
    else if b[0] / 32 == 6 then
      if !Tail(b, 1) then None else AtLeast(0x80, Two(b[0], b[1]))
    else if b[0] / 16 == 14 then
      if !Tail(b, 1) || !Tail(b, 2) then None else AtLeast(0x800, Three(b[0], b[1], b[2]))
    else if b[0] / 8 == 30 then
      if !Tail(b, 1) || !Tail(b, 2) || !Tail(b, 3) then None else AtLeast(0x1_0000, Four(b[0], b[1], b[2], b[3]))
    else None
  }

  function AtLeast(low: nat, cp: nat): Option<nat> { if cp < low then None else Some(cp) }
  function Two(b0: nat, b1: nat): nat { b0 % 32 * 64 + b1 % 64 }
  function Three(b0: nat, b1: nat, b2: nat): nat { (b0 % 16 * 64 + b1 % 64) * 64 + b2 % 64 }
  function Four(b0: nat, b1: nat, b2: nat, b3: nat): nat { ((b0 % 8 * 64 + b1 % 64) * 64 + b2 % 64) * 64 + b3 % 64 }

  /** What is found at the front is the only code point whose shortest form is there. */
  lemma NextIsThere(b: seq<Octet>, cp: nat)
    ensures Next(b) == Some(cp) <==> Allowed(cp) && Encode(cp) <= b
  {
    if Next(b) == Some(cp) {
      NextEncoded(b, cp);
    }
    if Allowed(cp) && Encode(cp) <= b {
      EncodedNext(b, cp);
    }
  }

  /** Splitting off the last digit in base 64. */
  lemma Digits(q: nat, r: nat)
    requires r < 64
    ensures (q * 64 + r) / 64 == q && (q * 64 + r) % 64 == r
  {}

  lemma Quotients(x: nat)
    ensures x / 4096 == x / 64 / 64 && x / 262144 == x / 64 / 64 / 64
  {}

  lemma LeadAndTail(b: nat)
    requires b < 256
    ensures b / 32 == 6 ==> b == 0xC0 + b % 32
    ensures b / 16 == 14 ==> b == 0xE0 + b % 16
    ensures b / 8 == 30 ==> b == 0xF0 + b % 8
    ensures b / 64 == 2 ==> b == 0x80 + b % 64
  {}

  lemma NextEncoded(b: seq<Octet>, cp: nat)
    requires Next(b) == Some(cp)
    ensures Allowed(cp) && Encode(cp) <= b
  {
    assert b[0] < 0x80 ==> Encode(b[0]) == [b[0]];
    LeadAndTail(b[0]);
    hide Encode, Two, Three, Four;
    if b[0] < 0x80 {
    } else if b[0] / 32 == 6 {
      TwoBytes(b[0], b[1], cp);
      assert [b[0], b[1]] == b[..2];
    } else if b[0] / 16 == 14 {
      ThreeBytes(b[0], b[1], b[2], cp);
      assert [b[0], b[1], b[2]] == b[..3];
    } else {
      FourBytes(b[0], b[1], b[2], b[3], cp);
      assert [b[0], b[1], b[2], b[3]] == b[..4];
    }
  }

  lemma TwoBytes(b0: Octet, b1: Octet, cp: nat)
    requires b0 / 32 == 6 && b1 / 64 == 2 && 0x80 <= cp == Two(b0, b1)
    ensures cp < 0x800 && Encode(cp) == [b0, b1]
  {
    LeadAndTail(b0);
    LeadAndTail(b1);
    Digits(b0 % 32, b1 % 64);
  }

  lemma ThreeBytes(b0: Octet, b1: Octet, b2: Octet, cp: nat)
    requires b0 / 16 == 14 && b1 / 64 == 2 && b2 / 64 == 2 && 0x800 <= cp == Three(b0, b1, b2)
    ensures cp < 0x1_0000 && Encode(cp) == [b0, b1, b2]
  {
    LeadAndTail(b0);
    LeadAndTail(b1);
    LeadAndTail(b2);
    Digits(b0 % 16, b1 % 64);
    Digits(b0 % 16 * 64 + b1 % 64, b2 % 64);
    Quotients(cp);
  }

  lemma FourBytes(b0: Octet, b1: Octet, b2: Octet, b3: Octet, cp: nat)
    requires b0 / 8 == 30 && b1 / 64 == 2 && b2 / 64 == 2 && b3 / 64 == 2 && 0x1_0000 <= cp == Four(b0, b1, b2, b3)
    ensures cp < 0x20_0000 && Encode(cp) == [b0, b1, b2, b3]
  {
    LeadAndTail(b0);
    LeadAndTail(b1);
    LeadAndTail(b2);
    LeadAndTail(b3);
    Digits(b0 % 8, b1 % 64);
    Digits(b0 % 8 * 64 + b1 % 64, b2 % 64);
    Digits((b0 % 8 * 64 + b1 % 64) * 64 + b2 % 64, b3 % 64);
    Quotients(cp);
  }

  lemma EncodedNext(b: seq<Octet>, cp: nat)
    requires Allowed(cp) && Encode(cp) <= b
    ensures Next(b) == Some(cp)
  {
    Quotients(cp);
    Decoded(cp / 64 / 64 / 64, cp / 64 / 64 % 64, cp / 64 % 64, cp % 64);
    var e := Encode(cp);
    assert b[0] == e[0];
    if |e| > 1 { assert b[1] == e[1]; }
    if |e| > 2 { assert b[2] == e[2]; }
    if |e| > 3 { assert b[3] == e[3]; }
  }

  /** The lead byte holds the high bits and the tails the digits in base 64. */
  lemma Decoded(q: nat, d2: nat, d1: nat, d0: nat)
    requires d2 < 64 && d1 < 64 && d0 < 64
    ensures (0x80 + d2) / 64 == 2 && (0x80 + d1) / 64 == 2 && (0x80 + d0) / 64 == 2
    ensures (0x80 + d2) % 64 == d2 && (0x80 + d1) % 64 == d1 && (0x80 + d0) % 64 == d0
    ensures d1 < 32 ==> (0xC0 + d1) / 32 == 6 && (0xC0 + d1) % 32 == d1
    ensures d2 < 16 ==> (0xE0 + d2) / 16 == 14 && (0xE0 + d2) % 16 == d2
    ensures q < 8 ==> (0xF0 + q) / 8 == 30 && (0xF0 + q) % 8 == q
  {}

  // ---------- many code points ----------

  lemma {:induction false} EncodeAllAppend(a: seq<nat>, b: seq<nat>)
    requires AllAllowed(a) && AllAllowed(b)
    ensures EncodeAll(a + b) == EncodeAll(a) + EncodeAll(b)
  {
    hide Encode, Control;
    if a == [] {
      assert a + b == b;
    } else {
      EncodeAllAppend(a[1..], b);
      assert (a + b)[1..] == a[1..] + b;
    }
  }

  /** Decoding from the front is forced: any other reading starts with the same code points. */
  lemma {:induction false} DecodingIsForced(a: seq<nat>, rest: seq<Octet>, b: seq<nat>)
    requires AllAllowed(a) && AllAllowed(b) && EncodeAll(a) + rest == EncodeAll(b)
    ensures |a| <= |b| && a == b[..|a|] && rest == EncodeAll(b[|a|..])
  {
    hide Encode, Next, Control;
    if a == [] {
      assert b[0..] == b;
    } else {
      var bytes := EncodeAll(b);
      assert Encode(a[0]) <= bytes && Encode(b[0]) <= bytes;
      NextIsThere(bytes, a[0]);
      NextIsThere(bytes, b[0]);
      var k := |Encode(a[0])|;
      assert EncodeAll(a[1..]) + rest == bytes[k..] == EncodeAll(b[1..]);
      DecodingIsForced(a[1..], rest, b[1..]);
      assert b[|a|..] == b[1..][|a| - 1..];
    }
  }

  /** No two texts are written with the same bytes. */
  lemma UniqueDecoding(a: seq<nat>, b: seq<nat>)
    requires AllAllowed(a) && AllAllowed(b) && EncodeAll(a) == EncodeAll(b)
    ensures a == b
  {
    assert EncodeAll(a) + [] == EncodeAll(b) && EncodeAll(b) + [] == EncodeAll(a);
    DecodingIsForced(a, [], b);
    DecodingIsForced(b, [], a);
  }

  /** Nothing can be read at a place to which the bytes before have been read: then the file is no text. */
  lemma Rejected(cps: seq<nat>, bytes: seq<Octet>, pos: nat)
    requires pos < |bytes| && Encodes(cps, bytes[..pos]) && Next(bytes[pos..]) == None
    ensures forall other: seq<nat> :: !Encodes(other, bytes)
  {
    hide Encode, Next, Control;
    var rest := bytes[pos..];
    forall other: seq<nat> ensures !Encodes(other, bytes) {
      if Encodes(other, bytes) {
        assert bytes[..pos] + rest == bytes;
        DecodingIsForced(cps, rest, other);
        var left := other[|cps|..];
        assert Encode(left[0]) <= rest;
        NextIsThere(rest, left[0]);
      }
    }
  }

  /** One more code point has been read. */
  lemma Accepted(cps: seq<nat>, bytes: seq<Octet>, pos: nat, cp: nat)
    requires pos <= |bytes| && Encodes(cps, bytes[..pos]) && Next(bytes[pos..]) == Some(cp)
    ensures Allowed(cp) && pos + |Encode(cp)| <= |bytes|
    ensures Encodes(cps + [cp], bytes[..pos + |Encode(cp)|])
    ensures SomePrintable(cps + [cp]) <==> SomePrintable(cps) || cp != 0x7F
  {
    hide Encode, Next, Control;
    var rest := bytes[pos..];
    NextIsThere(rest, cp);
    EncodeAllAppend(cps, [cp]);
    assert EncodeAll([cp]) == Encode(cp) + EncodeAll([]);
    assert bytes[..pos + |Encode(cp)|] == bytes[..pos] + Encode(cp);
    assert (cps + [cp])[|cps|] == cp;
    if SomePrintable(cps) {
      var i :| 0 <= i < |cps| && cps[i] != 0x7F;
      assert (cps + [cp])[i] != 0x7F;
    }
  }

  // ---------- against the standard ----------

  /** The code points that section 3 of RFC 3629 encodes: up to 0x10FFFF, and no surrogates. */
  predicate Scalar(cp: nat) { cp <= 0x10_FFFF && !(0xD800 <= cp <= 0xDFFF) }

  predicate AllScalar(cps: seq<nat>) { forall i :: 0 <= i < |cps| ==> Scalar(cps[i]) }

  /** What is_UTF8 would accept if it kept to the standard. */
  ghost predicate IsStandardText(bytes: seq<Octet>) {
    exists cps: seq<nat> :: Encodes(cps, bytes) && SomePrintable(cps) && AllScalar(cps)
  }

  /** An accepted file keeps to the standard exactly when none of its code points is a surrogate or too large. */
  lemma StandardExactly(bytes: seq<Octet>, cps: seq<nat>)
    requires Encodes(cps, bytes) && SomePrintable(cps)
    ensures IsText(bytes) && (IsStandardText(bytes) <==> AllScalar(cps))
  {
    if IsStandardText(bytes) {
      var other: seq<nat> :| Encodes(other, bytes) && SomePrintable(other) && AllScalar(other);
      UniqueDecoding(cps, other);
    }
  }

  /** The first two bytes of a code point tell whether the standard has it. */
  lemma ScalarByBytes(cp: nat)
    requires cp < 0x20_0000
    ensures var e := Encode(cp);
      Scalar(cp) <==> !(|e| > 1 && ((e[0] == 0xED && e[1] >= 0xA0) || (e[0] == 0xF4 && e[1] >= 0x90) || e[0] > 0xF4))
  {
    Quotients(cp);
  }

  /** Some accepted files do not keep to it: a surrogate, and a code point that is too large. */
  lemma AcceptedBeyondStandard()
    ensures IsText([0xED, 0xA0, 0x80]) && !IsStandardText([0xED, 0xA0, 0x80])
    ensures IsText([0xF4, 0x90, 0x80, 0x80]) && !IsStandardText([0xF4, 0x90, 0x80, 0x80])
  {
    OneCodePoint(0xD800);
    OneCodePoint(0x11_0000);
    StandardExactly([0xED, 0xA0, 0x80], [0xD800]);
    StandardExactly([0xF4, 0x90, 0x80, 0x80], [0x11_0000]);
    assert !Scalar([0xD800][0]) && !Scalar([0x11_0000][0]);
  }

  lemma OneCodePoint(cp: nat)
    requires Allowed(cp) && cp != 0x7F
    ensures Encodes([cp], Encode(cp)) && SomePrintable([cp])
  {
    assert [cp][0] != 0x7F;
    assert EncodeAll([cp][1..]) == [];
  }

  /** The examples of section 7 of RFC 3629, and the code points at which the length changes. */
  lemma EncodedExamples()
    ensures EncodeAll([0x41, 0x2262, 0x391, 0x2E]) == [0x41, 0xE2, 0x89, 0xA2, 0xCE, 0x91, 0x2E]
    ensures EncodeAll([0x65E5]) == [0xE6, 0x97, 0xA5] && EncodeAll([0x2_33B4]) == [0xF0, 0xA3, 0x8E, 0xB4]
    ensures Encode(0x7F) == [0x7F] && Encode(0x80) == [0xC2, 0x80] && Encode(0x7FF) == [0xDF, 0xBF]
    ensures Encode(0x800) == [0xE0, 0xA0, 0x80] && Encode(0xFFFF) == [0xEF, 0xBF, 0xBF]
    ensures Encode(0x1_0000) == [0xF0, 0x90, 0x80, 0x80] && Encode(0x1F_FFFF) == [0xF7, 0xBF, 0xBF, 0xBF]
  {
    var text := [0x41, 0x2262, 0x391, 0x2E];
    assert text[1..] == [0x2262, 0x391, 0x2E];
    assert [0x2262, 0x391, 0x2E][1..] == [0x391, 0x2E];
    assert EncodeAll([]) == [];
    assert EncodeAll([0x2E]) == [0x2E] && EncodeAll([0x391, 0x2E]) == [0xCE, 0x91] + [0x2E];
    assert EncodeAll([0x2262, 0x391, 0x2E]) == [0xE2, 0x89, 0xA2] + [0xCE, 0x91, 0x2E];
    assert EncodeAll([0x65E5]) == [0xE6, 0x97, 0xA5] + [];
    assert EncodeAll([0x2_33B4]) == [0xF0, 0xA3, 0x8E, 0xB4] + [];
  }

  // ---------- the masks of the recogniser ----------

  /** Masking with the j bits above the k lowest. */
  lemma HighBits(x: nat, k: nat, j: nat)
    requires x / Power2(k) < Power2(j)
    ensures And(x, Power2(k) * (Power2(j) - 1)) == Power2(k) * (x / Power2(k))
  {
    hide And, Power2;
    var r, q, m := x % Power2(k), x / Power2(k), Power2(j) - 1;
    DivMod(x, Power2(k));
    ConcatSum(r, q, k);
    ConcatSum(0, m, k);
    AndConcat(r, q, 0, m, k);
    AndMask(r, k);
    AndMask(q, j);
    ConcatSum(0, q, k);
  }

  lemma Powers()
    ensures Power2(3) == 8 && Power2(4) == 16 && Power2(5) == 32 && Power2(6) == 64 && Power2(7) == 128
    ensures Power2(1) == 2 && Power2(2) == 4
  {}

  lemma LeadMasks(ch: nat)
    requires ch < 256
    ensures And(ch, 0x80) == 0x00 <==> ch < 0x80
    ensures And(ch, 0xE0) == 0xC0 <==> ch / 32 == 6
    ensures And(ch, 0xF0) == 0xE0 <==> ch / 16 == 14
    ensures And(ch, 0xF8) == 0xF0 <==> ch / 8 == 30
    ensures And(ch, 0xC0) == 0x80 <==> ch / 64 == 2
    ensures And(ch, 0x1F) == ch % 32 && And(ch, 0x0F) == ch % 16 && And(ch, 0x07) == ch % 8 && And(ch, 0x3F) == ch % 64
  {
    hide And, Power2;
    Powers();
    HighBits(ch, 7, 1);
    HighBits(ch, 5, 3);
    HighBits(ch, 4, 4);
    HighBits(ch, 3, 5);
    HighBits(ch, 6, 2);
    AndModulo(ch, 5);
    AndModulo(ch, 4);
    AndModulo(ch, 3);
    AndModulo(ch, 6);
  }

  lemma OrShifted(q: nat, p: nat, r: nat)
    requires r < 64
    ensures Or(q * 64, r) == q * 64 + r
    ensures Or(q * 64, p * 64) == Or(q, p) * 64
  {
    hide Or, Power2;
    Powers();
    ConcatSum(0, q, 6);
    ConcatSum(r, 0, 6);
    ConcatSum(0, p, 6);
    OrConcat(0, q, r, 0, 6);
    OrConcat(0, q, 0, p, 6);
    OrZero(q);
    OrZeroLeft(r);
    OrZeroLeft(0);
    ConcatSum(r, q, 6);
    ConcatSum(0, Or(q, p), 6);
  }

  lemma OrThree(q: nat, p: nat, r: nat)
    requires p < 64 && r < 64
    ensures Or(Or(q * 4096, p * 64), r) == (q * 64 + p) * 64 + r
  {
    hide Or;
    OrShifted(q * 64, p, 0);
    OrShifted(q, 0, p);
    OrShifted(q * 64 + p, 0, r);
  }

  lemma OrFour(q: nat, p: nat, r: nat, t: nat)
    requires p < 64 && r < 64 && t < 64
    ensures Or(Or(Or(q * 262144, p * 4096), r * 64), t) == ((q * 64 + p) * 64 + r) * 64 + t
  {
    hide Or;
    OrShifted(q * 4096, p * 64, 0);
    OrShifted(q * 64, p, 0);
    OrShifted(q, 0, p);
    OrThree(q * 64 + p, r, t);
  }

  lemma CodepointMasks(ch: nat, b1: nat, b2: nat, b3: nat)
    requires ch < 256 && b1 < 256 && b2 < 256 && b3 < 256
    ensures Or(And(ch, 0x1F) * 64, And(b1, 0x3F)) == Two(ch, b1)
    ensures Or(Or(And(ch, 0x0F) * 4096, And(b1, 0x3F) * 64), And(b2, 0x3F)) == Three(ch, b1, b2)
    ensures Or(Or(Or(And(ch, 0x07) * 262144, And(b1, 0x3F) * 4096), And(b2, 0x3F) * 64), And(b3, 0x3F))
            == Four(ch, b1, b2, b3)
  {
    hide And, Or;
    LeadMasks(ch);
    LeadMasks(b1);
    LeadMasks(b2);
    LeadMasks(b3);
    OrShifted(ch % 32, 0, b1 % 64);
    OrThree(ch % 16, b1 % 64, b2 % 64);
    OrFour(ch % 8, b1 % 64, b2 % 64, b3 % 64);
  }

  // ---------- the recogniser ----------

  /** The bytes before pos have been read as cps. */
  ghost predicate ReadSoFar(bytes: seq<Octet>, pos: nat, cps: seq<nat>, foundPrintable: bool) {
    pos <= |bytes| && Encodes(cps, bytes[..pos]) && (foundPrintable <==> SomePrintable(cps))
  }

  lemma NothingRead(bytes: seq<Octet>)
    ensures ReadSoFar(bytes, 0, [], false)
  {}

  /** The decision for one character, which occupies the next n bytes. */
  lemma ReadNext(bytes: seq<Octet>, pos: nat, cps: seq<nat>, found: bool, n: nat)
    requires ReadSoFar(bytes, pos, cps, found) && pos < |bytes|
    requires n == Length(bytes[pos])
    ensures Next(bytes[pos..]) == None ==> !IsText(bytes)
    ensures Next(bytes[pos..]).Some? ==>
      var cp := Next(bytes[pos..]).value;
      pos + n <= |bytes| && ReadSoFar(bytes, pos + n, cps + [cp], found || cp != 0x7F)
  {
    if Next(bytes[pos..]) == None {
      Rejected(cps, bytes, pos);
    } else {
      var cp := Next(bytes[pos..]).value;
      Accepted(cps, bytes, pos, cp);
      NextLength(bytes[pos..], cp);
    }
  }

  /** How many bytes the lead byte announces. */
  function Length(lead: nat): nat {
    if lead < 0x80 then 1 else if lead / 32 == 6 then 2 else if lead / 16 == 14 then 3 else 4
  }

  lemma NextLength(b: seq<Octet>, cp: nat)
    requires Next(b) == Some(cp)
    ensures cp < 0x20_0000 && |Encode(cp)| == Length(b[0])
  {
    NextIsThere(b, cp);
    LeadAndTail(b[0]);
    if b[0] / 32 == 6 { TwoBytes(b[0], b[1], cp); }
    if b[0] / 16 == 14 { ThreeBytes(b[0], b[1], b[2], cp); }
  }

  lemma AllRead(bytes: seq<Octet>, cps: seq<nat>, found: bool)
    requires ReadSoFar(bytes, |bytes|, cps, found)
    ensures found <==> IsText(bytes)
  {
    assert bytes[..|bytes|] == bytes;
    if IsText(bytes) {
      var other: seq<nat> :| Encodes(other, bytes) && SomePrintable(other);
      UniqueDecoding(cps, other);
    }
  }

  /** is_UTF8 */
  method IsUtf8(fp: File) returns (ok: bool)
    requires fp.pos == 0
    modifies fp
    ensures fp.pos == 0 && (ok <==> IsText(fp.bytes))
  {
    hide And, Or, ReadSoFar, IsText, Encode, Two, Three, Four;
    ghost var bytes, cps: seq<nat> := fp.bytes, [];
    var foundPrintable := false;
    NothingRead(bytes);
    var ch := fp.Fgetc();
    while ch != EOF
      invariant fp.Valid()
      invariant if ch == EOF then fp.pos == |bytes| else 0 < fp.pos && ch == bytes[fp.pos - 1] as int
      invariant ReadSoFar(bytes, if ch == EOF then fp.pos else fp.pos - 1, cps, foundPrintable)
      decreases |bytes| - fp.pos, ch != EOF
    {
      ghost var start, found := fp.pos - 1, foundPrintable;
      ghost var rest := bytes[start..];
      ReadNext(bytes, start, cps, found, Length(ch));
      LeadMasks(ch);
      if ch == 0 { fp.Rewind(); return false; }
      if And(ch, 0x80) == 0x00 {
        if 32 <= ch <= 126 || ch == 10 || ch == 13 || ch == 9 {
          foundPrintable := true;
        } else if ch < 0x20 {
          fp.Rewind();
          return false;
        }
      } else if And(ch, 0xE0) == 0xC0 {
        var b1 := fp.Fgetc();
        if b1 != EOF { LeadMasks(b1); CodepointMasks(ch, b1, 0, 0); }
        if b1 == EOF || And(b1, 0xC0) != 0x80 { fp.Rewind(); return false; }
        var codepoint := Or(And(ch, 0x1F) * 64, And(b1, 0x3F));
        if codepoint < 0x80 { fp.Rewind(); return false; }
        if codepoint >= 32 { foundPrintable := true; }
      } else if And(ch, 0xF0) == 0xE0 {
        var b1 := fp.Fgetc();
        var b2 := fp.Fgetc();
        if b2 != EOF { LeadMasks(b1); LeadMasks(b2); CodepointMasks(ch, b1, b2, 0); }
        if b2 == EOF || And(b1, 0xC0) != 0x80 || And(b2, 0xC0) != 0x80 { fp.Rewind(); return false; }
        var codepoint := Or(Or(And(ch, 0x0F) * 4096, And(b1, 0x3F) * 64), And(b2, 0x3F));
        if codepoint < 0x800 { fp.Rewind(); return false; }
        if codepoint >= 32 { foundPrintable := true; }
      } else if And(ch, 0xF8) == 0xF0 {
        var b1 := fp.Fgetc();
        var b2 := fp.Fgetc();
        var b3 := fp.Fgetc();
        if b3 != EOF { LeadMasks(b1); LeadMasks(b2); LeadMasks(b3); CodepointMasks(ch, b1, b2, b3); }
        if b3 == EOF || And(b1, 0xC0) != 0x80 || And(b2, 0xC0) != 0x80 || And(b3, 0xC0) != 0x80 {
          fp.Rewind();
          return false;
        }
        var codepoint := Or(Or(Or(And(ch, 0x07) * 262144, And(b1, 0x3F) * 4096), And(b2, 0x3F) * 64), And(b3, 0x3F));
        if codepoint < 0x1_0000 { fp.Rewind(); return false; }
        if codepoint >= 32 { foundPrintable := true; }
      } else {
        fp.Rewind();
        return false;
      }
      cps := cps + [Next(rest).value];
      ch := fp.Fgetc();
    }
    AllRead(bytes, cps, foundPrintable);
    fp.Rewind();
    return foundPrintable;
  }

  // ---------- the other tests, and which one decides ----------

  predicate AsciiByte(ch: nat) { ch < 0x80 && !Control(ch) }

  predicate IsAsciiText(bytes: seq<Octet>) { forall i :: 0 <= i < |bytes| ==> AsciiByte(bytes[i]) }

  /** is_ascii */
  method IsAscii(fp: File) returns (ok: bool)
    requires fp.pos == 0
    modifies fp
    ensures fp.pos == 0 && (ok <==> IsAsciiText(fp.bytes))
  {
    var ch := fp.Fgetc();
    while ch != EOF
      invariant fp.Valid()
      invariant if ch == EOF then fp.pos == |fp.bytes| else 0 < fp.pos && ch == fp.bytes[fp.pos - 1] as int
      invariant forall i :: 0 <= i < (if ch == EOF then fp.pos else fp.pos - 1) ==> AsciiByte(fp.bytes[i])
      decreases |fp.bytes| - fp.pos, ch != EOF
    {
      assert IsAsciiText(fp.bytes) ==> AsciiByte(fp.bytes[fp.pos - 1]);
      if ch == 0 || ch > 0x7F { fp.Rewind(); return false; }
      if ch < 0x20 && ch != 10 && ch != 13 && ch != 9 { fp.Rewind(); return false; }
      ch := fp.Fgetc();
    }
    fp.Rewind();
    return true;
  }

  predicate Latin1Byte(ch: nat) { !Control(ch) && ch != 127 }
  predicate Basic(ch: nat) { 32 <= ch <= 126 || ch == 9 || ch == 10 || ch == 13 }
  predicate High(ch: nat) { 160 <= ch <= 255 }

  ghost predicate IsLatin1Text(bytes: seq<Octet>) {
    && (forall i :: 0 <= i < |bytes| ==> Latin1Byte(bytes[i]))
    && (exists i :: 0 <= i < |bytes| && Basic(bytes[i]))
    && (exists i :: 0 <= i < |bytes| && High(bytes[i]))
  }

  /** is_iso8859 */
  method IsIso8859(fp: File) returns (ok: bool)
    requires fp.pos == 0
    modifies fp
    ensures fp.pos == 0 && (ok <==> IsLatin1Text(fp.bytes))
  {
    var foundBasic, foundHigh, foundAny := false, false, false;
    ghost var bytes := fp.bytes;
    var ch := fp.Fgetc();
    while ch != EOF
      invariant fp.Valid()
      invariant if ch == EOF then fp.pos == |bytes| else 0 < fp.pos && ch == bytes[fp.pos - 1] as int
      invariant forall i :: 0 <= i < (if ch == EOF then fp.pos else fp.pos - 1) ==> Latin1Byte(bytes[i])
      invariant foundBasic <==> exists i :: 0 <= i < (if ch == EOF then fp.pos else fp.pos - 1) && Basic(bytes[i])
      invariant foundHigh <==> exists i :: 0 <= i < (if ch == EOF then fp.pos else fp.pos - 1) && High(bytes[i])
      invariant foundBasic ==> foundAny
      decreases |bytes| - fp.pos, ch != EOF
    {
      foundAny := true;
      assert IsLatin1Text(bytes) ==> Latin1Byte(bytes[fp.pos - 1]);
      if ch == 0 { fp.Rewind(); return false; }
      if ch < 0x20 && ch != 10 && ch != 13 && ch != 9 { fp.Rewind(); return false; }
      if ch == 127 { fp.Rewind(); return false; }
      if ch >= 160 && ch <= 255 { foundHigh := true; assert High(bytes[fp.pos - 1]); }
      if (ch >= 32 && ch <= 126) || ch == 10 || ch == 13 || ch == 9 {
        foundBasic := true;
        assert Basic(bytes[fp.pos - 1]);
      }
      ch := fp.Fgetc();
    }
    fp.Rewind();
    return foundAny && foundBasic && foundHigh;
  }

  /** Which bytes the three tests allow: tab, line feed and carriage return, and nothing else below 32. */
  lemma BytesAllowed(ch: nat)
    requires ch < 256
    ensures Control(ch) <==> ch in [0, 1, 2, 3, 4, 5, 6, 7, 8, 11, 12] || 14 <= ch <= 31
    ensures AsciiByte(ch) <==> ch in [9, 10, 13] || 32 <= ch <= 127
    ensures Latin1Byte(ch) <==> ch in [9, 10, 13] || 32 <= ch <= 126 || 128 <= ch
    ensures Latin1Byte(ch) <==> Basic(ch) || High(ch) || 128 <= ch <= 159
  {}

  datatype FileType = EMPTY | ASCII | ISO8859_1 | UTF8 | DATA

  ghost predicate SomeHigh(s: seq<nat>) { exists i :: 0 <= i < |s| && s[i] >= 0x80 }

  /** Whether the file is text in UTF-8 at all, printable or not. */
  ghost predicate Decodable(bytes: seq<Octet>) { exists cps: seq<nat> :: Encodes(cps, bytes) }

  /** Code points from 0x80 on are written with bytes from 0x80 on, and only they. */
  lemma {:induction false} HighSame(cps: seq<nat>)
    requires AllAllowed(cps)
    ensures SomeHigh(EncodeAll(cps)) <==> SomeHigh(cps)
    ensures !SomeHigh(cps) ==> EncodeAll(cps) == cps
  {
    hide Control;
    if cps != [] {
      var first, rest, bytes := Encode(cps[0]), cps[1..], EncodeAll(cps);
      HighSame(rest);
      assert cps == [cps[0]] + rest;
      if cps[0] >= 0x80 {
        assert bytes[0] == first[0] >= 0x80;
      } else {
        if SomeHigh(rest) {
          var i :| 0 <= i < |rest| && rest[i] >= 0x80;
          assert cps[i + 1] >= 0x80;
          var j :| 0 <= j < |EncodeAll(rest)| && EncodeAll(rest)[j] >= 0x80;
          assert bytes[j + 1] >= 0x80;
        } else {
          assert forall i :: 0 < i < |cps| ==> cps[i] == rest[i - 1];
        }
      }
    }
  }

  lemma {:induction false} AsciiDecodes(bytes: seq<Octet>)
    requires IsAsciiText(bytes)
    ensures Encodes(bytes, bytes) && !SomeHigh(bytes)
  {
    if bytes != [] {
      AsciiDecodes(bytes[1..]);
    }
  }

  /** What the test for UTF-8 adds once ASCII has been ruled out: a code point from 0x80 on, and nothing else. */
  lemma WhatUtf8Adds(bytes: seq<Octet>)
    ensures !IsAsciiText(bytes) && IsText(bytes) <==> Decodable(bytes) && SomeHigh(bytes)
  {
    hide Control;
    if IsAsciiText(bytes) { AsciiDecodes(bytes); }
    if Decodable(bytes) {
      var cps: seq<nat> :| Encodes(cps, bytes);
      HighSame(cps);
      if SomeHigh(cps) {
        var i :| 0 <= i < |cps| && cps[i] >= 0x80;
        assert cps[i] != 0x7F;
      } else {
        assert forall i :: 0 <= i < |bytes| ==> AsciiByte(bytes[i]);
      }
    }
  }

  /** detectType: what each answer says about the file. */
  method DetectType(fp: File, fileSize: nat) returns (t: FileType)
    requires fp.pos == 0 && fileSize == |fp.bytes|
    modifies fp
    ensures t == EMPTY <==> fp.bytes == []
    ensures t == ASCII <==> fp.bytes != [] && IsAsciiText(fp.bytes)
    ensures t == UTF8 <==> Decodable(fp.bytes) && SomeHigh(fp.bytes)
    ensures t == ISO8859_1 <==> IsLatin1Text(fp.bytes) && !Decodable(fp.bytes)
  {
    hide IsText, Encodes, AsciiByte, Control;
    if fileSize == 0 {
      EmptyFile(fp.bytes);
      return EMPTY;
    }
    WhatUtf8Adds(fp.bytes);
    if IsLatin1Text(fp.bytes) { Latin1IsHigh(fp.bytes); }
    var ascii := IsAscii(fp);
    if ascii { return ASCII; }
    var utf8 := IsUtf8(fp);
    if utf8 { return UTF8; }
    var iso := IsIso8859(fp);
    if iso { return ISO8859_1; }
    return DATA;
  }

  lemma EmptyFile(bytes: seq<Octet>)
    requires bytes == []
    ensures !SomeHigh(bytes) && !IsLatin1Text(bytes)
  {}

  lemma Latin1IsHigh(bytes: seq<Octet>)
    requires IsLatin1Text(bytes)
    ensures SomeHigh(bytes) && !IsAsciiText(bytes)
  {
    var i :| 0 <= i < |bytes| && High(bytes[i]);
    assert !AsciiByte(bytes[i]);
  }
}
