/**
 The radix tree of Assignment4/predictor-benchmarks/radix.c as an inductive value: what
 add_number and take_numbers_2 do to the numbers it holds. RadixTree.dfy proves the pointer
 program against the functions of this module.
 */
module RadixTrie {
  import opened Basics
  import opened BitMasks

  datatype Trie =
    | Empty
    | Leaf(number: nat, zeros: nat, ones: nat)
    | Branch(bit: nat, number: nat, zero: Trie, one: Trie)

  /** The bit position of a node; a leaf has position 1. */
  function BitOf(t: Trie): nat
    requires !t.Empty?
  {
    if t.Leaf? then 1 else t.bit
  }

  /** c may hang on the side `side` of a branch at `bit` whose numbers look like `number`. */
  ghost predicate Under(c: Trie, bit: nat, number: nat, side: bool) {
    c.Empty? || (BitOf(c) < bit && Prefix(c.number, bit) == Prefix(number, bit) && Bit(c.number, bit) == side)
  }

  /** The trie invariant: falling one-hot positions, agreement above them, no empty node. */
  ghost predicate Wf(t: Trie) {
    match t
    case Empty => true
    case Leaf(n, zeros, ones) => n < LIMIT && zeros + ones > 0
    case Branch(b, n, zero, one) =>
      && n < LIMIT && OneHot(b) && 1 < b <= MAX_BITS
      && !(zero.Empty? && one.Empty?)
      && Wf(zero) && Wf(one)
      && Under(zero, b, n, false) && Under(one, b, n, true)
  }

  /** The number of nodes. */
  ghost function Nodes(t: Trie): nat {
    match t
    case Empty => 0
    case Leaf(_, _, _) => 1
    case Branch(_, _, zero, one) => 1 + Nodes(zero) + Nodes(one)
  }

  /** The numbers stored, with their multiplicities. */
  ghost function Numbers(t: Trie): multiset<nat> {
    match t
    case Empty => multiset{}
    case Leaf(n, zeros, ones) => multiset{}[Even(n) := zeros][Odd(n) := ones]
    case Branch(_, _, zero, one) => Numbers(zero) + Numbers(one)
  }

  /** The order in which take_numbers_2 visits them. */
  ghost function Listing(t: Trie): seq<nat> {
    match t
    case Empty => []
    case Leaf(n, zeros, ones) => Repeat(Even(n), zeros) + Repeat(Odd(n), ones)
    case Branch(_, _, zero, one) => Listing(zero) + Listing(one)
  }

  ghost function Repeat(x: nat, n: nat): (s: seq<nat>)
    ensures |s| == n && forall i :: 0 <= i < n ==> s[i] == x
  {
    seq(n, _ => x)
  }

  lemma {:induction false} RepeatMultiset(x: nat, n: nat)
    ensures multiset(Repeat(x, n)) == multiset{}[x := n]
  {
    if n > 0 {
      RepeatMultiset(x, n - 1);
      assert Repeat(x, n) == Repeat(x, n - 1) + [x];
    }
  }

  /** Draining a tree yields each of its numbers as often as it holds it. */
  lemma {:induction false} ListingIsNumbers(t: Trie)
    ensures multiset(Listing(t)) == Numbers(t)
  {
    match t
    case Empty =>
    case Leaf(n, zeros, ones) =>
      RepeatMultiset(Even(n), zeros);
      RepeatMultiset(Odd(n), ones);
      LeafNumbers(n);
    case Branch(_, _, zero, one) =>
      ListingIsNumbers(zero);
      ListingIsNumbers(one);
  }

  // ---------- agreement and order ----------

  lemma BelowBranch(x: nat, c: Trie, bit: nat, number: nat, side: bool)
    requires Wf(c) && !c.Empty? && Under(c, bit, number, side) && OneHot(bit)
    requires Prefix(x, BitOf(c)) == Prefix(c.number, BitOf(c))
    ensures Prefix(x, bit) == Prefix(number, bit) && Bit(x, bit) == side
  {
    PrefixNests(x, c.number, BitOf(c), bit);
  }

  /** Every number of a tree looks like its root above the root's bit. */
  lemma {:induction false} NumbersAgree(t: Trie, x: nat)
    requires Wf(t) && x in Numbers(t)
    ensures !t.Empty? && x < LIMIT && Prefix(x, BitOf(t)) == Prefix(t.number, BitOf(t))
  {
    match t
    case Empty =>
    case Leaf(n, _, _) => LeafNumbers(n);
    case Branch(b, n, zero, one) =>
      if x in Numbers(zero) {
        NumbersAgree(zero, x);
        BelowBranch(x, zero, b, n, false);
      } else {
        NumbersAgree(one, x);
        BelowBranch(x, one, b, n, true);
      }
  }

  lemma SidesOrdered(t: Trie, x: nat, y: nat)
    requires Wf(t) && t.Branch? && x in Numbers(t.zero) && y in Numbers(t.one)
    ensures x < y
  {
    NumbersAgree(t.zero, x);
    BelowBranch(x, t.zero, t.bit, t.number, false);
    NumbersAgree(t.one, y);
    BelowBranch(y, t.one, t.bit, t.number, true);
    PrefixOrders(x, y, t.bit);
  }

  ghost predicate Sorted(s: seq<nat>) {
    forall i, j :: 0 <= i < j < |s| ==> s[i] <= s[j]
  }

  /** Draining a tree yields its numbers in ascending order. */
  lemma {:induction false} ListingSorted(t: Trie)
    requires Wf(t)
    ensures Sorted(Listing(t))
  {
    match t
    case Empty =>
    case Leaf(n, _, _) => LeafNumbers(n);
    case Branch(_, _, zero, one) =>
      ListingSorted(zero);
      ListingSorted(one);
      ListingIsNumbers(zero);
      ListingIsNumbers(one);
      forall i, j | 0 <= i < |Listing(zero)| && 0 <= j < |Listing(one)|
        ensures Listing(zero)[i] <= Listing(one)[j]
      {
        assert Listing(zero)[i] in multiset(Listing(zero)) && Listing(one)[j] in multiset(Listing(one));
        SidesOrdered(t, Listing(zero)[i], Listing(one)[j]);
      }
  }

  // ---------- adding a number ----------

  ghost function NewLeaf(x: nat): Trie {
    if x % 2 == 0 then Leaf(x, 1, 0) else Leaf(x, 0, 1)
  }

  /** A branch on bit b that separates x from the whole of t. */
  ghost function Inject(t: Trie, x: nat, b: nat): Trie {
    if Bit(x, b) then Branch(b, x, t, NewLeaf(x)) else Branch(b, x, NewLeaf(x), t)
  }

  /** x belongs beside t rather than inside it. */
  ghost predicate Differs(t: Trie, x: nat)
    requires !t.Empty?
  {
    Prefix(x, BitOf(t)) != Prefix(t.number, BitOf(t))
  }

  ghost function Insert(t: Trie, x: nat): Trie
    requires Wf(t) && x < LIMIT
  {
    if t.Empty? then NewLeaf(x)
    else if Differs(t, x) then
      AgreeAtTop(x, t.number);
      Inject(t, x, TopBit(x, t.number, MAX_BITS))
    else match t
      case Leaf(n, zeros, ones) => if x % 2 == 1 then Leaf(n, zeros, ones + 1) else Leaf(n, zeros + 1, ones)
      case Branch(b, n, zero, one) =>
        if Bit(x, b) then Branch(b, n, zero, Insert(one, x)) else Branch(b, n, Insert(zero, x), one)
  }

  lemma NewLeafHolds(x: nat)
    requires x < LIMIT
    ensures Wf(NewLeaf(x)) && Numbers(NewLeaf(x)) == multiset{x}
  {
    LeafNumbers(x);
  }

  /** add_number records exactly one more occurrence of its argument. */
  lemma {:induction false} InsertAddsOne(t: Trie, x: nat)
    requires Wf(t) && x < LIMIT
    ensures Numbers(Insert(t, x)) == Numbers(t) + multiset{x}
  {
    NewLeafHolds(x);
    if t.Empty? || Differs(t, x) {
    } else {
      match t
      case Leaf(n, _, _) => LeafNumbers(n);
      case Branch(b, n, zero, one) =>
        if Bit(x, b) { InsertAddsOne(one, x); } else { InsertAddsOne(zero, x); }
    }
  }

  /** The branch position chosen for x lies above t and below any branch t hangs under. */
  lemma InjectPosition(t: Trie, x: nat, b: nat, bit: nat, n: nat, side: bool)
    requires Wf(t) && !t.Empty? && Differs(t, x)
    requires OneHot(b) && Prefix(x, b) == Prefix(t.number, b) && Bit(x, b) != Bit(t.number, b)
    ensures BitOf(t) < b
    ensures OneHot(bit) && Under(t, bit, n, side) && Prefix(x, bit) == Prefix(n, bit) && Bit(x, bit) == side ==> b < bit
  {
    if b < BitOf(t) { PrefixNests(x, t.number, b, BitOf(t)); }
    if OneHot(bit) && bit < b && Prefix(x, bit) == Prefix(t.number, bit) {
      PrefixNests(x, t.number, bit, b);
    }
  }

  /** What an insertion below a branch needs: the new subtree still hangs below it. */
  lemma InsertStaysUnder(t: Trie, x: nat, bit: nat, n: nat, side: bool)
    requires Wf(t) && x < LIMIT && OneHot(bit) && bit > 1
    requires Under(t, bit, n, side) && Prefix(x, bit) == Prefix(n, bit) && Bit(x, bit) == side
    ensures Under(Insert(t, x), bit, n, side)
  {
    if !t.Empty? && Differs(t, x) {
      AgreeAtTop(x, t.number);
      InjectPosition(t, x, TopBit(x, t.number, MAX_BITS), bit, n, side);
    }
  }

  /** add_number keeps the trie invariant. */
  lemma {:induction false} InsertWf(t: Trie, x: nat)
    requires Wf(t) && x < LIMIT
    ensures Wf(Insert(t, x)) && !Insert(t, x).Empty?
  {
    NewLeafHolds(x);
    if t.Empty? {
    } else if Differs(t, x) {
      AgreeAtTop(x, t.number);
      InjectPosition(t, x, TopBit(x, t.number, MAX_BITS), 1, 0, false);
    } else if t.Branch? {
      if Bit(x, t.bit) {
        InsertWf(t.one, x);
        InsertStaysUnder(t.one, x, t.bit, t.number, true);
      } else {
        InsertWf(t.zero, x);
        InsertStaysUnder(t.zero, x, t.bit, t.number, false);
      }
    }
  }

  // ---------- taking numbers ----------

  /** What take_numbers_2 leaves behind when it has room for k numbers. */
  ghost function Rest(t: Trie, k: nat): Trie {
    if k == 0 then t else
      match t
      case Empty => Empty
      case Leaf(n, zeros, ones) =>
        var a := Min(k, zeros);
        var b := Min(k - a, ones);
        if zeros == a && ones == b then Empty else Leaf(n, zeros - a, ones - b)
      case Branch(bit, n, zero, one) =>
        var zero' := Rest(zero, k);
        var one' := Rest(one, k - Min(k, |Listing(zero)|));
        if zero'.Empty? && one'.Empty? then Empty else Branch(bit, n, zero', one')
  }

  lemma RestOfBranch(t: Trie, k: nat, zero: Trie, one: Trie)
    requires t.Branch? && k > 0
    requires zero == Rest(t.zero, k) && one == Rest(t.one, k - Min(k, |Listing(t.zero)|))
    ensures Rest(t, k) == if zero.Empty? && one.Empty? then Empty else Branch(t.bit, t.number, zero, one)
  {}

  /** A take removes a prefix of the listing, which is the smallest numbers. */
  lemma {:induction false} RestListing(t: Trie, k: nat)
    ensures Listing(Rest(t, k)) == Listing(t)[Min(k, |Listing(t)|)..]
  {
    if k > 0 {
      match t
      case Empty =>
      case Leaf(_, _, _) => RestOfLeaf(t, k);
      case Branch(_, _, zero, one) =>
        RestListing(zero, k);
        RestListing(one, k - Min(k, |Listing(zero)|));
        DropSplits(Listing(zero), Listing(one), k);
    }
  }

  lemma RestOfLeaf(t: Trie, k: nat)
    requires t.Leaf?
    ensures Listing(Rest(t, k)) == Listing(t)[Min(k, |Listing(t)|)..]
  {
    DropSplits(Repeat(Even(t.number), t.zeros), Repeat(Odd(t.number), t.ones), k);
    RepeatDrops(Even(t.number), t.zeros, Min(k, t.zeros));
    RepeatDrops(Odd(t.number), t.ones, Min(k - Min(k, t.zeros), t.ones));
  }

  lemma DropSplits(a: seq<nat>, b: seq<nat>, k: nat)
    ensures (a + b)[Min(k, |a + b|)..] == a[Min(k, |a|)..] + b[Min(k - Min(k, |a|), |b|)..]
  {}

  lemma RepeatDrops(x: nat, n: nat, k: nat)
    requires k <= n
    ensures Repeat(x, n)[k..] == Repeat(x, n - k)
  {}

  /** A take keeps the trie invariant. */
  lemma {:induction false} RestWf(t: Trie, k: nat)
    requires Wf(t)
    ensures Wf(Rest(t, k))
    ensures !Rest(t, k).Empty? ==> !t.Empty? && Rest(t, k).number == t.number && BitOf(Rest(t, k)) == BitOf(t)
  {
    if k > 0 && t.Branch? {
      RestWf(t.zero, k);
      RestWf(t.one, k - Min(k, |Listing(t.zero)|));
    }
  }

  // ---------- the simple form: a sorted list ----------

  ghost function InsertSorted(s: seq<nat>, x: nat): seq<nat> {
    if s == [] || x <= s[0] then [x] + s else [s[0]] + InsertSorted(s[1..], x)
  }

  lemma SortedCons(h: nat, t: seq<nat>)
    requires Sorted(t) && (t == [] || h <= t[0])
    ensures Sorted([h] + t)
  {}

  lemma {:induction false} InsertSortedAdds(s: seq<nat>, x: nat)
    ensures multiset(InsertSorted(s, x)) == multiset(s) + multiset{x}
  {
    if s != [] && x > s[0] {
      InsertSortedAdds(s[1..], x);
      assert s == [s[0]] + s[1..];
    }
  }

  lemma {:induction false} InsertSortedSorts(s: seq<nat>, x: nat)
    requires Sorted(s)
    ensures Sorted(InsertSorted(s, x)) && multiset(InsertSorted(s, x)) == multiset(s) + multiset{x}
    ensures InsertSorted(s, x)[0] == if s == [] || x <= s[0] then x else s[0]
  {
    InsertSortedAdds(s, x);
    if s == [] || x <= s[0] {
      SortedCons(x, s);
    } else {
      SortedTail(s);
      InsertSortedSorts(s[1..], x);
      SortedCons(s[0], InsertSorted(s[1..], x));
    }
  }

  lemma SortedTail(s: seq<nat>)
    requires Sorted(s) && s != []
    ensures Sorted(s[1..]) && (|s| > 1 ==> s[0] <= s[1..][0])
  {}

  lemma FirstIsLeast(a: seq<nat>, x: nat)
    requires Sorted(a) && x in multiset(a)
    ensures a != [] && a[0] <= x
  {
    assert x in a;
  }

  lemma TailCounts(s: seq<nat>)
    requires s != []
    ensures multiset(s[1..]) == multiset(s) - multiset{s[0]}
  {
    assert s == [s[0]] + s[1..];
  }

  lemma SameHead(a: seq<nat>, b: seq<nat>)
    requires Sorted(a) && Sorted(b) && multiset(a) == multiset(b) && a != []
    ensures b != [] && a[0] == b[0]
    ensures Sorted(a[1..]) && Sorted(b[1..]) && multiset(a[1..]) == multiset(b[1..])
  {
    assert a[0] in multiset(a);
    FirstIsLeast(b, a[0]);
    assert b[0] in multiset(b);
    FirstIsLeast(a, b[0]);
    SortedTail(a);
    SortedTail(b);
    hide Sorted;
    TailCounts(a);
    TailCounts(b);
  }

  lemma {:induction false} SortedUnique(a: seq<nat>, b: seq<nat>)
    requires Sorted(a) && Sorted(b) && multiset(a) == multiset(b)
    ensures a == b
  {
    if a == [] {
      assert |b| == |multiset(b)|;
    } else {
      SameHead(a, b);
      SortedUnique(a[1..], b[1..]);
      assert a == [a[0]] + a[1..] && b == [b[0]] + b[1..];
    }
  }

  /** On the sorted listing, add_number is insertion in order. */
  lemma InsertListing(t: Trie, x: nat)
    requires Wf(t) && x < LIMIT
    ensures Listing(Insert(t, x)) == InsertSorted(Listing(t), x)
  {
    InsertWf(t, x);
    InsertAddsOne(t, x);
    ListingSorted(t);
    ListingSorted(Insert(t, x));
    ListingIsNumbers(t);
    ListingIsNumbers(Insert(t, x));
    InsertSortedSorts(Listing(t), x);
    SortedUnique(Listing(Insert(t, x)), InsertSorted(Listing(t), x));
  }

  // ---------- the whole program on a sorted list ----------

  /** `-n` on a 32-bit int. */
  function Negate(n: int): int {
    if n + LIMIT == 0 then n else -n
  }

  /** A sorted list answering one request: a number to add, or -N to take N. */
  ghost function Serve(s: seq<nat>, request: int): (seq<nat>, seq<nat>) {
    if request >= 0 then (InsertSorted(s, request), [])
    else if Negate(request) <= 0 then (s, [])
    else var k := Min(Negate(request), |s|); (s[k..], s[..k])
  }

  /**
   A request of N, not negative, adds N; one of -N takes the N first numbers, or all if there are
   fewer; the least int, whose negation overflows, takes none.
   */
  lemma ServeExactly(s: seq<nat>, request: int)
    requires -0x8000_0000 <= request <= 0x7fff_ffff && Sorted(s)
    ensures request >= 0 ==>
      var (left, out) := Serve(s, request);
      var x: nat := request;
      out == [] && Sorted(left) && multiset(left) == multiset(s) + multiset{x}
    ensures -0x8000_0000 < request < 0 ==>
      var k := if -request <= |s| then -request else |s|;
      Serve(s, request) == (s[k..], s[..k])
    ensures request == -0x8000_0000 ==> Serve(s, request) == (s, [])
  {
    if request >= 0 { InsertSortedSorts(s, request); }
  }

  /** A sorted list answering all requests in turn: what is left, and everything written out. */
  ghost function ServeAll(s: seq<nat>, requests: seq<int>): (seq<nat>, seq<nat>) {
    if requests == [] then (s, []) else
      var (s1, out1) := ServeAll(s, requests[..|requests| - 1]);
      var (s2, out2) := Serve(s1, requests[|requests| - 1]);
      (s2, out1 + out2)
  }

  lemma ServeAllStep(s: seq<nat>, requests: seq<int>, n: nat)
    requires n < |requests|
    ensures var (s1, out1) := ServeAll(s, requests[..n]);
      var (s2, out2) := Serve(s1, requests[n]);
      ServeAll(s, requests[..n + 1]) == (s2, out1 + out2)
  {
    assert requests[..n + 1][..n] == requests[..n];
  }

  lemma NoRequests(s: seq<nat>)
    ensures ServeAll(s, []) == (s, [])
  {}

  lemma ServeAllLast(s: seq<nat>, a: seq<int>, request: int)
    ensures var (s1, out1) := ServeAll(s, a);
      var (s2, out2) := Serve(s1, request);
      ServeAll(s, a + [request]) == (s2, out1 + out2)
  {
    hide Serve;
    assert (a + [request])[..|a|] == a;
  }

  /** Requests may be served in batches. */
  lemma {:induction false} ServeAllAppend(s: seq<nat>, a: seq<int>, b: seq<int>)
    ensures var (s1, out1) := ServeAll(s, a);
      var (s2, out2) := ServeAll(s1, b);
      ServeAll(s, a + b) == (s2, out1 + out2)
  {
    hide Serve, ServeAll;
    var (s1, out1) := ServeAll(s, a);
    if b == [] {
      NoRequests(s1);
      assert a + b == a && out1 + [] == out1;
    } else {
      var first, last := b[..|b| - 1], b[|b| - 1];
      ServeAllAppend(s, a, first);
      ServeAllLast(s, a + first, last);
      ServeAllLast(s1, first, last);
      var (s2, out2) := ServeAll(s1, first);
      assert a + b == a + first + [last] && b == first + [last];
      assert out1 + out2 + Serve(s2, last).1 == out1 + (out2 + Serve(s2, last).1);
    }
  }

  ghost function AddedBy(request: int): multiset<nat> {
    if request >= 0 then var x: nat := request; multiset{x} else multiset{}
  }

  ghost function Added(requests: seq<int>): multiset<nat> {
    if requests == [] then multiset{}
    else Added(requests[..|requests| - 1]) + AddedBy(requests[|requests| - 1])
  }

  lemma ServeKeeps(s: seq<nat>, request: int)
    requires Sorted(s)
    ensures var (left, out) := Serve(s, request);
      && Sorted(left) && Sorted(out)
      && multiset(left) + multiset(out) == multiset(s) + AddedBy(request)
      && (forall x, y :: x in out && y in left ==> x <= y)
  {
    var (left, out) := Serve(s, request);
    if request >= 0 {
      InsertSortedSorts(s, request);
    } else {
      assert s == out + left;
    }
  }

  /** Every number added is either written out or still held, exactly as often as it was added. */
  lemma {:induction false} NothingLost(s: seq<nat>, requests: seq<int>)
    requires Sorted(s)
    ensures var (left, out) := ServeAll(s, requests);
      Sorted(left) && multiset(left) + multiset(out) == multiset(s) + Added(requests)
  {
    if requests != [] {
      var before, last := requests[..|requests| - 1], requests[|requests| - 1];
      NothingLost(s, before);
      var (s1, out1) := ServeAll(s, before);
      ServeKeeps(s1, last);
      var (s2, out2) := Serve(s1, last);
      calc {
        multiset(s2) + multiset(out1 + out2);
        multiset(out1) + (multiset(s2) + multiset(out2));
        multiset(out1) + (multiset(s1) + AddedBy(last));
        multiset(s) + Added(before) + AddedBy(last);
      }
    }
  }
}
