/**
 The pointer program of Assignment4/predictor-benchmarks/radix.c: nodes on the heap, the
 iterative insertion through a `struct node**`, and the recursive take.

 Every node carries two ghost fields: `up`, the only link that may point to it, and `sub`,
 the subtree hanging below it as a value. The invariant is flat: it speaks of each node and
 its children only, so a method may leave a set of nodes (its `open` nodes) unfinished.
 */
module RadixTree {
  import opened Basics
  import opened BitMasks
  import opened RadixTrie

  /** A `struct node**`: the place that holds a pointer to a node. */
  datatype Link = Root | ZeroOf(node: Node) | OneOf(node: Node)

  /** Leaf counts and child pointers share storage in C; here a leaf has null children. */
  class Node {
    var bitPos: nat
    var number: nat
    var countZero: nat
    var countOne: nat
    var zero: Node?
    var one: Node?
    ghost var up: Link
    ghost var sub: Trie

    constructor Leaf(number: nat, zeros: nat, ones: nat, ghost up: Link)
      ensures bitPos == 1 && this.number == number && countZero == zeros && countOne == ones
      ensures zero == null && one == null && this.up == up && sub == Trie.Leaf(number, zeros, ones)
    {
      this.bitPos := 1;
      this.number := number;
      this.countZero := zeros;
      this.countOne := ones;
      this.zero := null;
      this.one := null;
      this.up := up;
      this.sub := Trie.Leaf(number, zeros, ones);
    }

    constructor Branch(bitPos: nat, number: nat, zero: Node?, one: Node?, ghost up: Link, ghost sub: Trie)
      ensures this.bitPos == bitPos && this.number == number && this.zero == zero && this.one == one
      ensures this.up == up && this.sub == sub
    {
      this.bitPos := bitPos;
      this.number := number;
      this.countZero := 0;
      this.countOne := 0;
      this.zero := zero;
      this.one := one;
      this.up := up;
      this.sub := sub;
    }
  }

  ghost function Sub(p: Node?): Trie
    reads p
  {
    if p == null then Empty else p.sub
  }

  /** The subtree a node's own fields and its children describe. */
  ghost function Built(n: Node, zero: Trie, one: Trie): Trie
    reads n`bitPos, n`number, n`countZero, n`countOne
  {
    if n.bitPos == 1 then Leaf(n.number, n.countZero, n.countOne) else Branch(n.bitPos, n.number, zero, one)
  }

  ghost predicate IsChild(c: Node, m: Node)
    reads m
  {
    c == m.zero || c == m.one
  }

  /** No node comes before a child of it. */
  ghost predicate ChildrenFirst(nodes: seq<Node>)
    reads nodes
  {
    forall i, j :: 0 <= i < |nodes| && 0 <= j < |nodes| && IsChild(nodes[i], nodes[j]) ==> i < j
  }

  ghost predicate Apart(a: seq<Node>, b: seq<Node>) { forall x :: x in a ==> x !in b }

  class RadixTree {
    var tree: Node?
    ghost var Repr: set<Node>

    ghost function Read(l: Link): Node?
      reads this, if l.Root? then {} else {l.node}
    {
      match l
      case Root => tree
      case ZeroOf(n) => n.zero
      case OneOf(n) => n.one
    }

    /** Every child pointer leads into the tree, and to a node that only it may point to. */
    ghost predicate LinkedNode(n: Node)
      reads this, Repr, n
    {
      && (n.zero != null ==> n.zero in Repr && n.zero.up == ZeroOf(n))
      && (n.one != null ==> n.one in Repr && n.one.up == OneOf(n))
      && (n.bitPos == 1 ==> n.zero == null && n.one == null)
      && (match n.up
          case Root => tree == n
          case ZeroOf(m) => m in Repr && m.zero == n
          case OneOf(m) => m in Repr && m.one == n)
    }

    /** The subtree recorded for n is the one its fields and children describe. */
    ghost predicate Finished(n: Node)
      reads n, n.zero, n.one
    {
      n.sub == Built(n, Sub(n.zero), Sub(n.one))
    }

    ghost predicate Inv(open: set<Node>)
      reads this, Repr
    {
      && (tree != null ==> tree in Repr && tree.up == Root)
      && (forall n {:trigger LinkedNode(n)} {:trigger Finished(n)} ::
            n in Repr ==> LinkedNode(n) && (n !in open ==> Finished(n)))
    }

    ghost predicate Valid()
      reads this, Repr
    {
      Inv({}) && Wf(Sub(tree))
    }

    /** The tree as a value. */
    ghost function Shape(): Trie
      reads this, tree
    {
      Sub(tree)
    }

    constructor ()
      ensures Valid() && Shape() == Empty && Repr == {}
    {
      tree := null;
      Repr := {};
    }

    ghost function Owner(l: Link): set<Node> {
      if l.Root? then {} else {l.node}
    }

    /** The owners of the places `*parent` may be, split by field for the frames below. */
    ghost function ZeroOwner(l: Link): set<Node> { if l.ZeroOf? then {l.node} else {} }
    ghost function OneOwner(l: Link): set<Node> { if l.OneOf? then {l.node} else {} }

    /** `*parent = p` */
    method StoreAt(parent: Link, p: Node?)
      modifies this`tree, ZeroOwner(parent)`zero, OneOwner(parent)`one
      ensures Read(parent) == p && (parent.Root? || tree == old(tree))
    {
      match parent
      case Root => tree := p;
      case ZeroOf(n) => n.zero := p;
      case OneOf(n) => n.one := p;
    }

    /** What is missing at `parent` is exactly that the subtree there becomes `hole`. */
    ghost predicate Expects(parent: Link, hole: Trie, target: Trie)
      reads this, Repr, Owner(parent)
    {
      && Owner(parent) <= Repr
      && Inv(Owner(parent))
      && (match parent
          case Root => hole == target
          case ZeroOf(n) => LinkedNode(n) && n.bitPos != 1 && Sub(tree) == target && n.sub == Built(n, hole, Sub(n.one))
          case OneOf(n) =>
            LinkedNode(n) && n.bitPos != 1 && Sub(tree) == target && n.sub == Built(n, Sub(n.zero), hole))
    }

    /** Hang a new leaf at an empty place. */
    method Attach(parent: Link, nptr: Node, ghost target: Trie)
      requires nptr !in Repr && nptr.up == parent && nptr.bitPos == 1 && nptr.zero == null && nptr.one == null
      requires Finished(nptr) && Expects(parent, nptr.sub, target) && Read(parent) == null
      modifies this, Owner(parent)
      ensures Inv({}) && Sub(tree) == target
      ensures Repr == old(Repr) + {nptr}
    {
      StoreAt(parent, nptr);
      Repr := Repr + {nptr};
      forall n | n in Repr ensures LinkedNode(n) && Finished(n) {
        if n == nptr {
        } else {
          assert old(LinkedNode(n));
          assert n !in Owner(parent) ==> old(Finished(n));
        }
      }
    }

    /** Put a new branch between `parent` and the subtree c; one of its sides stays empty. */
    method Interpose(parent: Link, c: Node, nptr: Node, ghost target: Trie)
      requires nptr !in Repr && nptr.up == parent && nptr.bitPos > 1 && nptr.sub.Branch?
      requires (nptr.zero == c && nptr.one == null) || (nptr.zero == null && nptr.one == c)
      requires Expects(parent, nptr.sub, target) && Read(parent) == c && c !in Owner(parent)
      modifies this, Owner(parent), c`up
      ensures Inv({nptr}) && Sub(tree) == target
      ensures Repr == old(Repr) + {nptr} && c.sub == old(c.sub)
    {
      hide Built;
      assert LinkedNode(c) && c.up == parent;
      c.up := if nptr.zero == c then ZeroOf(nptr) else OneOf(nptr);
      StoreAt(parent, nptr);
      Repr := Repr + {nptr};
      forall n | n in Repr && n != nptr ensures LinkedNode(n) && Finished(n) {
        assert old(LinkedNode(n)) && (n !in Owner(parent) ==> old(Finished(n)));
        assert n.zero != c && n.one != c;
      }
    }

    /** Record in advance what the subtree of n is going to be; n is now the unfinished node. */
    ghost method Announce(parent: Link, n: Node, after: Trie, target: Trie)
      requires Expects(parent, after, target) && Read(parent) == n && n !in Owner(parent)
      modifies n`sub
      ensures n in Repr && Inv({n}) && Sub(tree) == target && n.sub == after
    {
      assert LinkedNode(n);
      n.sub := after;
      forall m | m in Repr ensures LinkedNode(m) && (m != n ==> Finished(m)) {
        assert old(LinkedNode(m));
        assert m !in Owner(parent) ==> old(Finished(m));
      }
    }

    /**
     The state in the middle of add_number: the subtree at `parent` still lacks `number`,
     everything else already looks as if it were there; it may branch from `bitPos` downwards.
     */
    ghost predicate Lacks(parent: Link, number: nat, bitPos: nat, target: Trie)
      reads this, Repr, Owner(parent), Read(parent)
    {
      && Owner(parent) <= Repr
      && number < LIMIT && OneHot(bitPos) && bitPos <= MAX_BITS
      && Wf(Sub(Read(parent)))
      && Expects(parent, Insert(Sub(Read(parent)), number), target)
      && (parent.Root? || bitPos < parent.node.bitPos)
      && (Read(parent) != null ==>
            && Read(parent) in Repr && Read(parent) !in Owner(parent)
            && LinkedNode(Read(parent)) && Finished(Read(parent))
            && BitOf(Read(parent).sub) <= bitPos
            && Prefix(Read(parent).number, bitPos) == Prefix(number, bitPos))
    }

    /** add_number where there is no subtree: create a leaf. */
    method CreateLeaf(parent: Link, number: nat, ghost bitPos: nat, ghost target: Trie)
      requires Lacks(parent, number, bitPos, target) && Read(parent) == null
      modifies this, Owner(parent)
      ensures Inv({}) && Sub(tree) == target
      ensures fresh(Repr - old(Repr))
    {
      LowestBit(number);
      var zeros := if And(number, 1) == 0 then 1 else 0;
      var ones := if And(number, 1) == 1 then 1 else 0;
      var nptr := new Node.Leaf(number, zeros, ones, parent);
      Attach(parent, nptr, target);
    }

    /** The position found by scanning is the one Insert branches on. */
    static lemma InjectChoice(t: Trie, number: nat, bitPos: nat)
      requires Wf(t) && !t.Empty? && number < LIMIT && Differs(t, number)
      requires OneHot(bitPos) && Prefix(number, bitPos) == Prefix(t.number, bitPos)
      requires Bit(number, bitPos) != Bit(t.number, bitPos)
      ensures Insert(t, number) == Inject(t, number, bitPos)
      ensures bitPos > 1 && OneHot(bitPos / 2)
      ensures And(number, bitPos) == 0 <==> !Bit(number, bitPos)
      ensures Insert(Empty, number) == NewLeaf(number)
    {
      AgreeAtTop(number, t.number);
      TopBitUnique(number, t.number, bitPos, TopBit(number, t.number, MAX_BITS));
      InjectPosition(t, number, bitPos, 1, 0, false);
      TestBit(number, bitPos);
    }

    /** What the branch to be injected above c must be, and where it goes. */
    lemma InjectReady(parent: Link, c: Node, number: nat, bitPos: nat, high: nat, target: Trie)
      requires Lacks(parent, number, high, target) && Read(parent) == c && Differs(c.sub, number)
      requires OneHot(bitPos) && bitPos <= high
      requires Prefix(number, bitPos) == Prefix(c.number, bitPos) && Bit(number, bitPos) != Bit(c.number, bitPos)
      ensures c in Repr && Owner(parent) <= Repr && c !in Owner(parent) && number < LIMIT
      ensures bitPos > 1 && OneHot(bitPos / 2) && bitPos <= MAX_BITS && Inject(c.sub, number, bitPos).Branch?
      ensures And(number, bitPos) == 0 <==> !Bit(number, bitPos)
      ensures Expects(parent, Inject(c.sub, number, bitPos), target)
    {
      InjectChoice(c.sub, number, bitPos);
    }

    /** add_number where the subtree c differs from the number: inject a branch above it. */
    method InjectBranch(parent: Link, c: Node, number: nat, bitPos: nat, ghost high: nat, ghost target: Trie)
      returns (next: Link)
      requires Lacks(parent, number, high, target) && Read(parent) == c && Differs(c.sub, number)
      requires OneHot(bitPos) && bitPos <= high
      requires Prefix(number, bitPos) == Prefix(c.number, bitPos) && Bit(number, bitPos) != Bit(c.number, bitPos)
      modifies this, Owner(parent), c`up
      ensures Lacks(next, number, bitPos / 2, target) && Read(next) == null
      ensures fresh(Repr - old(Repr))
    {
      hide Lacks, Expects, Inv, And, Bit, Prefix, Insert, Inject, Wf;
      InjectReady(parent, c, number, bitPos, high, target);
      var nptr2: Node;
      if And(number, bitPos) == 0 {
        nptr2 := new Node.Branch(bitPos, number, null, c, parent, Inject(c.sub, number, bitPos));
        next := ZeroOf(nptr2);
      } else {
        nptr2 := new Node.Branch(bitPos, number, c, null, parent, Inject(c.sub, number, bitPos));
        next := OneOf(nptr2);
      }
      Interpose(parent, c, nptr2, target);
      HoleReady(nptr2, next, c, number, target);
    }

    /** An injected branch has its number's side empty, and waits for it there. */
    lemma HoleReady(n: Node, next: Link, c: Node, number: nat, target: Trie)
      requires n in Repr && Inv({n}) && Sub(tree) == target && number < LIMIT
      requires n.bitPos > 1 && OneHot(n.bitPos / 2) && n.bitPos <= MAX_BITS && n.number == number
      requires n.sub == Inject(c.sub, number, n.bitPos)
      requires if Bit(number, n.bitPos) then next == OneOf(n) && n.zero == c && n.one == null
               else next == ZeroOf(n) && n.zero == null && n.one == c
      ensures Lacks(next, number, n.bitPos / 2, target) && Read(next) == null
    {
      assert Insert(Empty, number) == NewLeaf(number);
    }

    /** The subtree n takes the number in: go down into the side it belongs to. */
    method Descend(parent: Link, n: Node, number: nat, ghost high: nat, ghost target: Trie) returns (next: Link)
      requires Lacks(parent, number, high, target) && Read(parent) == n && !Differs(n.sub, number) && n.bitPos > 1
      modifies n`sub
      ensures Lacks(next, number, n.bitPos / 2, target)
    {
      ghost var was := n.sub;
      TestBit(number, n.bitPos);
      Announce(parent, n, Insert(n.sub, number), target);
      if And(n.bitPos, number) != 0 {
        next := OneOf(n);
      } else {
        next := ZeroOf(n);
      }
      EnterChild(n, next, was, number);
    }

    /** What the child below `next` must satisfy for the descent to continue. */
    lemma EnterChild(n: Node, next: Link, was: Trie, number: nat)
      requires n in Repr && Inv({n}) && n.bitPos > 1 && number < LIMIT
      requires was == Built(n, Sub(n.zero), Sub(n.one)) && Wf(was)
      requires n.sub.Branch? && n.sub.bit == n.bitPos
      requires Prefix(n.number, n.bitPos) == Prefix(number, n.bitPos)
      requires next == if Bit(number, n.bitPos) then OneOf(n) else ZeroOf(n)
      ensures OneHot(n.bitPos / 2) && n.bitPos / 2 <= MAX_BITS && Wf(Sub(Read(next)))
      ensures Read(next) != null ==>
        && Finished(Read(next)) && Read(next) != n
        && BitOf(Read(next).sub) <= n.bitPos / 2
        && Prefix(Read(next).number, n.bitPos / 2) == Prefix(number, n.bitPos / 2)
    {
      var c := Read(next);
      if c != null {
        assert LinkedNode(n) && Finished(c) && LinkedNode(c);
        OneHotOrder(BitOf(c.sub), n.bitPos);
        PrefixExtends(c.number, number, n.bitPos);
      }
    }

    /** The number belongs to the leaf n: count it. */
    method Count(parent: Link, n: Node, number: nat, ghost high: nat, ghost target: Trie)
      requires Lacks(parent, number, high, target) && Read(parent) == n && !Differs(n.sub, number) && n.bitPos == 1
      modifies n`sub, n`countZero, n`countOne
      ensures Inv({}) && Sub(tree) == target
    {
      Announce(parent, n, Insert(n.sub, number), target);
      label A:
      LowestBit(number);
      if And(number, 1) != 0 {
        n.countOne := n.countOne + 1;
      } else {
        n.countZero := n.countZero + 1;
      }
      forall m | m in Repr ensures LinkedNode(m) && Finished(m) {
        if m == n {
        } else {
          assert old@A(LinkedNode(m) && Finished(m));
        }
      }
    }

    /** `*parent` */
    method Load(parent: Link) returns (p: Node?)
      ensures p == Read(parent)
    {
      match parent
      case Root => p := tree;
      case ZeroOf(n) => p := n.zero;
      case OneOf(n) => p := n.one;
    }

    /** The inner loop of add_number: the most significant differing bit, from bitPos downwards. */
    method Scan(bitPos: nat, diff: nat, ghost x: nat, ghost y: nat, ghost low: nat) returns (b: nat)
      requires OneHot(low) && OneHot(bitPos) && low < bitPos && diff == Difference(x, y, low)
      requires Prefix(x, bitPos) == Prefix(y, bitPos) && Prefix(x, low) != Prefix(y, low)
      ensures OneHot(b) && low < b <= bitPos && Prefix(x, b) == Prefix(y, b) && Bit(x, b) != Bit(y, b)
    {
      b := bitPos;
      ScanStep(x, y, low, b);
      while And(b, diff) == 0
        invariant OneHot(b) && low < b <= bitPos && Prefix(x, b) == Prefix(y, b)
        invariant And(b, diff) != 0 ==> Bit(x, b) != Bit(y, b)
        decreases b
      {
        ScanStep(x, y, low, b);
        b := b / 2;
        ScanStep(x, y, low, b);
      }
    }

    /** What the descent knows of the node it has come to. */
    lemma AtNode(parent: Link, nptr: Node, number: nat, bitPos: nat, target: Trie)
      requires Lacks(parent, number, bitPos, target) && Read(parent) == nptr
      ensures number < LIMIT && OneHot(bitPos) && OneHot(nptr.bitPos) && nptr.bitPos <= bitPos
      ensures Prefix(number, bitPos) == Prefix(nptr.number, bitPos)
      ensures Differs(nptr.sub, number) <==> Prefix(number, nptr.bitPos) != Prefix(nptr.number, nptr.bitPos)
      ensures nptr in Repr && Owner(parent) <= Repr
    {}

    /** The body of add_number for an existing subtree: inject above it, go down, or count. */
    method Visit(parent: Link, nptr: Node, number: nat, bitPos: nat, ghost target: Trie)
      returns (next: Link, bitPos': nat)
      requires Lacks(parent, number, bitPos, target) && Read(parent) == nptr
      modifies this, Owner(parent), nptr
      ensures 1 <= bitPos' <= bitPos
      ensures if bitPos' / 2 == 0 then Inv({}) && Sub(tree) == target else Lacks(next, number, bitPos' / 2, target)
      ensures fresh(Repr - old(Repr))
    {
      hide Lacks, Inv, Differs, Prefix, Bit, And, Xor, BitRange, Wf, Finished, LinkedNode;
      AtNode(parent, nptr, number, bitPos, target);
      bitPos', next := bitPos, parent;
      if bitPos > nptr.bitPos {
        var diff := And(BitRange(bitPos, nptr.bitPos), Xor(number, nptr.number));
        MaskedDifference(number, nptr.number, bitPos, nptr.bitPos);
        DifferenceBits(number, nptr.number, nptr.bitPos, 1);
        if diff != 0 {
          bitPos' := Scan(bitPos, diff, number, nptr.number, nptr.bitPos);
          next := InjectBranch(parent, nptr, number, bitPos', bitPos, target);
          return;
        }
        bitPos' := nptr.bitPos;
      }
      if bitPos' > 1 {
        next := Descend(parent, nptr, number, bitPos, target);
      } else {
        Count(parent, nptr, number, bitPos, target);
      }
    }

    /** At the root, with the whole range of bits ahead. */
    lemma Start(number: nat)
      requires Valid() && number < LIMIT
      ensures Wf(Insert(Sub(tree), number)) && Lacks(Root, number, MAX_BITS, Insert(Sub(tree), number))
    {
      InsertWf(Sub(tree), number);
      MaxBitsOneHot();
      if tree != null {
        assert LinkedNode(tree) && Finished(tree);
        AgreeAtTop(number, tree.number);
      }
    }

    lemma Owned(parent: Link, number: nat, bitPos: nat, target: Trie)
      requires Lacks(parent, number, bitPos, target)
      ensures Owner(parent) <= Repr && (Read(parent) != null ==> Read(parent) in Repr)
    {}

    /** add_number: the tree afterwards is the one Insert describes, and the invariant holds. */
    method AddNumber(number: nat)
      requires Valid() && number < LIMIT
      modifies this, Repr
      ensures Valid() && Shape() == Insert(old(Shape()), number)
      ensures fresh(Repr - old(Repr))
    {
      hide Lacks, Inv, Insert, Wf, OneHot;
      ghost var target := Insert(Sub(tree), number);
      Start(number);
      var parent := Root;
      var bitPos: nat := MAX_BITS;
      while bitPos >= 1
        invariant if bitPos == 0 then Inv({}) && Sub(tree) == target else Lacks(parent, number, bitPos, target)
        invariant fresh(Repr - old(Repr))
        decreases bitPos
      {
        Owned(parent, number, bitPos, target);
        var nptr := Load(parent);
        if nptr == null {
          CreateLeaf(parent, number, bitPos, target);
          return;
        }
        parent, bitPos := Visit(parent, nptr, number, bitPos, target);
        bitPos := bitPos / 2;
      }
    }

    // ---------- taking numbers ----------

    /** A set of nodes closed under going up: what lies below other nodes is not in it. */
    ghost predicate UpClosed(fixed: set<Node>)
      reads fixed
    {
      forall n :: n in fixed ==> Owner(n.up) <= fixed
    }

    /** The two loops of take_numbers_2 at a leaf. */
    method TakeLeaf(n: Node, buffer: array<nat>, start: nat, end: nat) returns (p: nat)
      requires start <= end <= buffer.Length
      modifies buffer, n`countZero, n`countOne
      ensures var a := Min(end - start, old(n.countZero));
        var b := Min(end - start - a, old(n.countOne));
        && n.countZero == old(n.countZero) - a && n.countOne == old(n.countOne) - b
        && p == start + a + b
        && buffer[..] == old(buffer[..start]) + Repeat(Even(n.number), a) + Repeat(Odd(n.number), b) + old(buffer[p..])
    {
      p := start;
      while p < end && n.countZero != 0
        invariant start <= p <= end && n.countZero + (p - start) == old(n.countZero)
        invariant n.countOne == old(n.countOne) && n.number == old(n.number)
        invariant forall k :: start <= k < p ==> buffer[k] == Even(n.number)
        invariant forall k :: 0 <= k < buffer.Length && !(start <= k < p) ==> buffer[k] == old(buffer[k])
      {
        buffer[p] := Even(n.number);
        p := p + 1;
        n.countZero := n.countZero - 1;
      }
      ghost var mid := p;
      while p < end && n.countOne != 0
        invariant mid <= p <= end && n.countOne + (p - mid) == old(n.countOne)
        invariant n.countZero == old(n.countZero) - (mid - start) && n.number == old(n.number)
        invariant forall k :: start <= k < mid ==> buffer[k] == Even(n.number)
        invariant forall k :: mid <= k < p ==> buffer[k] == Odd(n.number)
        invariant forall k :: 0 <= k < buffer.Length && !(start <= k < p) ==> buffer[k] == old(buffer[k])
      {
        buffer[p] := Odd(n.number);
        p := p + 1;
        n.countOne := n.countOne - 1;
      }
      LeafSlices(old(buffer[..]), buffer[..], n.number, start, mid, p);
    }

    lemma LeafSlices(was: seq<nat>, now: seq<nat>, number: nat, start: nat, mid: nat, p: nat)
      requires start <= mid <= p <= |was| == |now|
      requires forall k :: start <= k < mid ==> now[k] == Even(number)
      requires forall k :: mid <= k < p ==> now[k] == Odd(number)
      requires forall k :: 0 <= k < |was| && !(start <= k < p) ==> now[k] == was[k]
      ensures now == was[..start] + Repeat(Even(number), mid - start) + Repeat(Odd(number), p - mid) + was[p..]
    {
      hide Even, Odd;
    }

    /** Unlink and release a node that has become empty. */
    method Remove(parent: Link, n: Node, ghost open: set<Node>)
      requires open <= Repr && Owner(parent) <= open && n !in open && n in Repr && Read(parent) == n
      requires Inv(open + {n}) && n.zero == null && n.one == null
      modifies this, ZeroOwner(parent)`zero, OneOwner(parent)`one
      ensures Repr == old(Repr) - {n} && Inv(open) && Read(parent) == null
      ensures parent.Root? || tree == old(tree)
    {
      assert LinkedNode(n) && (parent.Root? || LinkedNode(parent.node));
      StoreAt(parent, null);
      Repr := Repr - {n};
      forall m | m in Repr ensures LinkedNode(m) && (m !in open ==> Finished(m)) {
        assert old(LinkedNode(m));
        assert m !in open ==> old(Finished(m));
      }
    }

    /** Record what is left below n. */
    ghost method Close(parent: Link, n: Node, open: set<Node>)
      requires open <= Repr && Owner(parent) <= open && n !in open && n in Repr && Read(parent) == n
      requires Inv(open + {n})
      modifies n`sub
      ensures Inv(open) && n.sub == Built(n, Sub(n.zero), Sub(n.one))
    {
      assert LinkedNode(n) && (parent.Root? || LinkedNode(parent.node));
      n.sub := Built(n, Sub(n.zero), Sub(n.one));
      forall m | m in Repr ensures LinkedNode(m) && (m !in open ==> Finished(m)) {
        assert old(LinkedNode(m));
        assert m !in open && m != n ==> old(Finished(m));
      }
    }

    /** What is asked of a call of take_numbers_2: the nodes of `fixed` are not to be touched. */
    ghost predicate MayTake(parent: Link, open: set<Node>, fixed: set<Node>)
      reads this, Repr, fixed, Owner(parent), Read(parent)
    {
      && Owner(parent) <= open <= fixed <= Repr && UpClosed(fixed) && Inv(open)
      && (forall n :: n in Owner(parent) ==> LinkedNode(n))
      && (Read(parent) != null ==>
            && Read(parent) in Repr && Read(parent) !in fixed
            && LinkedNode(Read(parent)) && Finished(Read(parent)))
      && Wf(Sub(Read(parent)))
    }

    /** The slice of the buffer from `start` now starts with the first numbers of l that fit. */
    ghost predicate Filled(before: seq<nat>, after: seq<nat>, l: seq<nat>, start: nat, end: nat, p: nat) {
      && start <= end <= |before| && p == start + Min(end - start, |l|)
      && after == before[..start] + l[..p - start] + before[p..]
    }

    lemma FilledTwice(b0: seq<nat>, b1: seq<nat>, b2: seq<nat>, l: seq<nat>, m: seq<nat>,
                      start: nat, end: nat, q: nat, p: nat)
      requires Filled(b0, b1, l, start, end, q) && Filled(b1, b2, m, q, end, p)
      ensures Filled(b0, b2, l + m, start, end, p)
    {
      assert b2[..q] == b0[..start] + l[..q - start];
      assert (l + m)[..p - start] == l[..q - start] + m[..p - q];
    }

    lemma LeafFilled(t: Trie, before: seq<nat>, after: seq<nat>, start: nat, end: nat, p: nat, a: nat, b: nat)
      requires t.Leaf? && start < end <= |before|
      requires a == Min(end - start, t.zeros) && b == Min(end - start - a, t.ones) && p == start + a + b
      requires after == before[..start] + Repeat(Even(t.number), a) + Repeat(Odd(t.number), b) + before[p..]
      ensures Filled(before, after, Listing(t), start, end, p)
      ensures Rest(t, end - start) ==
        if t.zeros == a && t.ones == b then Empty else Leaf(t.number, t.zeros - a, t.ones - b)
    {
      assert Listing(t)[..a + b] == Repeat(Even(t.number), a) + Repeat(Odd(t.number), b);
    }

    method TakeAtLeaf(parent: Link, nptr: Node, buffer: array<nat>, start: nat, end: nat,
                      ghost open: set<Node>, ghost fixed: set<Node>)
      returns (p: nat)
      requires MayTake(parent, open, fixed) && Read(parent) == nptr && nptr.bitPos == 1 && start < end <= buffer.Length
      modifies this, Repr - fixed, ZeroOwner(parent)`zero, OneOwner(parent)`one, buffer
      ensures fixed <= Repr <= old(Repr) && Inv(open)
      ensures Sub(Read(parent)) == old(Rest(Sub(Read(parent)), end - start))
      ensures Sub(Read(parent)).Empty? <==> Read(parent) == null
      ensures parent.Root? || tree == old(tree)
      ensures Filled(old(buffer[..]), buffer[..], old(Listing(Sub(Read(parent)))), start, end, p)
    {
      ghost var t := nptr.sub;
      p := TakeLeaf(nptr, buffer, start, end);
      LeafFilled(t, old(buffer[..]), buffer[..], start, end, p, t.zeros - nptr.countZero, t.ones - nptr.countOne);
      forall m | m in Repr ensures LinkedNode(m) && (m !in open + {nptr} ==> Finished(m)) {
        assert old(LinkedNode(m));
        assert m !in open ==> old(Finished(m));
      }
      if nptr.countZero == 0 && nptr.countOne == 0 {
        Remove(parent, nptr, open);
      } else {
        Close(parent, nptr, open);
      }
    }

    /** The other side of a branch. */
    ghost function Sibling(link: Link): Node?
      requires !link.Root?
      reads link.node
    {
      if link.ZeroOf? then link.node.one else link.node.zero
    }

    /** One of the two recursive calls of take_numbers_2 at a branch: the other side stays as it is. */
    method TakeSide(n: Node, link: Link, buffer: array<nat>, start: nat, end: nat,
                    ghost open: set<Node>, ghost fixed: set<Node>)
      returns (p: nat)
      requires link == ZeroOf(n) || link == OneOf(n)
      requires open <= fixed <= Repr && UpClosed(fixed) && Inv(open + {n})
      requires n in Repr && n !in fixed && Owner(n.up) <= fixed
      requires n.zero != n && n.one != n && Wf(Sub(Read(link))) && start <= end <= buffer.Length
      modifies this, Repr - fixed, buffer
      ensures fixed + {n} <= Repr <= old(Repr) && Inv(open + {n}) && tree == old(tree)
      ensures n.sub == old(n.sub) && n.bitPos == old(n.bitPos) && n.number == old(n.number) && n.up == old(n.up)
      ensures Sibling(link) == old(Sibling(link)) && Sub(Sibling(link)) == old(Sub(Sibling(link)))
      ensures Sub(Read(link)) == old(Rest(Sub(Read(link)), end - start))
      ensures Sub(Read(link)).Empty? <==> Read(link) == null
      ensures Filled(old(buffer[..]), buffer[..], old(Listing(Sub(Read(link)))), start, end, p)
      decreases Sub(Read(link)), 3
    {
      ghost var sibling := Sibling(link);
      ghost var keep := fixed + {n} + if sibling == null then {} else {sibling};
      assert LinkedNode(n) && (Read(link) != null ==> LinkedNode(Read(link)) && Finished(Read(link)));
      p := TakeNumbers2(link, buffer, start, end, open + {n}, keep);
    }

    /** What a branch gives its two sides. */
    lemma SidesReady(parent: Link, n: Node, open: set<Node>, fixed: set<Node>)
      requires MayTake(parent, open, fixed) && Read(parent) == n && n.bitPos != 1
      ensures open <= fixed <= Repr && UpClosed(fixed) && Inv(open + {n})
      ensures n in Repr && n !in fixed && Owner(n.up) <= fixed
      ensures n.sub.Branch? && Wf(n.sub.zero) && Wf(n.sub.one)
      ensures Listing(n.sub) == Listing(n.sub.zero) + Listing(n.sub.one)
      ensures Sub(n) == n.sub && Sub(n.zero) == n.sub.zero != n.sub && Sub(n.one) == n.sub.one != n.sub
      ensures (Sub(n.zero).Empty? <==> n.zero == null) && (Sub(n.one).Empty? <==> n.one == null)
    {
      assert n.zero != null ==> LinkedNode(n) && Finished(n.zero);
      assert n.one != null ==> LinkedNode(n) && Finished(n.one);
    }

    lemma NotOwnChild(n: Node, open: set<Node>, fixed: set<Node>)
      requires Inv(open) && n in Repr && n !in fixed && Owner(n.up) <= fixed
      ensures n.zero != n && n.one != n
    {
      assert LinkedNode(n);
    }

    lemma FilledUpTo(b0: seq<nat>, b1: seq<nat>, l: seq<nat>, start: nat, end: nat, p: nat)
      requires Filled(b0, b1, l, start, end, p)
      ensures start <= p <= end && p == start + Min(end - start, |l|) && |b1| == |b0|
    {}

    /** The two recursive calls of take_numbers_2 at a branch. */
    method TakeSides(parent: Link, n: Node, buffer: array<nat>, start: nat, end: nat,
                     ghost open: set<Node>, ghost fixed: set<Node>)
      returns (p: nat)
      requires MayTake(parent, open, fixed) && Read(parent) == n && n.bitPos != 1 && start < end <= buffer.Length
      modifies this, Repr - fixed, buffer
      ensures fixed + {n} <= Repr <= old(Repr) && Inv(open + {n}) && tree == old(tree)
      ensures n.sub == old(n.sub) && n.bitPos == old(n.bitPos) && n.number == old(n.number)
      ensures (Sub(n.zero).Empty? <==> n.zero == null) && (Sub(n.one).Empty? <==> n.one == null)
      ensures Sub(n.zero) == Rest(n.sub.zero, end - start)
      ensures Sub(n.one) == Rest(n.sub.one, (end - start) - Min(end - start, |Listing(n.sub.zero)|))
      ensures Filled(old(buffer[..]), buffer[..], Listing(n.sub), start, end, p)
      decreases n.sub, 0
    {
      hide MayTake, Inv, Listing, Rest, Wf, Filled;
      ghost var t := n.sub;
      SidesReady(parent, n, open, fixed);
      p := TakeSide(n, ZeroOf(n), buffer, start, end, open, fixed);
      ghost var b1, q := buffer[..], p;
      FilledUpTo(old(buffer[..]), b1, Listing(t.zero), start, end, q);
      assert end - p == (end - start) - Min(end - start, |Listing(t.zero)|);
      NotOwnChild(n, open + {n}, fixed);
      p := TakeSide(n, OneOf(n), buffer, p, end, open, fixed);
      FilledTwice(old(buffer[..]), b1, buffer[..], Listing(t.zero), Listing(t.one), start, end, q, p);
    }

    method TakeAtBranch(parent: Link, nptr: Node, buffer: array<nat>, start: nat, end: nat,
                        ghost open: set<Node>, ghost fixed: set<Node>)
      returns (p: nat)
      requires MayTake(parent, open, fixed) && Read(parent) == nptr && nptr.bitPos != 1 && start < end <= buffer.Length
      modifies this, Repr - fixed, ZeroOwner(parent)`zero, OneOwner(parent)`one, buffer
      ensures fixed <= Repr <= old(Repr) && Inv(open)
      ensures Sub(Read(parent)) == old(Rest(Sub(Read(parent)), end - start))
      ensures Sub(Read(parent)).Empty? <==> Read(parent) == null
      ensures parent.Root? || tree == old(tree)
      ensures Filled(old(buffer[..]), buffer[..], old(Listing(Sub(Read(parent)))), start, end, p)
      decreases nptr.sub, 1
    {
      ghost var t := nptr.sub;
      p := TakeSides(parent, nptr, buffer, start, end, open, fixed);
      RestOfBranch(t, end - start, Sub(nptr.zero), Sub(nptr.one));
      if nptr.zero == null && nptr.one == null {
        Remove(parent, nptr, open);
      } else {
        Close(parent, nptr, open);
      }
    }

    method TakeNumbers2(parent: Link, buffer: array<nat>, start: nat, end: nat,
                        ghost open: set<Node>, ghost fixed: set<Node>)
      returns (p: nat)
      requires MayTake(parent, open, fixed) && start <= end <= buffer.Length
      modifies this, Repr - fixed, ZeroOwner(parent)`zero, OneOwner(parent)`one, buffer
      ensures fixed <= Repr <= old(Repr) && Inv(open)
      ensures Sub(Read(parent)) == old(Rest(Sub(Read(parent)), end - start))
      ensures Sub(Read(parent)).Empty? <==> Read(parent) == null
      ensures parent.Root? || tree == old(tree)
      ensures Filled(old(buffer[..]), buffer[..], old(Listing(Sub(Read(parent)))), start, end, p)
      decreases Sub(Read(parent)), 2
    {
      p := start;
      if start < end {
        var nptr := Load(parent);
        if nptr != null {
          if nptr.bitPos == 1 {
            p := TakeAtLeaf(parent, nptr, buffer, start, end, open, fixed);
          } else {
            p := TakeAtBranch(parent, nptr, buffer, start, end, open, fixed);
          }
        }
      }
    }

    /** take_numbers: the smallest numbers, in ascending order; the others stay. */
    method TakeNumbers(buffer: array<nat>, maxNums: nat) returns (taken: nat)
      requires Valid() && maxNums <= buffer.Length
      modifies this, Repr, buffer
      ensures Valid() && Repr <= old(Repr)
      ensures Shape() == Rest(old(Shape()), maxNums)
      ensures taken == Min(maxNums, |old(Listing(Shape()))|)
      ensures buffer[..] == old(Listing(Shape()))[..taken] + old(buffer[taken..])
      ensures Listing(Shape()) == old(Listing(Shape()))[taken..]
    {
      hide MayTake, Inv, Rest, Listing, Wf;
      ReadyToTake(maxNums);
      ghost var all, was := Listing(Sub(tree)), buffer[..];
      var end := TakeNumbers2(Root, buffer, 0, maxNums, {}, {});
      taken := end;
      assert buffer[..] == all[..end] + was[end..];
    }

    /** Before any call at the root: nothing is open, nothing is fixed. */
    lemma ReadyToTake(k: nat)
      requires Valid()
      ensures MayTake(Root, {}, {}) && Wf(Rest(Sub(tree), k))
      ensures Listing(Rest(Sub(tree), k)) == Listing(Sub(tree))[Min(k, |Listing(Sub(tree))|)..]
    {
      hide Wf, Rest, Listing;
      RestListing(Sub(tree), k);
      RestWf(Sub(tree), k);
      if tree != null { assert LinkedNode(tree) && Finished(tree); }
    }

    // ---------- releasing the tree ----------

    /** The nodes below n and n itself, in the order in which release_tree gives them back. */
    ghost function Below(n: Node?): seq<Node>
      requires Inv({}) && (n != null ==> n in Repr)
      reads this, Repr
      decreases if n == null then Empty else n.sub
    {
      if n == null then [] else
        assert LinkedNode(n) && Finished(n);
        (if n.bitPos == 1 then [] else Below(n.zero) + Below(n.one)) + [n]
    }

    /** x is given back by the call for n: it is n or lies on one side of it. */
    lemma BelowCases(n: Node, x: Node)
      requires Inv({}) && n in Repr && x in Below(n)
      ensures LinkedNode(n) && Finished(n)
      ensures x == n || (n.bitPos != 1 && (x in Below(n.zero) || x in Below(n.one)))
    {
      assert LinkedNode(n) && Finished(n);
    }

    lemma {:induction false} BelowSmaller(n: Node, x: Node)
      requires Inv({}) && n in Repr && x in Below(n)
      ensures x in Repr && Nodes(x.sub) <= Nodes(n.sub)
      decreases n.sub
    {
      BelowCases(n, x);
      if x != n {
        if x in Below(n.zero) { BelowSmaller(n.zero, x); } else { BelowSmaller(n.one, x); }
      }
    }

    /** What points to a node below n is below n too. */
    lemma {:induction false} BelowGoesUp(n: Node, x: Node)
      requires Inv({}) && n in Repr && x in Below(n) && x != n
      ensures !x.up.Root? && x.up.node in Below(n) && x.up.node in Repr && Nodes(x.sub) < Nodes(x.up.node.sub)
      decreases n.sub
    {
      BelowCases(n, x);
      var side := if x in Below(n.zero) then n.zero else n.one;
      assert Below(n)[|Below(n)| - 1] == n;
      if x != side { BelowGoesUp(side, x); }
      BelowSmaller(n, x);
      assert LinkedNode(x) && LinkedNode(x.up.node) && Finished(x.up.node);
    }

    /** Nothing is below both sides of a node. */
    lemma {:induction false} SidesDisjoint(n: Node, x: Node)
      requires Inv({}) && n in Repr && n.bitPos != 1 && n.zero != null && n.one != null
      requires n.zero in Repr && n.one in Repr && x in Below(n.zero) && x in Below(n.one)
      ensures false
      decreases Nodes(n.sub) - Nodes(x.sub)
    {
      assert LinkedNode(n) && Finished(n);
      BelowSmaller(n.zero, x);
      BelowSmaller(n.one, x);
      if x == n.zero {
        BelowGoesUp(n.one, x);
        BelowSmaller(n.one, n);
      } else if x == n.one {
        BelowGoesUp(n.zero, x);
        BelowSmaller(n.zero, n);
      } else {
        BelowGoesUp(n.zero, x);
        BelowGoesUp(n.one, x);
        SidesDisjoint(n, x.up.node);
      }
    }

    lemma NotBelowItself(n: Node)
      requires Inv({}) && n in Repr && n.bitPos != 1
      ensures LinkedNode(n) && Finished(n) && n !in Below(n.zero) && n !in Below(n.one)
    {
      assert LinkedNode(n) && Finished(n);
      if n in Below(n.zero) { BelowSmaller(n.zero, n); }
      if n in Below(n.one) { BelowSmaller(n.one, n); }
    }

    /** The node and its two sides are apart from each other, and from whatever all of them are apart from. */
    lemma SidesApart(n: Node, gone: seq<Node>)
      requires Inv({}) && n in Repr && Apart(Below(n), gone)
      ensures LinkedNode(n) && Finished(n) && n !in gone
      ensures Below(n) == (if n.bitPos == 1 then [] else Below(n.zero) + Below(n.one)) + [n]
      ensures n.bitPos != 1 ==>
        && Apart(Below(n.zero), gone) && Apart(Below(n.one), gone + Below(n.zero))
        && n !in gone + Below(n.zero) && n !in gone + Below(n.zero) + Below(n.one)
    {
      assert LinkedNode(n) && Finished(n);
      assert Below(n)[|Below(n)| - 1] == n;
      if n.bitPos != 1 {
        NotBelowItself(n);
        forall x | x in Below(n.one) ensures x !in gone + Below(n.zero) {
          if x in Below(n.zero) { SidesDisjoint(n, x); }
        }
      }
    }

    /**
     release_tree. What has been given back is gone: no field of it is read any more, and it is
     not given back again.
     */
    method ReleaseTree(n: Node?, ghost gone: seq<Node>) returns (released: seq<Node>)
      requires Inv({}) && (n != null ==> n in Repr) && Wf(Sub(n)) && Apart(Below(n), gone)
      ensures released == Below(n)
      decreases if n == null then Empty else n.sub
    {
      released := [];
      if n != null {
        SidesApart(n, gone);
        hide Apart;
        assert n !in gone;
        if n.bitPos > 1 {
          var zeros := ReleaseTree(n.zero, gone);
          assert n !in gone + zeros;
          var ones := ReleaseTree(n.one, gone + zeros);
          released := zeros + ones;
          assert n !in gone + zeros + ones;
        }
        released := released + [n];
      }
    }

    lemma {:induction false} BelowOnce(n: Node?, i: nat, j: nat)
      requires Inv({}) && (n != null ==> n in Repr) && i < j < |Below(n)|
      ensures Below(n)[i] != Below(n)[j]
      decreases if n == null then Empty else n.sub
    {
      assert LinkedNode(n) && Finished(n);
      var zeros, ones := Below(n.zero), Below(n.one);
      var x, y := Below(n)[i], Below(n)[j];
      if j == |Below(n)| - 1 {
        if i < |zeros| { BelowSmaller(n.zero, x); } else { BelowSmaller(n.one, x); }
      } else if j < |zeros| {
        BelowOnce(n.zero, i, j);
      } else if i >= |zeros| {
        BelowOnce(n.one, i - |zeros|, j - |zeros|);
      } else if x == y {
        assert x in zeros && x in ones;
        SidesDisjoint(n, x);
      }
    }

    lemma {:induction false} ChildBelow(n: Node, m: Node, c: Node)
      requires Inv({}) && n in Repr && m in Below(n) && m in Repr && c in Repr && c.up in {ZeroOf(m), OneOf(m)}
      ensures c in Below(n)
      decreases n.sub
    {
      assert LinkedNode(c) && LinkedNode(m) && Finished(m);
      BelowCases(n, m);
      if m == n {
        assert c == n.zero || c == n.one;
        assert Below(c)[|Below(c)| - 1] == c;
      } else {
        ChildBelow(if m in Below(n.zero) then n.zero else n.one, m, c);
      }
    }

    ghost function Larger(k: nat): set<Node>
      reads this, Repr
    {
      set m | m in Repr && Nodes(m.sub) > k
    }

    /** Every node of the tree can be reached from its root. */
    lemma {:induction false} AllBelow(x: Node)
      requires Inv({}) && x in Repr
      ensures tree != null && tree in Repr && x in Below(tree)
      decreases Larger(Nodes(x.sub))
    {
      assert LinkedNode(x);
      if x.up.Root? {
        assert Below(x)[|Below(x)| - 1] == x;
        assert tree == x;
      } else {
        var m := x.up.node;
        assert LinkedNode(m) && Finished(m);
        assert Nodes(m.sub) > Nodes(x.sub);
        assert m in Larger(Nodes(x.sub)) && m !in Larger(Nodes(m.sub));
        AllBelow(m);
        ChildBelow(tree, m, x);
      }
    }

    /** A child comes before its parent. */
    lemma {:induction false} ChildComesFirst(n: Node, i: nat, j: nat)
      requires Inv({}) && n in Repr && i < |Below(n)| && j < |Below(n)|
      requires IsChild(Below(n)[i], Below(n)[j])
      ensures i < j
      decreases n.sub
    {
      assert LinkedNode(n) && Finished(n);
      var zeros, ones := Below(n.zero), Below(n.one);
      var c, m := Below(n)[i], Below(n)[j];
      BelowSmaller(n, m);
      assert LinkedNode(m) && Finished(m) && c != m;
      if j == |Below(n)| - 1 {
      } else if j < |zeros| {
        var k := IndexOfChild(n.zero, m, c);
        SameIndex(n, i, k);
        ChildComesFirst(n.zero, i, j);
      } else {
        var k := IndexOfChild(n.one, m, c);
        SameIndex(n, i, |zeros| + k);
        ChildComesFirst(n.one, i - |zeros|, j - |zeros|);
      }
    }

    lemma IndexOfChild(n: Node, m: Node, c: Node) returns (k: nat)
      requires Inv({}) && n in Repr && m in Repr && m in Below(n) && IsChild(c, m)
      ensures k < |Below(n)| && Below(n)[k] == c
    {
      assert LinkedNode(m) && Finished(m);
      ChildBelow(n, m, c);
      k :| k < |Below(n)| && Below(n)[k] == c;
    }

    lemma SameIndex(n: Node, i: nat, k: nat)
      requires Inv({}) && n in Repr && i < |Below(n)| && k < |Below(n)| && Below(n)[i] == Below(n)[k]
      ensures i == k
    {
      if i < k { BelowOnce(n, i, k); } else if k < i { BelowOnce(n, k, i); }
    }

    /** release_tree gives back every node of the tree exactly once, children before their parents. */
    lemma ReleasesEachOnce()
      requires Valid()
      ensures forall i, j :: 0 <= i < j < |Below(tree)| ==> Below(tree)[i] != Below(tree)[j]
      ensures forall x :: x in Below(tree) <==> x in Repr
      ensures ChildrenFirst(Below(tree))
    {
      forall i, j | 0 <= i < |Below(tree)| && 0 <= j < |Below(tree)| && IsChild(Below(tree)[i], Below(tree)[j])
        ensures i < j
      {
        ChildComesFirst(tree, i, j);
      }
      forall i, j | 0 <= i < j < |Below(tree)| ensures Below(tree)[i] != Below(tree)[j] {
        BelowOnce(tree, i, j);
      }
      forall x | x in Below(tree) ensures x in Repr { BelowSmaller(tree, x); }
      forall x | x in Repr ensures x in Below(tree) { AllBelow(x); }
    }
  }
}
