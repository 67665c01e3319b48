/**
 The nearest-neighbour search of Assignment1/src-2: a balanced k-d tree with a pruned search
 (coord_query_kdtree.c) against the linear scan (coord_query_naive.c). Coordinates are reals.
 */
module KdTree {
  import opened Basics
  import opened BitMasks

  datatype Record = Record(id: int, lon: real, lat: real)

  /** A tree is never changed once it is built. */
  datatype Tree = Null | Node(rs: Record, axis: nat, left: Tree, right: Tree)

  /** DBL_MAX and 1e308: the distances the two searches start from. */
  const DBL_MAX: real := 179769313486231570814527423731704356798070567525844996598917476803157260780028538760589558632766878171540458953514382464234321326889464182768467546703537516986049910576551282076245490090389328944075868508455133942304583236903222948165808559332123348274797826204144723168738177180919299881250404026184124858368.0
  const NAIVE_MAX: real := 100000000000000000000000000000000000000000000000000000000000000000000000000000000000000000000000000000000000000000000000000000000000000000000000000000000000000000000000000000000000000000000000000000000000000000000000000000000000000000000000000000000000000000000000000000000000000000000000000000000000000000000.0

  /** 1e154, whose square is 1e308. */
  const FAR: real := 10000000000000000000000000000000000000000000000000000000000000000000000000000000000000000000000000000000000000000000000000000000000000000000000000000000000.0

  function Key(r: Record, axis: nat): real { if axis == 0 then r.lon else r.lat }

  /** euclidian_distance: the squared distance of a record from the query point. */
  function Distance(r: Record, lon: real, lat: real): real {
    (r.lon - lon) * (r.lon - lon) + (r.lat - lat) * (r.lat - lat)
  }

  /** A step of d along either axis costs d * d. */
  lemma DistanceAlongAxes(id: int, a: real, b: real, d: real)
    ensures Distance(Record(id, a + d, b), a, b) == d * d
    ensures Distance(Record(id, a, b + d), a, b) == d * d
  {
    assert a + d - a == d && b + d - b == d && a - a == 0.0 && b - b == 0.0;
  }

  /** Pythagoras: the squared distance is the sum of those to the two projections. */
  lemma DistancePythagoras(r: Record, lon: real, lat: real)
    ensures Distance(r, lon, lat)
      == Distance(Record(r.id, r.lon, lat), lon, lat) + Distance(Record(r.id, lon, r.lat), lon, lat)
  {
    assert lat - lat == 0.0 && lon - lon == 0.0;
  }

  ghost function Records(t: Tree): multiset<Record> {
    if t.Null? then multiset{} else multiset{t.rs} + Records(t.left) + Records(t.right)
  }

  ghost predicate NoneAbove(rs: multiset<Record>, pivot: Record, axis: nat) {
    forall r :: r in rs ==> Key(r, axis) <= Key(pivot, axis)
  }

  ghost predicate NoneBelow(rs: multiset<Record>, pivot: Record, axis: nat) {
    forall r :: r in rs ==> Key(pivot, axis) <= Key(r, axis)
  }

  /** Equal keys may stand on either side of a split. */
  ghost predicate Ordered(t: Tree, depth: nat) {
    t.Node? ==>
      && t.axis == depth % 2
      && NoneAbove(Records(t.left), t.rs, t.axis) && NoneBelow(Records(t.right), t.rs, t.axis)
      && Ordered(t.left, depth + 1) && Ordered(t.right, depth + 1)
  }

  function Height(t: Tree): nat {
    if t.Null? then 0 else 1 + if Height(t.left) >= Height(t.right) then Height(t.left) else Height(t.right)
  }

  function Size(t: Tree): nat { if t.Null? then 0 else 1 + Size(t.left) + Size(t.right) }

  /** Each node is the median of its subtree. */
  ghost predicate Halved(t: Tree) {
    t.Node? ==> Size(t.left) == Size(t) / 2 && Halved(t.left) && Halved(t.right)
  }

  // ---------- qsort ----------

  ghost predicate SortedBy(s: seq<Record>, axis: nat) {
    forall i, j :: 0 <= i < j < |s| ==> Key(s[i], axis) <= Key(s[j], axis)
  }

  /** The contract of qsort with cmp_lon or cmp_lat; it need not be stable. */
  ghost predicate Sorts(qsort: (seq<Record>, nat) -> seq<Record>) {
    forall s, axis :: SortedBy(qsort(s, axis), axis) && multiset(qsort(s, axis)) == multiset(s)
  }

  function InsertByKey(s: seq<Record>, x: Record, axis: nat): seq<Record> {
    if s == [] || Key(x, axis) <= Key(s[0], axis) then [x] + s else [s[0]] + InsertByKey(s[1..], x, axis)
  }

  function InsertionSort(s: seq<Record>, axis: nat): seq<Record> {
    if s == [] then [] else InsertByKey(InsertionSort(s[1..], axis), s[0], axis)
  }

  lemma {:induction false} InsertByKeySorts(s: seq<Record>, x: Record, axis: nat)
    requires SortedBy(s, axis)
    ensures var r := InsertByKey(s, x, axis);
      && SortedBy(r, axis) && multiset(r) == multiset(s) + multiset{x}
      && r != [] && (r[0] == x || (s != [] && r[0] == s[0]))
  {
    if s != [] && Key(x, axis) > Key(s[0], axis) {
      InsertByKeySorts(s[1..], x, axis);
      assert s == [s[0]] + s[1..];
    }
  }

  lemma {:induction false} InsertionSortSorts(s: seq<Record>, axis: nat)
    ensures SortedBy(InsertionSort(s, axis), axis) && multiset(InsertionSort(s, axis)) == multiset(s)
  {
    if s != [] {
      InsertionSortSorts(s[1..], axis);
      InsertByKeySorts(InsertionSort(s[1..], axis), s[0], axis);
      assert s == [s[0]] + s[1..];
    }
  }

  /** Such a sort exists, so what follows holds of something. */
  lemma SortExists()
    ensures Sorts(InsertionSort)
  {
    forall s: seq<Record>, axis: nat
      ensures SortedBy(InsertionSort(s, axis), axis) && multiset(InsertionSort(s, axis)) == multiset(s)
    {
      InsertionSortSorts(s, axis);
    }
  }

  // ---------- build_kdtree ----------

  /** The height of a balanced tree: floor(log2 n) + 1. */
  ghost predicate BalancedHeight(h: nat, n: nat) {
    if n == 0 then h == 0 else h >= 1 && Power2(h - 1) <= n < Power2(h)
  }

  lemma {:induction false} Power2Grows(a: nat, b: nat)
    requires a <= b
    ensures Power2(a) <= Power2(b) && (a < b ==> 2 * Power2(a) <= Power2(b))
  {
    if a < b { Power2Grows(a, b - 1); }
  }

  lemma HeightOfHalves(n: nat, hl: nat, hr: nat)
    requires n >= 1 && BalancedHeight(hl, n / 2) && BalancedHeight(hr, n - n / 2 - 1)
    ensures hr <= hl && BalancedHeight(1 + hl, n)
  {
    if hr > hl { Power2Grows(hl, hr - 1); }
    assert Power2(1 + hl) == 2 * Power2(hl);
  }

  /** A tree that is halved everywhere is as low as a binary tree of its size can be. */
  lemma {:induction false} HalvedIsBalanced(t: Tree)
    requires Halved(t)
    ensures BalancedHeight(Height(t), Size(t))
  {
    if t.Node? {
      HalvedIsBalanced(t.left);
      HalvedIsBalanced(t.right);
      HeightOfHalves(Size(t), Height(t.left), Height(t.right));
    }
  }

  /** What splitting a sorted slice at its median gives the two sides. */
  lemma MedianSplits(s: seq<Record>, m: nat, axis: nat)
    requires SortedBy(s, axis) && m < |s|
    ensures multiset(s) == multiset(s[..m]) + multiset{s[m]} + multiset(s[m + 1..])
    ensures NoneAbove(multiset(s[..m]), s[m], axis) && NoneBelow(multiset(s[m + 1..]), s[m], axis)
  {
    assert s == s[..m] + [s[m]] + s[m + 1..];
  }

  /** Outside the slice of n records from `first` nothing has changed. */
  ghost predicate SameOutside(was: seq<Record>, now: seq<Record>, first: nat, n: nat) {
    |was| == |now| && forall i :: 0 <= i < |was| && !(first <= i < first + n) ==> now[i] == was[i]
  }

  /** The call of qsort on a slice of the array. */
  method SortSlice(points: array<Record>, first: nat, n: nat, axis: nat, qsort: (seq<Record>, nat) -> seq<Record>)
    requires first + n <= points.Length && Sorts(qsort)
    modifies points
    ensures SameOutside(old(points[..]), points[..], first, n)
    ensures SortedBy(points[first..first + n], axis)
    ensures multiset(points[first..first + n]) == old(multiset(points[first..first + n]))
  {
    ghost var slice := points[first..first + n];
    var sorted := qsort(points[first..first + n], axis);
    assert |multiset(sorted)| == |multiset(slice)|;
    forall i | 0 <= i < n { points[first + i] := sorted[i]; }
    assert points[first..first + n] == sorted;
  }

  /** build_kdtree on the n records from `first`: sort, split at the median, recurse. */
  method BuildKdTree(points: array<Record>, first: nat, n: nat, depth: nat, qsort: (seq<Record>, nat) -> seq<Record>)
    returns (t: Tree)
    requires first + n <= points.Length && Sorts(qsort)
    modifies points
    ensures SameOutside(old(points[..]), points[..], first, n)
    ensures Records(t) == old(multiset(points[first..first + n]))
    ensures Ordered(t, depth) && Halved(t) && Size(t) == n
    decreases n
  {
    hide SortedBy, Sorts, Ordered, Records, Halved, Size, SameOutside;
    if n == 0 {
      NullTree(depth);
      EmptySlice(points[..], first);
      return Null;
    }
    var axis := depth % 2;
    SortSlice(points, first, n, axis, qsort);
    ghost var sorted := points[first..first + n];
    var median := n / 2;
    var node := points[first + median];
    ghost var s1 := points[..];
    var left := BuildKdTree(points, first, median, depth + 1, qsort);
    ghost var s2 := points[..];
    var right := BuildKdTree(points, first + median + 1, n - median - 1, depth + 1, qsort);
    SplitSlice(old(points[..]), s1, s2, points[..], first, n, median);
    Assembles(sorted, median, depth, left, right);
    AssemblesHalved(n, node, axis, left, right);
    t := Node(node, axis, left, right);
  }

  lemma EmptySlice(points: seq<Record>, first: nat)
    requires first <= |points|
    ensures SameOutside(points, points, first, 0) && multiset(points[first..first]) == multiset{}
  {}

  /** Sorting a slice and then working on the parts below and above its element m. */
  lemma SplitSlice(s0: seq<Record>, s1: seq<Record>, s2: seq<Record>, s3: seq<Record>, first: nat, n: nat, m: nat)
    requires first + n <= |s0| && m < n
    requires SameOutside(s0, s1, first, n) && SameOutside(s1, s2, first, m)
    requires SameOutside(s2, s3, first + m + 1, n - m - 1)
    ensures SameOutside(s0, s3, first, n)
    ensures var slice := s1[first..first + n];
      && |slice| == n && s1[first + m] == slice[m] && s1[first..first + m] == slice[..m]
      && s2[first + m + 1..first + m + 1 + (n - m - 1)] == slice[m + 1..]
  {}

  lemma NullTree(depth: nat)
    ensures Ordered(Null, depth) && Halved(Null) && Records(Null) == multiset{} && Size(Null) == 0
  {}

  /** Median, lower and upper half of a sorted slice make an ordered tree of the whole slice. */
  lemma Assembles(s: seq<Record>, m: nat, depth: nat, left: Tree, right: Tree)
    requires m < |s| && SortedBy(s, depth % 2)
    requires Records(left) == multiset(s[..m]) && Records(right) == multiset(s[m + 1..])
    requires Ordered(left, depth + 1) && Ordered(right, depth + 1)
    ensures var t := Node(s[m], depth % 2, left, right);
      Records(t) == multiset(s) && Ordered(t, depth)
  {
    hide SortedBy, NoneAbove, NoneBelow;
    MedianSplits(s, m, depth % 2);
  }

  lemma AssemblesHalved(n: nat, rs: Record, axis: nat, left: Tree, right: Tree)
    requires n > 0 && Halved(left) && Halved(right) && Size(left) == n / 2 && Size(right) == n - n / 2 - 1
    ensures Halved(Node(rs, axis, left, right)) && Size(Node(rs, axis, left, right)) == n
  {}

  /** mk_kdtree: a tree over exactly the given records. */
  method MkKdTree(rs: seq<Record>, qsort: (seq<Record>, nat) -> seq<Record>) returns (t: Tree)
    requires Sorts(qsort)
    ensures Records(t) == multiset(rs) && Ordered(t, 0) && BalancedHeight(Height(t), |rs|)
  {
    var coord := new Record[|rs|](i requires 0 <= i < |rs| => rs[i]);
    assert coord[0..0 + |rs|] == rs;
    t := BuildKdTree(coord, 0, |rs|, 0, qsort);
    HalvedIsBalanced(t);
  }

  // ---------- the search ----------

  /** The coordinate of the query on an axis. */
  function Coordinate(lon: real, lat: real, axis: nat): real { if axis == 0 then lon else lat }

  function Square(x: real): real { x * x }

  /** The split plane is no farther from the query than any record beyond it. */
  lemma PlaneBounds(r: Record, lon: real, lat: real, axis: nat, plane: real)
    requires var q := Coordinate(lon, lat, axis);
      (q <= plane <= Key(r, axis)) || (Key(r, axis) <= plane <= q)
    ensures Square(Coordinate(lon, lat, axis) - plane) <= Distance(r, lon, lat)
  {
    var q, k := Coordinate(lon, lat, axis), Key(r, axis);
    SquareGrows(q - plane, q - k);
    assert Square(q - k) == Square(k - q);
    SquareNonNegative(r.lon - lon);
    SquareNonNegative(r.lat - lat);
    assert Distance(r, lon, lat) == Square(r.lon - lon) + Square(r.lat - lat);
  }

  lemma SquareNonNegative(x: real)
    ensures Square(x) >= 0.0
  {}

  lemma SquareGrows(a: real, b: real)
    requires 0.0 <= a <= b || b <= a <= 0.0
    ensures Square(a) <= Square(b)
  {
    assert a * a <= a * b <= b * b;
  }

  /** (best, bestDist) improved to the nearest record of the given ones, if one is nearer than bestDist. */
  ghost predicate Nearest(rs: multiset<Record>, lon: real, lat: real,
                          best: Option<Record>, dist: real, best': Option<Record>, dist': real)
  {
    && dist' <= dist
    && (forall r :: r in rs ==> dist' <= Distance(r, lon, lat))
    && ((best' == best && dist' == dist)
        || (dist' < dist && best'.Some? && best'.value in rs && Distance(best'.value, lon, lat) == dist'))
  }

  lemma NearestCompose(a: multiset<Record>, b: multiset<Record>, lon: real, lat: real,
                       r0: Option<Record>, d0: real, r1: Option<Record>, d1: real, r2: Option<Record>, d2: real)
    requires Nearest(a, lon, lat, r0, d0, r1, d1) && Nearest(b, lon, lat, r1, d1, r2, d2)
    ensures Nearest(a + b, lon, lat, r0, d0, r2, d2)
  {}

  /** The squared distance of the query from the split plane of a node. */
  function PlaneDistance(node: Tree, lon: real, lat: real): real
    requires node.Node?
  {
    Square(Coordinate(lon, lat, node.axis) - Key(node.rs, node.axis))
  }

  /** On which side of its split plane a node's query lies. */
  predicate GoLeft(node: Tree, lon: real, lat: real)
    requires node.Node?
  {
    (node.axis == 0 && lon < node.rs.lon) || (node.axis == 1 && lat < node.rs.lat)
  }

  /** A record on the far side of a node is beyond its split plane. */
  lemma FarIsBeyond(node: Tree, depth: nat, lon: real, lat: real, r: Record)
    requires node.Node? && Ordered(node, depth)
    requires r in Records(if GoLeft(node, lon, lat) then node.right else node.left)
    ensures var q, plane := Coordinate(lon, lat, node.axis), Key(node.rs, node.axis);
      (q <= plane <= Key(r, node.axis)) || (Key(r, node.axis) <= plane <= q)
  {}

  /** The far side of a node may be skipped when its split plane is not nearer than the best. */
  lemma PruneIsSafe(node: Tree, depth: nat, lon: real, lat: real, best: Option<Record>, dist: real)
    requires node.Node? && Ordered(node, depth) && PlaneDistance(node, lon, lat) >= dist
    ensures Nearest(Records(if GoLeft(node, lon, lat) then node.right else node.left), lon, lat, best, dist, best, dist)
  {
    hide Distance, Square, Ordered, Key, Coordinate, GoLeft, Records;
    var far := Records(if GoLeft(node, lon, lat) then node.right else node.left);
    forall r | r in far ensures dist <= Distance(r, lon, lat) {
      FarIsBeyond(node, depth, lon, lat, r);
      PlaneBounds(r, lon, lat, node.axis, Key(node.rs, node.axis));
    }
  }

  /** lookup_kdtree_recursive */
  method Search(node: Tree, lon: real, lat: real, best: Option<Record>, bestDist: real, ghost depth: nat)
    returns (best': Option<Record>, bestDist': real)
    requires Ordered(node, depth)
    ensures Nearest(Records(node), lon, lat, best, bestDist, best', bestDist')
    decreases node
  {
    hide Nearest, Distance, Ordered, PlaneDistance, GoLeft, Records;
    NullTree(depth);
    best', bestDist' := best, bestDist;
    NothingNearer(lon, lat, best, bestDist);
    if node == Null { return; }
    ChildrenOrdered(node, depth);
    var dist := Distance(node.rs, lon, lat);
    if dist < bestDist' {
      bestDist' := dist;
      best' := Some(node.rs);
    }
    VisitNode(node.rs, lon, lat, best, bestDist);
    ghost var r1, d1 := best', bestDist';
    var goLeft := GoLeft(node, lon, lat);
    var nextBranch := if goLeft then node.left else node.right;
    var oppositeBranch := if goLeft then node.right else node.left;
    best', bestDist' := Search(nextBranch, lon, lat, best', bestDist', depth + 1);
    NearestCompose(multiset{node.rs}, Records(nextBranch), lon, lat, best, bestDist, r1, d1, best', bestDist');
    ghost var r2, d2 := best', bestDist';
    if PlaneDistance(node, lon, lat) < bestDist' {
      best', bestDist' := Search(oppositeBranch, lon, lat, best', bestDist', depth + 1);
    } else {
      PruneIsSafe(node, depth, lon, lat, best', bestDist');
    }
    NearestCompose(multiset{node.rs} + Records(nextBranch), Records(oppositeBranch), lon, lat,
                   best, bestDist, r2, d2, best', bestDist');
    SidesTogether(node, goLeft);
  }

  lemma SidesTogether(node: Tree, goLeft: bool)
    requires node.Node?
    ensures var near, far := if goLeft then node.left else node.right, if goLeft then node.right else node.left;
      multiset{node.rs} + Records(near) + Records(far) == Records(node)
  {}

  lemma ChildrenOrdered(node: Tree, depth: nat)
    requires node.Node? && Ordered(node, depth)
    ensures Ordered(node.left, depth + 1) && Ordered(node.right, depth + 1)
  {}

  lemma NothingNearer(lon: real, lat: real, best: Option<Record>, dist: real)
    ensures Nearest(multiset{}, lon, lat, best, dist, best, dist)
  {}

  lemma VisitNode(r: Record, lon: real, lat: real, best: Option<Record>, dist: real)
    ensures var d := Distance(r, lon, lat);
      Nearest(multiset{r}, lon, lat, best, dist, if d < dist then Some(r) else best, if d < dist then d else dist)
  {}

  /** A record of rs nearer than `limit`, and none of rs is nearer than it. */
  ghost predicate IsNearest(found: Option<Record>, rs: multiset<Record>, lon: real, lat: real, limit: real) {
    match found
    case None => forall r :: r in rs ==> limit <= Distance(r, lon, lat)
    case Some(b) =>
      b in rs && Distance(b, lon, lat) < limit && forall r :: r in rs ==> Distance(b, lon, lat) <= Distance(r, lon, lat)
  }

  /** lookup_kdtree: a nearest record, or NULL exactly when none is nearer than DBL_MAX. */
  method LookupKdTree(tree: Tree, lon: real, lat: real) returns (best: Option<Record>)
    requires Ordered(tree, 0)
    ensures IsNearest(best, Records(tree), lon, lat, DBL_MAX)
  {
    var bestDist;
    best, bestDist := Search(tree, lon, lat, None, DBL_MAX, 0);
  }

  /** lookup_naive: a nearest record, or NULL exactly when none is nearer than 1e308. */
  method LookupNaive(rs: seq<Record>, lon: real, lat: real) returns (best: Option<Record>)
    ensures IsNearest(best, multiset(rs), lon, lat, NAIVE_MAX)
  {
    best := None;
    var bestDist := NAIVE_MAX;
    hide Distance;
    NothingNearer(lon, lat, None, NAIVE_MAX);
    for i := 0 to |rs|
      invariant Nearest(multiset(rs[..i]), lon, lat, None, NAIVE_MAX, best, bestDist)
    {
      VisitNode(rs[i], lon, lat, best, bestDist);
      ghost var r1, d1 := best, bestDist;
      var dist := Distance(rs[i], lon, lat);
      if dist < bestDist {
        bestDist := dist;
        best := Some(rs[i]);
      }
      NearestCompose(multiset(rs[..i]), multiset{rs[i]}, lon, lat, None, NAIVE_MAX, r1, d1, best, bestDist);
      assert rs[..i + 1] == rs[..i] + [rs[i]];
    }
    assert rs[..|rs|] == rs;
  }

  /** What has been found, with the coordinates written out. */
  lemma NoneIsNearer(found: Record, rs: multiset<Record>, lon: real, lat: real, limit: real, r: Record)
    requires IsNearest(Some(found), rs, lon, lat, limit) && r in rs
    ensures found in rs
    ensures (found.lon - lon) * (found.lon - lon) + (found.lat - lat) * (found.lat - lat)
         <= (r.lon - lon) * (r.lon - lon) + (r.lat - lat) * (r.lat - lat)
  {
    hide Distance;
    DistanceOf(found, lon, lat);
    DistanceOf(r, lon, lat);
  }

  lemma DistanceOf(r: Record, lon: real, lat: real)
    ensures Distance(r, lon, lat) == (r.lon - lon) * (r.lon - lon) + (r.lat - lat) * (r.lat - lat)
  {}

  /** The root splits by longitude, its children by latitude. */
  lemma FirstSplits(t: Tree)
    requires Ordered(t, 0) && t.Node?
    ensures forall r :: r in Records(t.left) ==> r.lon <= t.rs.lon
    ensures forall r :: r in Records(t.right) ==> t.rs.lon <= r.lon
    ensures t.left.Node? ==> forall r :: r in Records(t.left.left) ==> r.lat <= t.left.rs.lat
    ensures t.right.Node? ==> forall r :: r in Records(t.right.right) ==> t.right.rs.lat <= r.lat
  {
    hide Records;
  }

  // ---------- the sentinels ----------

  function Power(b: real, k: nat): real { if k == 0 then 1.0 else b * Power(b, k - 1) }

  lemma {:induction false} PowerAdds(b: real, j: nat, k: nat)
    ensures Power(b, j + k) == Power(b, j) * Power(b, k)
  {
    if j > 0 { PowerAdds(b, j - 1, k); }
  }

  /** The naive search starts from 10^308. */
  lemma NaiveStart()
    ensures NAIVE_MAX == Power(10.0, 308)
  {
    assert Power(10.0, 7) == 10000000.0;
    PowerAdds(10.0, 7, 7);
    PowerAdds(10.0, 14, 14);
    PowerAdds(10.0, 28, 49);
    PowerAdds(10.0, 7, 14);
    PowerAdds(10.0, 21, 28);
    PowerAdds(10.0, 77, 77);
    PowerAdds(10.0, 154, 154);
  }

  /** The k-d tree search starts from the largest double, (2^53 - 1) * 2^971. */
  lemma TreeStart()
    ensures DBL_MAX == (Power(2.0, 53) - 1.0) * Power(2.0, 971)
  {
    assert Power(2.0, 8) == 256.0;
    PowerAdds(2.0, 8, 8);
    PowerAdds(2.0, 16, 16);
    PowerAdds(2.0, 32, 32);
    PowerAdds(2.0, 64, 64);
    PowerAdds(2.0, 128, 128);
    PowerAdds(2.0, 256, 256);
    assert Power(2.0, 5) == 32.0;
    PowerAdds(2.0, 5, 16);
    PowerAdds(2.0, 21, 32);
    PowerAdds(2.0, 512, 256);
    PowerAdds(2.0, 768, 128);
    PowerAdds(2.0, 896, 64);
    assert Power(2.0, 11) == 2048.0;
    PowerAdds(2.0, 960, 11);
  }

  // ---------- the two searches agree ----------

  /** Both find nothing, or both find a record at the same distance. */
  ghost predicate Agree(a: Option<Record>, b: Option<Record>, lon: real, lat: real) {
    a.Some? == b.Some? && (a.Some? ==> Distance(a.value, lon, lat) == Distance(b.value, lon, lat))
  }

  /** Some record lies nearer than DBL_MAX, but none nearer than 1e308. */
  ghost predicate BetweenSentinels(rs: multiset<Record>, lon: real, lat: real) {
    && (exists r :: r in rs && Distance(r, lon, lat) < DBL_MAX)
    && (forall r :: r in rs ==> NAIVE_MAX <= Distance(r, lon, lat))
  }

  lemma SentinelsOrdered()
    ensures NAIVE_MAX < DBL_MAX
  {}

  /**
   The pruned search and the linear scan agree exactly unless the nearest record lies between
   the two distances they start from; in particular they agree on the empty set.
   */
  lemma SearchesAgree(rs: multiset<Record>, lon: real, lat: real, kd: Option<Record>, naive: Option<Record>)
    requires IsNearest(kd, rs, lon, lat, DBL_MAX) && IsNearest(naive, rs, lon, lat, NAIVE_MAX)
    ensures Agree(kd, naive, lon, lat) <==> !BetweenSentinels(rs, lon, lat)
    ensures rs == multiset{} ==> kd == None && naive == None
    ensures rs != multiset{} && (forall r :: r in rs ==> Distance(r, lon, lat) < NAIVE_MAX) ==> kd.Some? && naive.Some?
  {
    SentinelsOrdered();
    hide Distance;
    if rs != multiset{} { var r :| r in rs; }
  }

  /** They do differ on some input: a single record at squared distance 1e308 is found only by the pruned search. */
  lemma SearchesCanDiffer(kd: Option<Record>, naive: Option<Record>)
    requires var far := Record(0, FAR, 0.0);
      IsNearest(kd, multiset{far}, 0.0, 0.0, DBL_MAX) && IsNearest(naive, multiset{far}, 0.0, 0.0, NAIVE_MAX)
    ensures kd == Some(Record(0, FAR, 0.0)) && naive == None
  {
    assert Distance(Record(0, FAR, 0.0), 0.0, 0.0) == NAIVE_MAX;
    SentinelsOrdered();
  }

  /** Both indexes over the same records, asked the same question. */
  method QueryBoth(rs: seq<Record>, lon: real, lat: real, qsort: (seq<Record>, nat) -> seq<Record>)
    returns (kd: Option<Record>, naive: Option<Record>)
    requires Sorts(qsort)
    ensures Agree(kd, naive, lon, lat) <==> !BetweenSentinels(multiset(rs), lon, lat)
    ensures IsNearest(kd, multiset(rs), lon, lat, DBL_MAX) && IsNearest(naive, multiset(rs), lon, lat, NAIVE_MAX)
  {
    var tree := MkKdTree(rs, qsort);
    kd := LookupKdTree(tree, lon, lat);
    naive := LookupNaive(rs, lon, lat);
    SearchesAgree(multiset(rs), lon, lat, kd, naive);
  }
}
