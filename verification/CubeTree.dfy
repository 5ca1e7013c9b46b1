/**
 Cube trees: keys that are unions of what lies below them, nearest-neighbour bounds,
 and the splitting of a full page.
 */
module CubeTrees {
  import opened Cubes
  import opened Maybes

  // ---------------------------------------------------------------------
  // Trees
  // ---------------------------------------------------------------------

  datatype Tree = Leaf(box: Box) | Node(key: Box, children: seq<Tree>)

  function KeyOf(t: Tree): Box { if t.Leaf? then t.box else t.key }

  /** Folding g_cube_binary_union over the entries, from the first on. */
  ghost predicate IsFold(key: Box, boxes: seq<Box>)
    requires IsBox(key) && forall i :: 0 <= i < |boxes| ==> IsBox(boxes[i])
    decreases |boxes|
  {
    boxes != [] &&
    var n := |boxes| - 1;
    if n == 0 then key == boxes[0]
    else exists k: Box :: IsBox(k) && IsFold(k, boxes[..n]) && IsUnion(key, k, boxes[n])
  }

  /** g_cube_union: for a single entry it returns no box at all. */
  method FoldUnion(boxes: seq<Box>) returns (out: Maybe<Box>)
    requires boxes != [] && forall i :: 0 <= i < |boxes| ==> IsBox(boxes[i])
    ensures out.Just? <==> |boxes| > 1
    ensures out.Just? ==> IsBox(out.value) && IsFold(out.value, boxes)
  {
    out := Nothing;
    var tmp := boxes[0];
    var i := 1;
    assert boxes[..1] == [boxes[0]];
    while i < |boxes|
      invariant 1 <= i <= |boxes| && IsBox(tmp) && IsFold(tmp, boxes[..i])
      invariant out == if i > 1 then Just(tmp) else Nothing
    {
      var before := tmp;
      tmp := Union(before, boxes[i], false);
      out := Just(tmp);
      assert boxes[..i + 1][..i] == boxes[..i];
      i := i + 1;
    }
    assert boxes[..i] == boxes;
  }

  lemma {:induction false} FoldEncloses(key: Box, boxes: seq<Box>, i: nat)
    requires IsBox(key) && (forall k :: 0 <= k < |boxes| ==> IsBox(boxes[k])) && IsFold(key, boxes) && i < |boxes|
    ensures Encloses(key, boxes[i])
    decreases |boxes|
  {
    var n := |boxes| - 1;
    if n > 0 {
      var k: Box :| IsBox(k) && IsFold(k, boxes[..n]) && IsUnion(key, k, boxes[n]);
      UnionIsLeast(key, k, boxes[n], key);
      if i < n {
        FoldEncloses(k, boxes[..n], i);
        EnclosesTransitive(key, k, boxes[i]);
      }
    }
  }

  /** Every key covers what its children cover. */
  ghost predicate Built(t: Tree) {
    match t
    case Leaf(b) => IsBox(b)
    case Node(key, children) =>
      && IsBox(key) && (forall i :: 0 <= i < |children| ==> Built(children[i]))
      && forall i :: 0 <= i < |children| ==> IsBox(KeyOf(children[i])) && Encloses(key, KeyOf(children[i]))
  }

  /** Leaves reached through internal keys that are consistent. */
  ghost predicate Found(t: Tree, path: seq<nat>, q: Box, s: Strategy)
    requires IsBox(q) && Built(t)
    decreases |path|
  {
    match t
    case Leaf(b) => path == [] && LeafConsistent(b, q, s)
    case Node(key, children) =>
      path != [] && path[0] < |children| && InternalConsistent(key, q, s) && Found(children[path[0]], path[1..], q, s)
  }

  /** The leaf at the end of a path. */
  ghost predicate LeafAt(t: Tree, path: seq<nat>, b: Box)
    decreases |path|
  {
    match t
    case Leaf(c) => path == [] && b == c
    case Node(_, children) => path != [] && path[0] < |children| && LeafAt(children[path[0]], path[1..], b)
  }

  lemma {:induction false} KeyEnclosesLeaf(t: Tree, path: seq<nat>, b: Box)
    requires Built(t) && LeafAt(t, path, b)
    ensures IsBox(b) && IsBox(KeyOf(t)) && Encloses(KeyOf(t), b)
    decreases |path|
  {
    if t.Node? {
      KeyEnclosesLeaf(t.children[path[0]], path[1..], b);
      EnclosesTransitive(t.key, KeyOf(t.children[path[0]]), b);
    }
  }

  /** A search reaches every leaf that satisfies it, under any strategy that is never pruned there. */
  lemma {:induction false} SearchReaches(t: Tree, path: seq<nat>, b: Box, q: Box, s: Strategy)
    requires Built(t) && LeafAt(t, path, b) && IsBox(q) && IsBox(b)
    requires LeafConsistent(b, q, s) && NeverPruned(b, q, s)
    ensures Found(t, path, q, s)
    decreases |path|
  {
    if t.Node? {
      KeyEnclosesLeaf(t, path, b);
      SearchReaches(t.children[path[0]], path[1..], b, q, s);
    }
  }

  lemma {:induction false} FoundIsConsistent(t: Tree, path: seq<nat>, b: Box, q: Box, s: Strategy)
    requires Built(t) && LeafAt(t, path, b) && IsBox(q) && IsBox(b) && Found(t, path, q, s)
    ensures LeafConsistent(b, q, s)
    decreases |path|
  {
    if t.Node? { FoundIsConsistent(t.children[path[0]], path[1..], b, q, s); }
  }

  /**
   A search finds exactly the boxes that satisfy it, in every tree of covering keys: for
   overlap, sameness and containing with any mix of dimensions, and for being contained
   when the query holds zero on the axes a box lacks, as it does when dimensions are equal.
   */
  lemma SearchIsExact(t: Tree, path: seq<nat>, b: Box, q: Box, s: Strategy)
    requires Built(t) && LeafAt(t, path, b) && IsBox(q) && IsBox(b)
    requires s == ContainedByQuery ==> b.dim == q.dim || ZeroOnExtra(b, q)
    ensures Found(t, path, q, s) <==> LeafConsistent(b, q, s)
  {
    if LeafConsistent(b, q, s) {
      if s == ContainedByQuery { ContainedByIsSoundIff(b, q); } else { SearchIsSound(b, q, s); }
      SearchReaches(t, path, b, q, s);
    }
    if Found(t, path, q, s) { FoundIsConsistent(t, path, b, q, s); }
  }

  // ---------------------------------------------------------------------
  // Distances
  // ---------------------------------------------------------------------

  /** distance_1D. */
  function Distance1D(a1: real, a2: real, b1: real, b2: real): real {
    if a1 <= b1 && a2 <= b1 && a1 <= b2 && a2 <= b2 then Min(b1, b2) - Max(a1, a2)
    else if a1 > b1 && a2 > b1 && a1 > b2 && a2 > b2 then Min(a1, a2) - Max(b1, b2)
    else 0.0
  }

  /** The gap between two boxes on one axis. */
  function Gap(a: Box, b: Box, i: nat): real
    requires IsBox(a) && IsBox(b)
  {
    Max(0.0, Max(Lo(b, i) - Hi(a, i), Lo(a, i) - Hi(b, i)))
  }

  lemma DistanceIsGap(a: Box, b: Box, i: nat)
    requires IsBox(a) && IsBox(b) && i < a.dim
    ensures i < b.dim ==> Distance1D(LL(a, i), UR(a, i), LL(b, i), UR(b, i)) == Gap(a, b, i) == Gap(b, a, i)
    ensures i >= b.dim ==> Distance1D(LL(a, i), UR(a, i), 0.0, 0.0) == Gap(a, b, i) == Gap(b, a, i)
  {
  }

  lemma GapShrinks(k: Box, b: Box, q: Box, i: nat)
    requires IsBox(k) && IsBox(b) && IsBox(q) && Encloses(k, b)
    ensures 0.0 <= Gap(k, q, i) <= Gap(b, q, i)
    ensures i >= b.dim && i >= q.dim ==> Gap(b, q, i) == 0.0
  {
  }

  /** The three ways of adding up gaps. */
  datatype Metric = Taxicab | Euclid | Chebyshev

  function Add(m: Metric, sum: real, d: real): real {
    match m
    case Taxicab => sum + d
    case Euclid => sum + d * d
    case Chebyshev => Max(sum, d)
  }

  function GapsTo(m: Metric, a: Box, b: Box, n: nat): real
    requires IsBox(a) && IsBox(b)
  {
    if n == 0 then 0.0 else Add(m, GapsTo(m, a, b, n - 1), Gap(a, b, n - 1))
  }

  /** distance_taxicab, distance_chebyshev and, before the square root, cube_distance. */
  method Distance(m: Metric, p: Box, q: Box) returns (d: real)
    requires IsBox(p) && IsBox(q)
    ensures d == GapsTo(m, p, q, MaxDim(p, q))
  {
    var a, b := p, q;
    if a.dim < b.dim { a, b := b, a; }
    d := 0.0;
    var i := 0;
    while i < b.dim
      invariant 0 <= i <= b.dim && d == GapsTo(m, p, q, i)
    {
      DistanceIsGap(a, b, i);
      d := Add(m, d, Distance1D(LL(a, i), UR(a, i), LL(b, i), UR(b, i)));
      i := i + 1;
    }
    while i < a.dim
      invariant b.dim <= i <= a.dim && d == GapsTo(m, p, q, i)
    {
      DistanceIsGap(a, b, i);
      d := Add(m, d, Distance1D(LL(a, i), UR(a, i), 0.0, 0.0));
      i := i + 1;
    }
  }

  lemma SquareMono(x: real, y: real)
    requires 0.0 <= x <= y
    ensures x * x <= y * y
  {
  }

  lemma {:induction false} GapsShrink(m: Metric, k: Box, b: Box, q: Box, n: nat)
    requires IsBox(k) && IsBox(b) && IsBox(q) && Encloses(k, b)
    ensures GapsTo(m, k, q, n) <= GapsTo(m, b, q, n)
  {
    if n > 0 {
      GapsShrink(m, k, b, q, n - 1);
      GapShrinks(k, b, q, n - 1);
      AddMono(m, GapsTo(m, k, q, n - 1), GapsTo(m, b, q, n - 1), Gap(k, q, n - 1), Gap(b, q, n - 1));
    }
  }

  lemma AddMono(m: Metric, s: real, t: real, d: real, e: real)
    requires s <= t && 0.0 <= d <= e
    ensures Add(m, s, d) <= Add(m, t, e)
  {
    SquareMono(d, e);
  }

  lemma {:induction false} GapsStop(m: Metric, b: Box, q: Box, n: nat)
    requires IsBox(b) && IsBox(q) && n >= MaxDim(b, q)
    ensures GapsTo(m, b, q, n) == GapsTo(m, b, q, MaxDim(b, q))
    decreases n
  {
    GapsNonNegative(m, b, q, MaxDim(b, q));
    if n > MaxDim(b, q) {
      GapsStop(m, b, q, n - 1);
      GapShrinks(b, b, q, n - 1);
    }
  }

  lemma {:induction false} GapsNonNegative(m: Metric, b: Box, q: Box, n: nat)
    requires IsBox(b) && IsBox(q)
    ensures GapsTo(m, b, q, n) >= 0.0
  {
    if n > 0 {
      GapsNonNegative(m, b, q, n - 1);
      GapShrinks(b, b, q, n - 1);
      SquareMono(0.0, Gap(b, q, n - 1));
    }
  }

  /** No box below a key is nearer to the query than the key. */
  lemma KeyIsNearest(m: Metric, k: Box, b: Box, q: Box)
    requires IsBox(k) && IsBox(b) && IsBox(q) && Encloses(k, b)
    ensures GapsTo(m, k, q, MaxDim(k, q)) <= GapsTo(m, b, q, MaxDim(b, q))
  {
    GapsShrink(m, k, b, q, MaxDim(k, q));
    GapsStop(m, b, q, MaxDim(k, q));
  }

  /** The distance by one coordinate, for ordering by an axis; a negative coordinate orders downward. */
  function CoordDistance(b: Box, coord: int, isLeaf: bool): real
    requires IsBox(b) && coord != 0
  {
    var c := if coord < 0 then -coord else coord;
    var index := (c - 1) / 2;
    var v :=
      if c > 2 * b.dim then 0.0
      else if b.point then b.x[index]
      else if if isLeaf then (c - 1) % 2 == 1 else coord < 0 then Max(b.x[index], b.x[index + b.dim])
      else Min(b.x[index], b.x[index + b.dim]);
    if coord < 0 then -v else v
  }

  /** What the coordinate distance of a box lies between. */
  lemma CoordBounds(b: Box, coord: int, isLeaf: bool)
    requires IsBox(b) && coord != 0
    ensures var c := if coord < 0 then -coord else coord;
      var i := (c - 1) / 2;
      && i >= 0
      && (coord > 0 ==> Lo(b, i) <= CoordDistance(b, coord, isLeaf) <= Hi(b, i))
      && (coord < 0 ==> -Hi(b, i) <= CoordDistance(b, coord, isLeaf) <= -Lo(b, i))
      && (!isLeaf && coord > 0 ==> CoordDistance(b, coord, isLeaf) == Lo(b, i))
      && (!isLeaf && coord < 0 ==> CoordDistance(b, coord, isLeaf) == -Hi(b, i))
  {
  }

  /** An internal key's coordinate distance bounds that of every box below it, for either sign. */
  lemma CoordIsLowerBound(k: Box, b: Box, coord: int, isLeaf: bool)
    requires IsBox(k) && IsBox(b) && Encloses(k, b) && coord != 0
    ensures CoordDistance(k, coord, false) <= CoordDistance(b, coord, isLeaf)
  {
    CoordBounds(k, coord, false);
    CoordBounds(b, coord, isLeaf);
    var c := if coord < 0 then -coord else coord;
    var i: nat := (c - 1) / 2;
    assert Lo(k, i) <= Lo(b, i) && Hi(b, i) <= Hi(k, i);
  }

  // ---------------------------------------------------------------------
  // Splitting a page
  // ---------------------------------------------------------------------

  function Abs(x: real): real { if x < 0.0 then -x else x }

  function Product(s: seq<real>): real {
    if s == [] then 1.0 else Product(s[..|s| - 1]) * s[|s| - 1]
  }

  /** The lengths of a box's sides. */
  function Sides(b: Box): seq<real>
    requires IsBox(b)
  {
    seq(b.dim, i requires 0 <= i < b.dim => Abs(UR(b, i) - LL(b, i)))
  }

  /** rt_cube_size. */
  function Size(b: Box): real
    requires IsBox(b)
  {
    if b.point || b.dim == 0 then 0.0 else Product(Sides(b))
  }

  /** The sides of the least box over two boxes. */
  function Spans(a: Box, b: Box): seq<real>
    requires IsBox(a) && IsBox(b)
  {
    seq(MaxDim(a, b), i requires 0 <= i < MaxDim(a, b) => Max(Hi(a, i), Hi(b, i)) - Min(Lo(a, i), Lo(b, i)))
  }

  /** The sides of their common part, where crossed corners count as positive. */
  function Shared(a: Box, b: Box): seq<real>
    requires IsBox(a) && IsBox(b)
  {
    seq(MaxDim(a, b), i requires 0 <= i < MaxDim(a, b) => Abs(Min(Hi(a, i), Hi(b, i)) - Max(Lo(a, i), Lo(b, i))))
  }

  /** The room two boxes would waste on one page. */
  function Waste(a: Box, b: Box): real
    requires IsBox(a) && IsBox(b)
  {
    if MaxDim(a, b) == 0 then 0.0 else Product(Spans(a, b)) - Product(Shared(a, b))
  }

  lemma ZeroSide(s: seq<real>)
    requires s != [] && s[|s| - 1] == 0.0
    ensures Product(s) == 0.0
  {
  }

  /** A point's size is zero with or without the special case. */
  lemma SizeIsProduct(b: Box)
    requires IsBox(b)
    ensures Size(b) == if b.dim == 0 then 0.0 else Product(Sides(b))
  {
    if b.point && b.dim > 0 { ZeroSide(Sides(b)); }
  }

  lemma UnionSize(u: Box, a: Box, b: Box)
    requires IsBox(u) && IsBox(a) && IsBox(b) && IsUnion(u, a, b)
    ensures Size(u) == if u.dim == 0 then 0.0 else Product(Spans(a, b))
  {
    SizeIsProduct(u);
    forall i | 0 <= i < u.dim ensures Sides(u)[i] == Spans(a, b)[i] {
      assert Lo(u, i) == Min(Lo(a, i), Lo(b, i)) && Hi(u, i) == Max(Hi(a, i), Hi(b, i));
    }
    assert Sides(u) == Spans(a, b);
  }

  /** cube_inter: its corners may be crossed where the boxes do not meet. */
  ghost predicate IsInter(r: Box, a: Box, b: Box)
    requires IsBox(r) && IsBox(a) && IsBox(b)
  {
    r.dim == MaxDim(a, b) && forall i :: 0 <= i < r.dim ==>
      LL(r, i) == Max(Lo(a, i), Lo(b, i)) && UR(r, i) == Min(Hi(a, i), Hi(b, i))
  }

  lemma InterSize(x: Box, a: Box, b: Box)
    requires IsBox(x) && IsBox(a) && IsBox(b) && IsInter(x, a, b)
    ensures Size(x) == if x.dim == 0 then 0.0 else Product(Shared(a, b))
  {
    SizeIsProduct(x);
    assert Sides(x) == Shared(a, b);
  }

  method Inter(p: Box, q: Box) returns (r: Box)
    requires IsBox(p) && IsBox(q)
    ensures IsBox(r) && IsInter(r, p, q)
  {
    var dim := MaxDim(p, q);
    var x := new real[2 * dim];
    var i := 0;
    while i < dim
      invariant 0 <= i <= dim
      invariant forall k :: 0 <= k < i ==> x[k] == Max(Lo(p, k), Lo(q, k)) && x[k + dim] == Min(Hi(p, k), Hi(q, k))
    {
      x[i], x[i + dim] := Max(Lo(p, i), Lo(q, i)), Min(Hi(p, i), Hi(q, i));
      i := i + 1;
    }
    ghost var corners := x[..];
    r := SetPoint(dim, x[..]);
    forall k | 0 <= k < dim ensures LL(r, k) == Max(Lo(p, k), Lo(q, k)) && UR(r, k) == Min(Hi(p, k), Hi(q, k)) {
      assert corners[k] == x[k] && corners[k + dim] == x[k + dim];
    }
  }

  /** The split being built: offsets on each side so far, and the boxes that cover them. */
  datatype Split = Split(left: seq<nat>, right: seq<nat>, leftBox: Box, rightBox: Box)

  predicate Increasing(s: seq<nat>) { forall i, j :: 0 <= i < j < |s| ==> s[i] < s[j] }

  ghost predicate Covers(box: Box, s: seq<nat>, entries: seq<Box>) {
    && IsBox(box) && (forall i :: 0 <= i < |s| ==> s[i] < |entries| && IsBox(entries[s[i]]))
    && forall i :: 0 <= i < |s| ==> Encloses(box, entries[s[i]])
  }

  /** Offsets 1 to n, excluded, are each on exactly one side, in order. */
  predicate Divides(s: Split, n: nat) {
    && Increasing(s.left) && Increasing(s.right)
    && (forall o :: o in s.left ==> 1 <= o < n) && (forall o :: o in s.right ==> 1 <= o < n)
    && (forall o :: 1 <= o < n ==> o in s.left || o in s.right) && (forall o :: o in s.left ==> o !in s.right)
  }

  predicate Boxes(entries: seq<Box>) { forall i :: 0 <= i < |entries| ==> IsBox(entries[i]) }

  /** The pairs looked at before (i, j), and their waste. */
  ghost predicate MostWaste(entries: seq<Box>, i: nat, j: nat, s1: nat, s2: nat, waste: real)
    requires Boxes(entries)
  {
    && 1 <= s1 < s2 < |entries| - 1 && waste == Waste(entries[s1], entries[s2])
    && forall a, b {:trigger AtMost(entries, a, b, waste)} :: 1 <= a < b < |entries| - 1 && (a < i || (a == i && b < j)) ==>
         AtMost(entries, a, b, waste)
  }

  ghost predicate AtMost(entries: seq<Box>, a: nat, b: nat, w: real)
    requires Boxes(entries) && a < |entries| && b < |entries|
  {
    Waste(entries[a], entries[b]) <= w
  }

  /** One more pair compared. */
  lemma OneMorePair(entries: seq<Box>, i: nat, j: nat, s1: nat, s2: nat, waste: real, first: bool)
    requires Boxes(entries) && 1 <= i < j < |entries| - 1
    requires if first then i == 1 && j == 2 else MostWaste(entries, i, j, s1, s2, waste)
    ensures var w := Waste(entries[i], entries[j]);
      if w > waste || first then MostWaste(entries, i, j + 1, i, j, w) else MostWaste(entries, i, j + 1, s1, s2, waste)
  {
    var w := Waste(entries[i], entries[j]);
    var most := if w > waste || first then w else waste;
    forall a, b | 1 <= a < b < |entries| - 1 && (a < i || (a == i && b < j + 1)) ensures AtMost(entries, a, b, most) {
      if a != i || b != j { assert AtMost(entries, a, b, waste); }
    }
  }

  lemma NextRow(entries: seq<Box>, i: nat, s1: nat, s2: nat, waste: real)
    requires Boxes(entries) && |entries| > 0 && MostWaste(entries, i, |entries| - 1, s1, s2, waste)
    ensures MostWaste(entries, i + 1, i + 2, s1, s2, waste)
    ensures i + 1 >= |entries| - 2 ==> MostWaste(entries, |entries|, 0, s1, s2, waste)
  {
  }

  /** The pair of entries that wastes the most room together; the last slot is not considered. */
  method PickSeeds(entries: seq<Box>) returns (seed1: nat, seed2: nat)
    requires |entries| >= 3 && Boxes(entries)
    ensures 1 <= seed1 < seed2 < |entries|
    ensures |entries| > 3 ==> MostWaste(entries, |entries|, 0, seed1, seed2, Waste(entries[seed1], entries[seed2]))
  {
    seed1, seed2 := 1, 2;
    var maxoff := |entries| - 2;
    var firsttime, waste := true, 0.0;
    var i := 1;
    while i < maxoff
      invariant 1 <= i <= Bound(maxoff, 1) && 1 <= seed1 < seed2 < |entries|
      invariant firsttime <==> i == 1
      invariant !firsttime ==> MostWaste(entries, i, i + 1, seed1, seed2, waste)
      invariant !firsttime && i == maxoff ==> MostWaste(entries, |entries|, 0, seed1, seed2, waste)
    {
      var j := i + 1;
      while j <= maxoff
        invariant i < j <= maxoff + 1 && 1 <= seed1 < seed2 < |entries|
        invariant firsttime <==> i == 1 && j == 2
        invariant !firsttime ==> MostWaste(entries, i, j, seed1, seed2, waste)
      {
        var w := PairWaste(entries[i], entries[j]);
        OneMorePair(entries, i, j, seed1, seed2, waste, firsttime);
        if w > waste || firsttime {
          waste, seed1, seed2, firsttime := w, i, j, false;
        }
        j := j + 1;
      }
      NextRow(entries, i, seed1, seed2, waste);
      i := i + 1;
    }
  }

  function Bound(a: int, b: int): int { if a < b then b else a }

  method PairWaste(a: Box, b: Box) returns (w: real)
    requires IsBox(a) && IsBox(b)
    ensures w == Waste(a, b)
  {
    var u := Union(a, b, false);
    var x := Inter(a, b);
    UnionSize(u, a, b);
    InterSize(x, a, b);
    w := Size(u) - Size(x);
  }

  lemma IncreasingAppend(s: seq<nat>, i: nat)
    requires Increasing(s) && forall o :: o in s ==> o < i
    ensures Increasing(s + [i])
  {
    forall a, b | 0 <= a < b < |s| + 1 ensures (s + [i])[a] < (s + [i])[b] {
      assert s[a] in s;
    }
  }

  lemma CoversAppend(box: Box, wider: Box, s: seq<nat>, i: nat, entries: seq<Box>)
    requires Covers(box, s, entries) && IsBox(wider) && Encloses(wider, box) && i < |entries| && IsBox(entries[i])
    requires Encloses(wider, entries[i])
    ensures Covers(wider, s + [i], entries)
  {
    forall k | 0 <= k < |s| ensures Encloses(wider, entries[s[k]]) {
      EnclosesTransitive(wider, box, entries[s[k]]);
    }
  }

  /** The split after one more entry went left, or right. */
  lemma DividesAppend(s: Split, r: Split, i: nat)
    requires Divides(s, i) && i >= 1
    requires (r.left == s.left + [i] && r.right == s.right) || (r.left == s.left && r.right == s.right + [i])
    ensures Divides(r, i + 1)
  {
    if r.left == s.left + [i] { IncreasingAppend(s.left, i); } else { IncreasingAppend(s.right, i); }
  }

  /** Where entry i goes: a seed to its side, another entry to the side that grows least. */
  method Place(entries: seq<Box>, i: nat, seed1: nat, seed2: nat, l: Box, r: Box) returns (toLeft: bool, l': Box, r': Box)
    requires Boxes(entries) && 1 <= i < |entries| && seed1 < seed2 < |entries| && IsBox(l) && IsBox(r)
    requires Encloses(l, entries[seed1]) && Encloses(r, entries[seed2])
    ensures IsBox(l') && IsBox(r') && Encloses(l', l) && Encloses(r', r)
    ensures if toLeft then i != seed2 && r' == r && Encloses(l', entries[i]) else i != seed1 && l' == l && Encloses(r', entries[i])
  {
    if i == seed1 { return true, l, r; }
    if i == seed2 { return false, l, r; }
    var ul := Union(l, entries[i], false);
    var ur := Union(r, entries[i], false);
    UnionIsLeast(ul, l, entries[i], ul);
    UnionIsLeast(ur, r, entries[i], ur);
    if Size(ul) - Size(l) < Size(ur) - Size(r) {
      return true, ul, r;
    } else {
      return false, l, ur;
    }
  }

  /** Everything the split promises once entries 1 to n, excluded, are placed. */
  ghost predicate SplitOk(entries: seq<Box>, s: Split, n: nat, seed1: nat, seed2: nat) {
    && Divides(s, n) && Covers(s.leftBox, s.left, entries) && Covers(s.rightBox, s.right, entries)
    && (seed1 < n ==> seed1 in s.left) && (seed2 < n ==> seed2 in s.right)
    && |s.left| + |s.right| == n - 1
  }

  lemma PlaceKeeps(entries: seq<Box>, s: Split, r: Split, i: nat, seed1: nat, seed2: nat, toLeft: bool)
    requires Boxes(entries) && 1 <= i < |entries| && SplitOk(entries, s, i, seed1, seed2) && seed1 < seed2 < |entries|
    requires IsBox(r.leftBox) && IsBox(r.rightBox) && Encloses(r.leftBox, s.leftBox) && Encloses(r.rightBox, s.rightBox)
    requires if toLeft
             then i != seed2 && r.rightBox == s.rightBox && Encloses(r.leftBox, entries[i]) && r.left == s.left + [i] && r.right == s.right
             else i != seed1 && r.leftBox == s.leftBox && Encloses(r.rightBox, entries[i]) && r.right == s.right + [i] && r.left == s.left
    ensures SplitOk(entries, r, i + 1, seed1, seed2)
  {
    DividesAppend(s, r, i);
    if toLeft {
      CoversAppend(s.leftBox, r.leftBox, s.left, i, entries);
    } else {
      CoversAppend(s.rightBox, r.rightBox, s.right, i, entries);
    }
  }

  /** Writes the next offset of a list. */
  method Push(a: array<nat>, n: nat, o: nat)
    requires n < a.Length
    modifies a
    ensures a[..n + 1] == old(a[..n]) + [o]
  {
    a[n] := o;
  }

  /** The distribution loop. */
  method Distribute(entries: seq<Box>, seed1: nat, seed2: nat, left: array<nat>, right: array<nat>)
    returns (nleft: nat, nright: nat, leftBox: Box, rightBox: Box)
    requires Boxes(entries) && 1 <= seed1 < seed2 < |entries|
    requires left != right && left.Length == right.Length == |entries|
    modifies left, right
    ensures nleft + nright == |entries| - 1
    ensures SplitOk(entries, Split(left[..nleft], right[..nright], leftBox, rightBox), |entries|, seed1, seed2)
  {
    nleft, nright, leftBox, rightBox := 0, 0, entries[seed1], entries[seed2];
    var i := 1;
    while i < |entries|
      invariant 1 <= i <= |entries| && nleft + nright == i - 1
      invariant SplitOk(entries, Split(left[..nleft], right[..nright], leftBox, rightBox), i, seed1, seed2)
      invariant Encloses(leftBox, entries[seed1]) && Encloses(rightBox, entries[seed2])
    {
      ghost var s := Split(left[..nleft], right[..nright], leftBox, rightBox);
      var toLeft, l, r := Place(entries, i, seed1, seed2, leftBox, rightBox);
      EnclosesTransitive(l, leftBox, entries[seed1]);
      EnclosesTransitive(r, rightBox, entries[seed2]);
      if toLeft {
        Push(left, nleft, i);
        nleft := nleft + 1;
      } else {
        Push(right, nright, i);
        nright := nright + 1;
      }
      PlaceKeeps(entries, s, Split(left[..nleft], right[..nright], l, r), i, seed1, seed2, toLeft);
      leftBox, rightBox, i := l, r, i + 1;
    }
  }

  /**
   g_cube_picksplit for three or more slots, slot 0 unused.  Each list has as many places
   as there are slots and ends with a sentinel.
   */
  method PickSplit(entries: seq<Box>)
    returns (left: array<nat>, nleft: nat, right: array<nat>, nright: nat, leftBox: Box, rightBox: Box)
    requires Boxes(entries) && |entries| >= 3
    ensures left.Length == right.Length == |entries| && 0 < nleft < left.Length && 0 < nright < right.Length
    ensures Divides(Split(left[..nleft], right[..nright], leftBox, rightBox), |entries|)
    ensures Covers(leftBox, left[..nleft], entries) && Covers(rightBox, right[..nright], entries)
    ensures left[nleft] == 1 && right[nright] == 1
  {
    left, right := new nat[|entries|], new nat[|entries|];
    var seed1, seed2 := PickSeeds(entries);
    nleft, nright, leftBox, rightBox := Distribute(entries, seed1, seed2, left, right);
    Push(left, nleft, 1);
    Push(right, nright, 1);
    assert left[..nleft + 1][..nleft] == left[..nleft] && right[..nright + 1][..nright] == right[..nright];
  }
}
