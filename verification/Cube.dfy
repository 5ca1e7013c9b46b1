/**
 Boxes of the cube type: the stored form with its point flag, union, containment,
 overlap, order and distances, with missing dimensions read as zero.
 */
module Cubes {

  /** Lower-left corner first, then the upper-right corner unless the box is a point. */
  datatype Box = Box(point: bool, dim: nat, x: seq<real>)

  predicate IsBox(b: Box) { |b.x| == if b.point then b.dim else 2 * b.dim }

  function LL(b: Box, i: nat): real
    requires IsBox(b) && i < b.dim
  {
    b.x[i]
  }

  function UR(b: Box, i: nat): real
    requires IsBox(b) && i < b.dim
  {
    if b.point then b.x[i] else b.x[i + b.dim]
  }

  function Min(a: real, b: real): real { if a < b then a else b }
  function Max(a: real, b: real): real { if a > b then a else b }

  /** The interval a box covers on axis i; a missing axis is the point zero. */
  function Lo(b: Box, i: nat): real
    requires IsBox(b)
  {
    if i < b.dim then Min(LL(b, i), UR(b, i)) else 0.0
  }

  function Hi(b: Box, i: nat): real
    requires IsBox(b)
  {
    if i < b.dim then Max(LL(b, i), UR(b, i)) else 0.0
  }

  function MaxDim(a: Box, b: Box): nat { if a.dim < b.dim then b.dim else a.dim }
  function MinDim(a: Box, b: Box): nat { if a.dim < b.dim then a.dim else b.dim }

  /** a covers all of b, on every axis. */
  ghost predicate Encloses(a: Box, b: Box)
    requires IsBox(a) && IsBox(b)
  {
    a.dim >= b.dim && forall i: nat :: Lo(a, i) <= Lo(b, i) && Hi(b, i) <= Hi(a, i)
  }

  // ---------------------------------------------------------------------
  // Union
  // ---------------------------------------------------------------------

  /** The least box that covers both on every axis. */
  ghost predicate IsUnion(r: Box, a: Box, b: Box)
    requires IsBox(r) && IsBox(a) && IsBox(b)
  {
    && r.dim == MaxDim(a, b)
    && forall i: nat :: Lo(r, i) == Min(Lo(a, i), Lo(b, i)) && Hi(r, i) == Max(Hi(a, i), Hi(b, i))
  }

  /** Marks a box whose corners agree as a point; its upper-right corner is no longer stored. */
  method SetPoint(dim: nat, x: seq<real>) returns (r: Box)
    requires |x| == 2 * dim
    ensures IsBox(r) && r.dim == dim
    ensures forall i: nat :: Lo(r, i) == Lo(Box(false, dim, x), i) && Hi(r, i) == Hi(Box(false, dim, x), i)
    ensures forall i :: 0 <= i < dim ==> LL(r, i) == x[i] && UR(r, i) == x[i + dim]
    ensures r.point <==> forall i :: 0 <= i < dim ==> x[i] == x[i + dim]
  {
    var i := 0;
    while i < dim
      invariant 0 <= i <= dim && forall k :: 0 <= k < i ==> x[k] == x[k + dim]
    {
      if x[i] != x[i + dim] { return Box(false, dim, x); }
      i := i + 1;
    }
    return Box(true, dim, x[..dim]);
  }

  /** The corner arrays of a union after the first n axes. */
  ghost predicate UnionTo(x: seq<real>, a: Box, b: Box, n: nat)
    requires IsBox(a) && IsBox(b)
  {
    && |x| == 2 * MaxDim(a, b) && n <= MaxDim(a, b)
    && forall i :: 0 <= i < n ==>
         x[i] == Min(Lo(a, i), Lo(b, i)) && x[i + MaxDim(a, b)] == Max(Hi(a, i), Hi(b, i))
  }

  /** The axes present in both boxes. */
  method UnionCommon(a: Box, b: Box, x: array<real>)
    requires IsBox(a) && IsBox(b) && b.dim <= a.dim && x.Length == 2 * a.dim
    modifies x
    ensures UnionTo(x[..], a, b, b.dim)
  {
    var i := 0;
    while i < b.dim
      invariant 0 <= i <= b.dim && UnionTo(x[..], a, b, i)
    {
      x[i] := Min(Min(LL(a, i), UR(a, i)), Min(LL(b, i), UR(b, i)));
      x[i + a.dim] := Max(Max(LL(a, i), UR(a, i)), Max(LL(b, i), UR(b, i)));
      i := i + 1;
    }
  }

  /** The axes present in the larger box only. */
  method UnionExtra(a: Box, b: Box, x: array<real>)
    requires IsBox(a) && IsBox(b) && b.dim <= a.dim && x.Length == 2 * a.dim && UnionTo(x[..], a, b, b.dim)
    modifies x
    ensures UnionTo(x[..], a, b, a.dim)
  {
    var i := b.dim;
    while i < a.dim
      invariant b.dim <= i <= a.dim && UnionTo(x[..], a, b, i)
    {
      x[i] := Min(0.0, Min(LL(a, i), UR(a, i)));
      x[i + a.dim] := Max(0.0, Max(LL(a, i), UR(a, i)));
      i := i + 1;
    }
  }

  /** cube_union_v0; `identical` says that both arguments are the same object. */
  method Union(p: Box, q: Box, identical: bool) returns (r: Box)
    requires IsBox(p) && IsBox(q) && (identical ==> p == q)
    ensures IsBox(r) && IsUnion(r, p, q)
  {
    if identical { return p; }
    var a, b := p, q;
    if a.dim < b.dim { a, b := b, a; }
    var x := new real[2 * a.dim];
    UnionCommon(a, b, x);
    UnionExtra(a, b, x);
    r := SetPoint(a.dim, x[..]);
    UnionBounds(x[..], a, b, r);
  }

  lemma UnionBounds(x: seq<real>, a: Box, b: Box, r: Box)
    requires IsBox(a) && IsBox(b) && UnionTo(x, a, b, MaxDim(a, b)) && IsBox(r) && r.dim == MaxDim(a, b)
    requires forall i: nat :: Lo(r, i) == Lo(Box(false, r.dim, x), i) && Hi(r, i) == Hi(Box(false, r.dim, x), i)
    ensures IsUnion(r, a, b) && IsUnion(r, b, a)
  {
    forall i: nat ensures Lo(r, i) == Min(Lo(a, i), Lo(b, i)) && Hi(r, i) == Max(Hi(a, i), Hi(b, i)) {
      LoHi(a, i);
      LoHi(b, i);
      if i < r.dim { assert x[i] == Min(Lo(a, i), Lo(b, i)); }
    }
  }

  lemma LoHi(b: Box, i: nat)
    requires IsBox(b)
    ensures Lo(b, i) <= Hi(b, i)
  {
  }

  /** A union covers both boxes, and nothing that covers both is smaller. */
  lemma UnionIsLeast(r: Box, a: Box, b: Box, c: Box)
    requires IsBox(r) && IsBox(a) && IsBox(b) && IsBox(c) && IsUnion(r, a, b)
    ensures Encloses(r, a) && Encloses(r, b)
    ensures Encloses(c, a) && Encloses(c, b) ==> Encloses(c, r)
  {
  }

  lemma EnclosesTransitive(a: Box, b: Box, c: Box)
    requires IsBox(a) && IsBox(b) && IsBox(c) && Encloses(a, b) && Encloses(b, c)
    ensures Encloses(a, c)
  {
  }

  // ---------------------------------------------------------------------
  // Containment, overlap, order
  // ---------------------------------------------------------------------

  /** On the axes of b, a covers b. */
  predicate Within(a: Box, b: Box)
    requires IsBox(a) && IsBox(b)
  {
    forall i :: 0 <= i < b.dim ==> Lo(a, i) <= Lo(b, i) && Hi(b, i) <= Hi(a, i)
  }

  /** cube_contains_v0. */
  method Contains(a: Box, b: Box) returns (ok: bool)
    requires IsBox(a) && IsBox(b)
    ensures ok <==> Within(a, b)
  {
    var i := a.dim;
    while i < b.dim
      invariant a.dim <= i && forall k :: a.dim <= k < i && k < b.dim ==> Lo(b, k) == Hi(b, k) == 0.0
    {
      if LL(b, i) != 0.0 || UR(b, i) != 0.0 {
        assert !(Lo(a, i) <= Lo(b, i) && Hi(b, i) <= Hi(a, i));
        return false;
      }
      i := i + 1;
    }
    i := 0;
    while i < MinDim(a, b)
      invariant 0 <= i <= MinDim(a, b)
      invariant forall k :: 0 <= k < i ==> Lo(a, k) <= Lo(b, k) && Hi(b, k) <= Hi(a, k)
    {
      assert Lo(a, i) == Min(LL(a, i), UR(a, i));
      if Min(LL(a, i), UR(a, i)) > Min(LL(b, i), UR(b, i)) { return false; }
      if Max(LL(a, i), UR(a, i)) < Max(LL(b, i), UR(b, i)) { return false; }
      i := i + 1;
    }
    return true;
  }

  /** The intervals meet on every axis. */
  ghost predicate Meets(a: Box, b: Box)
    requires IsBox(a) && IsBox(b)
  {
    forall i: nat :: Lo(a, i) <= Hi(b, i) && Lo(b, i) <= Hi(a, i)
  }

  /** cube_overlap_v0. */
  method Overlap(p: Box, q: Box) returns (ok: bool)
    requires IsBox(p) && IsBox(q)
    ensures ok <==> Meets(p, q)
  {
    var a, b := p, q;
    if a.dim < b.dim { a, b := b, a; }
    var i := 0;
    while i < b.dim
      invariant 0 <= i <= b.dim && forall k :: 0 <= k < i ==> Lo(a, k) <= Hi(b, k) && Lo(b, k) <= Hi(a, k)
    {
      assert Lo(a, i) == Min(LL(a, i), UR(a, i)) && Lo(b, i) == Min(LL(b, i), UR(b, i));
      if Min(LL(a, i), UR(a, i)) > Max(LL(b, i), UR(b, i)) { return false; }
      if Max(LL(a, i), UR(a, i)) < Min(LL(b, i), UR(b, i)) { return false; }
      i := i + 1;
    }
    while i < a.dim
      invariant b.dim <= i <= a.dim && forall k :: 0 <= k < i ==> Lo(a, k) <= Hi(b, k) && Lo(b, k) <= Hi(a, k)
    {
      assert Lo(a, i) == Min(LL(a, i), UR(a, i)) && Hi(b, i) == 0.0;
      if Min(LL(a, i), UR(a, i)) > 0.0 { return false; }
      if Max(LL(a, i), UR(a, i)) < 0.0 { return false; }
      i := i + 1;
    }
    return true;
  }

  function Sign(x: real): int { if x < 0.0 then -1 else if x > 0.0 then 1 else 0 }

  /** The first difference of lower bounds, then of upper bounds, on axes i to n. */
  function CmpLo(a: Box, b: Box, i: nat, n: nat): int
    requires IsBox(a) && IsBox(b)
    decreases n - i
  {
    if i >= n then 0
    else if Lo(a, i) != Lo(b, i) then Sign(Lo(a, i) - Lo(b, i))
    else CmpLo(a, b, i + 1, n)
  }

  function CmpHi(a: Box, b: Box, i: nat, n: nat): int
    requires IsBox(a) && IsBox(b)
    decreases n - i
  {
    if i >= n then 0
    else if Hi(a, i) != Hi(b, i) then Sign(Hi(a, i) - Hi(b, i))
    else CmpHi(a, b, i + 1, n)
  }

  function OrElse(x: int, y: int): int { if x != 0 then x else y }

  /** cube_cmp_v0: common axes first, extra axes against zero, then the number of axes. */
  function Cmp(a: Box, b: Box): int
    requires IsBox(a) && IsBox(b)
  {
    var m, n := MinDim(a, b), MaxDim(a, b);
    OrElse(CmpLo(a, b, 0, m), OrElse(CmpHi(a, b, 0, m),
    OrElse(CmpLo(a, b, m, n), OrElse(CmpHi(a, b, m, n), Sign((a.dim - b.dim) as real)))))
  }

  lemma {:induction false} CmpLoZero(a: Box, b: Box, i: nat, n: nat)
    requires IsBox(a) && IsBox(b)
    ensures CmpLo(a, b, i, n) == 0 <==> forall k :: i <= k < n ==> Lo(a, k) == Lo(b, k)
    decreases n - i
  {
    if i < n { CmpLoZero(a, b, i + 1, n); }
  }

  lemma {:induction false} CmpHiZero(a: Box, b: Box, i: nat, n: nat)
    requires IsBox(a) && IsBox(b)
    ensures CmpHi(a, b, i, n) == 0 <==> forall k :: i <= k < n ==> Hi(a, k) == Hi(b, k)
    decreases n - i
  {
    if i < n { CmpHiZero(a, b, i + 1, n); }
  }

  /** Two boxes compare equal exactly when they have the same axes and the same intervals. */
  lemma CmpZero(a: Box, b: Box)
    requires IsBox(a) && IsBox(b)
    ensures Cmp(a, b) == 0 <==> a.dim == b.dim && forall i :: 0 <= i < a.dim ==> Lo(a, i) == Lo(b, i) && Hi(a, i) == Hi(b, i)
  {
    CmpLoZero(a, b, 0, MinDim(a, b));
    CmpHiZero(a, b, 0, MinDim(a, b));
  }

  lemma {:induction false} CmpLoOrder(a: Box, b: Box, c: Box, i: nat, n: nat)
    requires IsBox(a) && IsBox(b) && IsBox(c)
    ensures CmpLo(b, a, i, n) == -CmpLo(a, b, i, n)
    ensures CmpLo(a, b, i, n) <= 0 && CmpLo(b, c, i, n) <= 0 ==>
      CmpLo(a, c, i, n) <= 0 && (CmpLo(a, c, i, n) == 0 <==> CmpLo(a, b, i, n) == 0 && CmpLo(b, c, i, n) == 0)
    decreases n - i
  {
    if i < n { CmpLoOrder(a, b, c, i + 1, n); }
  }

  lemma {:induction false} CmpHiOrder(a: Box, b: Box, c: Box, i: nat, n: nat)
    requires IsBox(a) && IsBox(b) && IsBox(c)
    ensures CmpHi(b, a, i, n) == -CmpHi(a, b, i, n)
    ensures CmpHi(a, b, i, n) <= 0 && CmpHi(b, c, i, n) <= 0 ==>
      CmpHi(a, c, i, n) <= 0 && (CmpHi(a, c, i, n) == 0 <==> CmpHi(a, b, i, n) == 0 && CmpHi(b, c, i, n) == 0)
    decreases n - i
  {
    if i < n { CmpHiOrder(a, b, c, i + 1, n); }
  }

  /** Swapping the boxes turns the sign, whatever their dimensions. */
  lemma CmpAntisymmetric(a: Box, b: Box)
    requires IsBox(a) && IsBox(b)
    ensures Cmp(b, a) == -Cmp(a, b)
  {
    var m, n := MinDim(a, b), MaxDim(a, b);
    CmpLoOrder(a, b, a, 0, m);
    CmpHiOrder(a, b, a, 0, m);
    CmpLoOrder(a, b, a, m, n);
    CmpHiOrder(a, b, a, m, n);
  }

  /** Between boxes of dimension 0 or e all lower bounds come first, then all upper bounds, then the dimension. */
  lemma CmpUniform(a: Box, b: Box, e: nat)
    requires IsBox(a) && IsBox(b) && a.dim in {0, e} && b.dim in {0, e}
    ensures Cmp(a, b) == OrElse(CmpLo(a, b, 0, e), OrElse(CmpHi(a, b, 0, e), Sign((a.dim - b.dim) as real)))
  {
    CmpLoZero(a, b, 0, e);
    CmpHiZero(a, b, 0, e);
  }

  lemma CmpTransitive(a: Box, b: Box, c: Box, e: nat)
    requires IsBox(a) && IsBox(b) && IsBox(c) && a.dim in {0, e} && b.dim in {0, e} && c.dim in {0, e}
    requires Cmp(a, b) <= 0 && Cmp(b, c) <= 0
    ensures Cmp(a, c) <= 0
  {
    CmpUniform(a, b, e);
    CmpUniform(b, c, e);
    CmpUniform(a, c, e);
    CmpLoOrder(a, b, c, 0, e);
    CmpHiOrder(a, b, c, 0, e);
  }

  /** The comparison is transitive over all boxes whose dimensions are among these. */
  ghost predicate TransitiveOver(dims: set<nat>) {
    forall a: Box, b: Box, c: Box ::
      (IsBox(a) && IsBox(b) && IsBox(c) && a.dim in dims && b.dim in dims && c.dim in dims) ==>
        (Cmp(a, b) <= 0 && Cmp(b, c) <= 0 ==> Cmp(a, c) <= 0)
  }

  lemma {:induction false} CmpLoSkip(a: Box, b: Box, i: nat, k: nat, n: nat)
    requires IsBox(a) && IsBox(b) && i <= k <= n && forall j :: i <= j < k ==> Lo(a, j) == Lo(b, j)
    ensures CmpLo(a, b, i, n) == CmpLo(a, b, k, n)
    decreases k - i
  {
    if i < k { CmpLoSkip(a, b, i + 1, k, n); }
  }

  /** Lower bounds zero except `far` on axis d, upper bounds zero except `high` on axis 0 and `far` on axis d. */
  function Bump(dim: nat, high: real, d: nat, far: real): (b: Box)
    requires 0 < dim && 0 < d && high >= 0.0
    ensures IsBox(b) && b.dim == dim && Hi(b, 0) == high
    ensures forall i: nat :: Lo(b, i) == if i == d && d < dim then far else 0.0
  {
    Box(false, dim, seq(2 * dim, i requires 0 <= i < 2 * dim =>
      if i == dim then high else if (i == d || i == dim + d) && d < dim then far else 0.0))
  }

  /** For any two different positive dimensions three boxes run in a circle. */
  lemma CmpCircle(d: nat, e: nat) returns (a: Box, b: Box, c: Box)
    requires 0 < d < e
    ensures IsBox(a) && IsBox(b) && IsBox(c) && a.dim == d && b.dim == c.dim == e
    ensures Cmp(a, b) < 0 && Cmp(b, c) < 0 && Cmp(c, a) < 0
  {
    a, b, c := Bump(d, 3.0, d, 0.0), Bump(e, 5.0, d, 0.0), Bump(e, 1.0, d, 1.0);
    CmpLoZero(a, b, 0, d);
    CmpLoZero(c, a, 0, d);
    CmpLoSkip(b, c, 0, d, e);
  }

  /**
   The exact condition: the comparison is an order over all boxes with dimensions from a set
   if and only if no two of the dimensions are different and positive.
   */
  lemma CmpIsOrderIff(dims: set<nat>)
    ensures TransitiveOver(dims) <==> forall d, e :: d in dims && e in dims && d < e ==> d == 0
  {
    if forall d, e :: d in dims && e in dims && d < e ==> d == 0 {
      forall a: Box, b: Box, c: Box | IsBox(a) && IsBox(b) && IsBox(c) && a.dim in dims && b.dim in dims && c.dim in dims
                                      && Cmp(a, b) <= 0 && Cmp(b, c) <= 0
        ensures Cmp(a, c) <= 0
      {
        CmpTransitive(a, b, c, if a.dim > 0 then a.dim else if b.dim > 0 then b.dim else c.dim);
      }
    } else {
      var d, e :| d in dims && e in dims && 0 < d < e;
      var a, b, c := CmpCircle(d, e);
      CmpAntisymmetric(c, a);
    }
  }

  // ---------------------------------------------------------------------
  // Search
  // ---------------------------------------------------------------------

  datatype Strategy = Overlaps | Same | ContainsQuery | ContainedByQuery

  ghost predicate LeafConsistent(k: Box, q: Box, s: Strategy)
    requires IsBox(k) && IsBox(q)
  {
    match s
    case Overlaps => Meets(k, q)
    case Same => Cmp(k, q) == 0
    case ContainsQuery => Within(k, q)
    case ContainedByQuery => Within(q, k)
  }

  ghost predicate InternalConsistent(k: Box, q: Box, s: Strategy)
    requires IsBox(k) && IsBox(q)
  {
    match s
    case Overlaps => Meets(k, q)
    case Same => Within(k, q)
    case ContainsQuery => Within(k, q)
    case ContainedByQuery => Meets(k, q)
  }

  /** On axes the leaf lacks, the query's interval holds zero. */
  predicate ZeroOnExtra(leaf: Box, q: Box)
    requires IsBox(leaf) && IsBox(q)
  {
    forall i :: leaf.dim <= i < q.dim ==> Lo(q, i) <= 0.0 <= Hi(q, i)
  }

  /** No key above the leaf turns the search away. */
  ghost predicate NeverPruned(leaf: Box, q: Box, s: Strategy)
    requires IsBox(leaf) && IsBox(q)
  {
    LeafConsistent(leaf, q, s) ==> forall k: Box :: IsBox(k) && Encloses(k, leaf) ==> InternalConsistent(k, q, s)
  }

  lemma EncloserMeets(k: Box, leaf: Box, q: Box)
    requires IsBox(k) && IsBox(leaf) && IsBox(q) && Encloses(k, leaf)
    ensures Meets(leaf, q) ==> Meets(k, q)
    ensures Within(leaf, q) ==> Within(k, q)
    ensures Within(q, leaf) && ZeroOnExtra(leaf, q) ==> Meets(k, q)
  {
    if Within(q, leaf) && ZeroOnExtra(leaf, q) {
      forall i: nat ensures Lo(k, i) <= Hi(q, i) && Lo(q, i) <= Hi(k, i) {
        LoHi(leaf, i);
        LoHi(q, i);
      }
    }
  }

  /** Overlap, sameness and containing are sound for any mix of dimensions. */
  lemma SearchIsSound(leaf: Box, q: Box, s: Strategy)
    requires IsBox(leaf) && IsBox(q) && s != ContainedByQuery
    ensures NeverPruned(leaf, q, s)
  {
    if LeafConsistent(leaf, q, s) {
      CmpZero(leaf, q);
      forall k: Box | IsBox(k) && Encloses(k, leaf) ensures InternalConsistent(k, q, s) {
        EncloserMeets(k, leaf, q);
      }
    }
  }

  /** Being contained is sound exactly when the query holds zero on the axes the leaf lacks. */
  lemma ContainedByIsSoundIff(leaf: Box, q: Box)
    requires IsBox(leaf) && IsBox(q) && Within(q, leaf)
    ensures NeverPruned(leaf, q, ContainedByQuery) <==> ZeroOnExtra(leaf, q)
  {
    if ZeroOnExtra(leaf, q) {
      forall k: Box | IsBox(k) && Encloses(k, leaf) ensures InternalConsistent(k, q, ContainedByQuery) {
        EncloserMeets(k, leaf, q);
      }
    } else {
      var i :| leaf.dim <= i < q.dim && !(Lo(q, i) <= 0.0 <= Hi(q, i));
      assert Lo(leaf, i) == Hi(leaf, i) == 0.0;
      assert !Meets(leaf, q);
      assert Encloses(leaf, leaf);
    }
  }

  /** With equal dimensions nothing is missing. */
  lemma ContainedByEqualDims(leaf: Box, q: Box)
    requires IsBox(leaf) && IsBox(q) && leaf.dim == q.dim
    ensures NeverPruned(leaf, q, ContainedByQuery)
  {
    if Within(q, leaf) { ContainedByIsSoundIff(leaf, q); }
  }

  /** The point 1 is contained by the box 0..2 by 5..6, but its own key does not meet that box. */
  lemma ContainedByLosesRow()
    ensures var leaf, q := Box(true, 1, [1.0]), Box(false, 2, [0.0, 5.0, 2.0, 6.0]);
      Within(q, leaf) && !Meets(leaf, q)
  {
    var leaf, q := Box(true, 1, [1.0]), Box(false, 2, [0.0, 5.0, 2.0, 6.0]);
    assert Lo(q, 1) == 5.0 && Hi(leaf, 1) == 0.0;
  }
}
