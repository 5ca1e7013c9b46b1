/**
 B-tree keys as the index verifier compares them: truncated pivots, a heap row
 pointer as the last tie-breaker, and the three order tests built on the comparison.
 */
module BtreeKeys {

  datatype Datum = Null | Value(v: int)

  /** A key column's sort options. */
  datatype Column = Column(desc: bool, nullsFirst: bool)

  datatype HeapTid = NoTid | At(blk: nat, off: nat)

  /** A tuple: the attributes left after truncation, a row pointer and, on internal pages, a child block. */
  datatype Tuple = Tuple(atts: seq<Datum>, tid: HeapTid, downlink: nat)

  /** A row pointer cannot survive the truncation of an attribute. */
  predicate WellFormed(cols: seq<Column>, t: Tuple) {
    |t.atts| <= |cols| && (t.tid.At? ==> |t.atts| == |cols|)
  }

  // ---------------------------------------------------------------------
  // The comparison
  // ---------------------------------------------------------------------

  function Sign(x: int): int { if x < 0 then -1 else if x == 0 then 0 else 1 }

  function CompareDatum(c: Column, key: Datum, item: Datum): int {
    if key.Null? then (if item.Null? then 0 else if c.nullsFirst then -1 else 1)
    else if item.Null? then (if c.nullsFirst then 1 else -1)
    else if c.desc then Sign(item.v - key.v) else -Sign(item.v - key.v)
  }

  function CompareTid(a: HeapTid, b: HeapTid): int
    requires a.At? && b.At?
  {
    if a.blk != b.blk then Sign(a.blk - b.blk) else Sign(a.off - b.off)
  }

  /** _bt_compare from attribute i on, for a pivot search in an index with heap row pointers. */
  function CompareFrom(cols: seq<Column>, key: Tuple, item: Tuple, i: nat): int
    requires |key.atts| <= |cols|
    decreases |key.atts| - i
  {
    if i < |key.atts| && i < |item.atts| then
      var r := CompareDatum(cols[i], key.atts[i], item.atts[i]);
      if r != 0 then r else CompareFrom(cols, key, item, i + 1)
    else if |key.atts| > |item.atts| then 1
    else if key.tid.NoTid? then 0
    else if item.tid.NoTid? then 1
    else CompareTid(key.tid, item.tid)
  }

  function Compare(cols: seq<Column>, key: Tuple, item: Tuple): int
    requires |key.atts| <= |cols|
  {
    CompareFrom(cols, key, item, 0)
  }

  /** invariant_l_offset: a tie goes to the key when the key has fewer parts than the item. */
  predicate InvariantL(cols: seq<Column>, key: Tuple, item: Tuple)
    requires |key.atts| <= |cols|
  {
    var cmp := Compare(cols, key, item);
    if cmp == 0 then
      if |key.atts| == |item.atts| then key.tid.NoTid? && item.tid.At? else |key.atts| < |item.atts|
    else cmp < 0
  }

  predicate InvariantLeq(cols: seq<Column>, key: Tuple, item: Tuple)
    requires |key.atts| <= |cols|
  {
    Compare(cols, key, item) <= 0
  }

  predicate InvariantG(cols: seq<Column>, key: Tuple, item: Tuple)
    requires |key.atts| <= |cols|
  {
    Compare(cols, key, item) > 0
  }

  // ---------------------------------------------------------------------
  // The order it stands for
  // ---------------------------------------------------------------------

  /** Dictionary order, where a proper prefix comes first. */
  predicate Before(a: seq<int>, b: seq<int>) {
    if b == [] then false
    else if a == [] then true
    else a[0] < b[0] || (a[0] == b[0] && Before(a[1..], b[1..]))
  }

  function Place(c: Column, d: Datum): seq<int> {
    match d
    case Null => [if c.nullsFirst then 0 else 2, 0]
    case Value(v) => [1, if c.desc then -v else v]
  }

  /** A tuple's position in the key space, from attribute i on. */
  function PositionFrom(cols: seq<Column>, t: Tuple, i: nat): seq<int>
    requires |t.atts| <= |cols| && i <= |t.atts|
    decreases |t.atts| - i
  {
    if i < |t.atts| then Place(cols[i], t.atts[i]) + PositionFrom(cols, t, i + 1)
    else if t.tid.At? then [t.tid.blk, t.tid.off] else []
  }

  function Position(cols: seq<Column>, t: Tuple): seq<int>
    requires |t.atts| <= |cols|
  {
    PositionFrom(cols, t, 0)
  }

  predicate Precedes(cols: seq<Column>, a: Tuple, b: Tuple)
    requires WellFormed(cols, a) && WellFormed(cols, b)
  {
    Before(Position(cols, a), Position(cols, b))
  }

  lemma BeforeStep(x: int, y: int, a: seq<int>, x': int, y': int, b: seq<int>)
    ensures Before([x, y] + a, [x', y'] + b) <==> x < x' || (x == x' && (y < y' || (y == y' && Before(a, b))))
  {
    assert ([x, y] + a)[1..] == [y] + a && ([y] + a)[1..] == a;
    assert ([x', y'] + b)[1..] == [y'] + b && ([y'] + b)[1..] == b;
  }

  /** The places of two attributes, and what lies behind them. */
  lemma PlaceStep(c: Column, d: Datum, a: seq<int>, d': Datum, b: seq<int>)
    ensures var r := CompareDatum(c, d, d');
      && (r < 0 ==> Before(Place(c, d) + a, Place(c, d') + b) && !Before(Place(c, d') + b, Place(c, d) + a))
      && (r > 0 ==> Before(Place(c, d') + b, Place(c, d) + a) && !Before(Place(c, d) + a, Place(c, d') + b))
      && (r == 0 ==> (Before(Place(c, d) + a, Place(c, d') + b) <==> Before(a, b)))
      && (r == 0 ==> (Before(Place(c, d') + b, Place(c, d) + a) <==> Before(b, a)))
  {
    var p, q := Place(c, d), Place(c, d');
    assert p == [p[0], p[1]] && q == [q[0], q[1]];
    BeforeStep(p[0], p[1], a, q[0], q[1], b);
    BeforeStep(q[0], q[1], b, p[0], p[1], a);
  }

  lemma TidStep(k: HeapTid, t: HeapTid)
    requires k.At? && t.At?
    ensures CompareTid(k, t) > 0 <==> Before([t.blk, t.off], [k.blk, k.off])
    ensures CompareTid(k, t) < 0 <==> Before([k.blk, k.off], [t.blk, t.off])
  {
    BeforeStep(k.blk, k.off, [], t.blk, t.off, []);
    BeforeStep(t.blk, t.off, [], k.blk, k.off, []);
    assert [k.blk, k.off] + [] == [k.blk, k.off] && [t.blk, t.off] + [] == [t.blk, t.off];
  }

  lemma {:induction false} CompareFromIsOrder(cols: seq<Column>, k: Tuple, t: Tuple, i: nat)
    requires WellFormed(cols, k) && WellFormed(cols, t) && i <= |k.atts| && i <= |t.atts|
    ensures CompareFrom(cols, k, t, i) > 0 <==> Before(PositionFrom(cols, t, i), PositionFrom(cols, k, i))
    ensures CompareFrom(cols, k, t, i) < 0 ==> Before(PositionFrom(cols, k, i), PositionFrom(cols, t, i))
    ensures CompareFrom(cols, k, t, i) == 0 ==>
      (Before(PositionFrom(cols, k, i), PositionFrom(cols, t, i)) <==>
        if |k.atts| == |t.atts| then k.tid.NoTid? && t.tid.At? else |k.atts| < |t.atts|)
    decreases |k.atts| - i
  {
    if i < |k.atts| && i < |t.atts| {
      CompareFromIsOrder(cols, k, t, i + 1);
      PlaceStep(cols[i], k.atts[i], PositionFrom(cols, k, i + 1), t.atts[i], PositionFrom(cols, t, i + 1));
    } else if k.tid.At? && t.tid.At? {
      TidStep(k.tid, t.tid);
    }
  }

  /** The three tests decide the dictionary order exactly. */
  lemma InvariantsAreOrder(cols: seq<Column>, k: Tuple, t: Tuple)
    requires WellFormed(cols, k) && WellFormed(cols, t)
    ensures InvariantL(cols, k, t) <==> Precedes(cols, k, t)
    ensures InvariantLeq(cols, k, t) <==> !Precedes(cols, t, k)
    ensures InvariantG(cols, k, t) <==> Precedes(cols, t, k)
  {
    CompareFromIsOrder(cols, k, t, 0);
    if Compare(cols, k, t) > 0 { BeforeAsymmetric(Position(cols, t), Position(cols, k)); }
  }

  lemma {:induction false} BeforeAsymmetric(a: seq<int>, b: seq<int>)
    requires Before(a, b)
    ensures !Before(b, a)
    decreases |a|
  {
    if a != [] && a[0] == b[0] { BeforeAsymmetric(a[1..], b[1..]); }
  }

  lemma {:induction false} BeforeTransitive(a: seq<int>, b: seq<int>, c: seq<int>)
    requires Before(a, b) && Before(b, c)
    ensures Before(a, c)
    decreases |a|
  {
    if a != [] && a[0] == b[0] == c[0] { BeforeTransitive(a[1..], b[1..], c[1..]); }
  }

  lemma {:induction false} BeforeTotal(a: seq<int>, b: seq<int>)
    ensures a == b || Before(a, b) || Before(b, a)
    decreases |a|
  {
    if a != [] && b != [] && a[0] == b[0] {
      BeforeTotal(a[1..], b[1..]);
      assert a == [a[0]] + a[1..] && b == [b[0]] + b[1..];
    }
  }

  lemma PrecedesTransitive(cols: seq<Column>, a: Tuple, b: Tuple, c: Tuple)
    requires WellFormed(cols, a) && WellFormed(cols, b) && WellFormed(cols, c)
    requires Precedes(cols, a, b) && Precedes(cols, b, c)
    ensures Precedes(cols, a, c)
  {
    BeforeTransitive(Position(cols, a), Position(cols, b), Position(cols, c));
  }
}
