/**
 What acceptance of a level says about the index: items in order along the level,
 the level below reached exactly through the downlinks, key ranges nested.
 */
module BtreeTheorems {
  import opened Maybes
  import opened BtreeKeys
  import opened BtreePages
  import opened BtreeSearches
  import opened BtreeLevels
  import opened BtreeTraces

  // ---------------------------------------------------------------------
  // Order along a level
  // ---------------------------------------------------------------------

  predicate Real(p: Page, off: nat) { FirstReal(p) <= off <= Max(p) }

  predicate HasReal(p: Page) { FirstReal(p) <= Max(p) }

  lemma RealWellFormed(cols: seq<Column>, idx: Index, p: Page, off: nat)
    requires Sane(p) && PageOk(cols, idx, p) && Real(p, off)
    ensures WellFormed(cols, Item(p, off)) && Key(cols, Item(p, off)) == Item(p, off) && ItemOk(cols, idx, p, off)
    ensures !NegInf(p, off)
  {
    assert ItemOk(cols, idx, p, off);
  }

  lemma {:induction false} PageInOrder(cols: seq<Column>, idx: Index, p: Page, a: nat, b: nat)
    requires Sane(p) && PageOk(cols, idx, p) && Real(p, a) && Real(p, b) && a < b
    ensures WellFormed(cols, Item(p, a)) && WellFormed(cols, Item(p, b)) && Precedes(cols, Item(p, a), Item(p, b))
    decreases b
  {
    RealWellFormed(cols, idx, p, b - 1);
    RealWellFormed(cols, idx, p, b);
    InvariantsAreOrder(cols, Item(p, b - 1), Item(p, b));
    if a < b - 1 {
      PageInOrder(cols, idx, p, a, b - 1);
      PrecedesTransitive(cols, Item(p, a), Item(p, b - 1), Item(p, b));
    }
  }

  /** An item is at most its page's high key; on internal pages it is below it. */
  lemma HighKeyBounds(cols: seq<Column>, idx: Index, p: Page, off: nat)
    requires Sane(p) && PageOk(cols, idx, p) && Real(p, off) && p.next != P_NONE
    ensures WellFormed(cols, Item(p, off)) && WellFormed(cols, HighKey(p))
    ensures !Precedes(cols, HighKey(p), Item(p, off))
    ensures !p.leaf ==> Precedes(cols, Item(p, off), HighKey(p))
  {
    RealWellFormed(cols, idx, p, off);
    InvariantsAreOrder(cols, Item(p, off), HighKey(p));
    if !p.leaf { BeforeAsymmetric(Position(cols, Item(p, off)), Position(cols, HighKey(p))); }
  }

  lemma NextPageIsAfter(cols: seq<Column>, idx: Index, p: Page)
    requires Sane(p) && PageOk(cols, idx, p) && HasReal(p) && p.next != P_NONE
    requires Loads(idx, p.next) && PageOk(cols, idx, idx[p.next]) && HasReal(idx[p.next])
    ensures var r := idx[p.next];
      && WellFormed(cols, Item(p, Max(p))) && WellFormed(cols, Item(r, FirstReal(r)))
      && Precedes(cols, Item(p, Max(p)), Item(r, FirstReal(r)))
  {
    var r := idx[p.next];
    RealWellFormed(cols, idx, p, Max(p));
    RealWellFormed(cols, idx, r, FirstReal(r));
    InvariantsAreOrder(cols, Item(r, FirstReal(r)), Item(p, Max(p)));
  }

  /** No page without keyed items lies between two pages that have some. */
  predicate NoGap(idx: Index, vs: seq<nat>) {
    forall i, j, k :: 0 <= i < j < k < |vs| && vs[i] in idx && vs[j] in idx && vs[k] in idx ==>
      HasReal(idx[vs[i]]) && HasReal(idx[vs[k]]) ==> HasReal(idx[vs[j]])
  }

  lemma LevelPage(cols: seq<Column>, idx: Index, level: int, vs: seq<nat>, t: Trace, i: nat)
    requires AcceptedLevel(cols, idx, level, vs, t) && i < |vs|
    ensures Loads(idx, vs[i]) && PageOk(cols, idx, idx[vs[i]]) && idx[vs[i]].level == level
    ensures idx[vs[i]].next == if i + 1 < |vs| then vs[i + 1] else P_NONE
    ensures level > 0 ==> ChildrenAbove(cols, idx, idx[vs[i]])
  {
    SiblingAt(idx, level, vs, i);
  }

  /** The step of LevelInOrder to the next page. */
  lemma NextPageItem(cols: seq<Column>, idx: Index, level: int, vs: seq<nat>, t: Trace, k: nat, b: nat)
    requires AcceptedLevel(cols, idx, level, vs, t) && 0 < k < |vs| && vs[k - 1] in idx && vs[k] in idx
    requires HasReal(idx[vs[k - 1]]) && Real(idx[vs[k]], b)
    ensures var p, r := idx[vs[k - 1]], idx[vs[k]];
      && WellFormed(cols, Item(p, Max(p))) && WellFormed(cols, Item(r, b)) && Precedes(cols, Item(p, Max(p)), Item(r, b))
  {
    var p, r := idx[vs[k - 1]], idx[vs[k]];
    LevelPage(cols, idx, level, vs, t, k - 1);
    LevelPage(cols, idx, level, vs, t, k);
    NextPageIsAfter(cols, idx, p);
    if b > FirstReal(r) {
      PageInOrder(cols, idx, r, FirstReal(r), b);
      PrecedesTransitive(cols, Item(p, Max(p)), Item(r, FirstReal(r)), Item(r, b));
    }
  }

  /** The two tuples have places in the key order, the first before the second. */
  predicate Ahead(cols: seq<Column>, s: Tuple, t: Tuple) {
    WellFormed(cols, s) && WellFormed(cols, t) && Precedes(cols, s, t)
  }

  /** The level's i-th page has a keyed item at offset `a`. */
  predicate KeyedAt(idx: Index, vs: seq<nat>, i: nat, a: nat) { i < |vs| && vs[i] in idx && Real(idx[vs[i]], a) }

  /** All keyed items of a level increase strictly from left to right. */
  ghost predicate InOrder(cols: seq<Column>, idx: Index, vs: seq<nat>) {
    forall i: nat, a: nat, k: nat, b: nat ::
      KeyedAt(idx, vs, i, a) && KeyedAt(idx, vs, k, b) && (i < k || (i == k && a < b)) ==>
        Ahead(cols, Item(idx[vs[i]], a), Item(idx[vs[k]], b))
  }

  /** Pages i and k have keyed items, and the pages between them, of which there are some, have none. */
  predicate Spans(idx: Index, vs: seq<nat>, i: nat, k: nat) {
    && i + 1 < k < |vs| && vs[i] in idx && vs[k] in idx && HasReal(idx[vs[i]]) && HasReal(idx[vs[k]])
    && forall j :: i < j < k ==> vs[j] in idx && !HasReal(idx[vs[j]])
  }

  /** The comparisons the check leaves out because a right sibling has no keyed item. */
  predicate GapsInOrder(cols: seq<Column>, idx: Index, vs: seq<nat>) {
    forall i, k :: 0 <= i < k < |vs| && Spans(idx, vs, i, k) ==>
      var p, r := idx[vs[i]], idx[vs[k]];
      Ahead(cols, Item(p, Max(p)), Item(r, FirstReal(r)))
  }

  /** The last page before k that has keyed items. */
  lemma {:induction false} PreviousReal(idx: Index, vs: seq<nat>, i: nat, k: nat) returns (j: nat)
    requires i < k <= |vs| && (forall m :: 0 <= m < |vs| ==> vs[m] in idx) && HasReal(idx[vs[i]])
    ensures i <= j < k && HasReal(idx[vs[j]]) && forall m :: j < m < k ==> !HasReal(idx[vs[m]])
    decreases k
  {
    if HasReal(idx[vs[k - 1]]) { j := k - 1; } else { j := PreviousReal(idx, vs, i, k - 1); }
  }

  /** From the last item of page j to an item of page k, over pages without keyed items. */
  lemma OverGap(cols: seq<Column>, idx: Index, level: int, vs: seq<nat>, t: Trace, j: nat, k: nat, b: nat)
    requires AcceptedLevel(cols, idx, level, vs, t) && j < k < |vs| && vs[j] in idx && vs[k] in idx
    requires HasReal(idx[vs[j]]) && Real(idx[vs[k]], b)
    requires j + 1 < k ==> Ahead(cols, Item(idx[vs[j]], Max(idx[vs[j]])), Item(idx[vs[k]], FirstReal(idx[vs[k]])))
    ensures Ahead(cols, Item(idx[vs[j]], Max(idx[vs[j]])), Item(idx[vs[k]], b))
  {
    if j + 1 == k {
      NextPageItem(cols, idx, level, vs, t, k, b);
    } else {
      var p, r := idx[vs[j]], idx[vs[k]];
      LevelPage(cols, idx, level, vs, t, k);
      if b > FirstReal(r) {
        PageInOrder(cols, idx, r, FirstReal(r), b);
        PrecedesTransitive(cols, Item(p, Max(p)), Item(r, FirstReal(r)), Item(r, b));
      }
    }
  }

  lemma {:induction false} ItemsInOrder(cols: seq<Column>, idx: Index, level: int, vs: seq<nat>, t: Trace,
                                        i: nat, a: nat, k: nat, b: nat)
    requires AcceptedLevel(cols, idx, level, vs, t) && GapsInOrder(cols, idx, vs)
    requires KeyedAt(idx, vs, i, a) && KeyedAt(idx, vs, k, b) && (i < k || (i == k && a < b))
    ensures Ahead(cols, Item(idx[vs[i]], a), Item(idx[vs[k]], b))
    decreases k
  {
    LevelPage(cols, idx, level, vs, t, k);
    if i == k {
      PageInOrder(cols, idx, idx[vs[k]], a, b);
    } else {
      forall m | 0 <= m < |vs| ensures vs[m] in idx { LevelPage(cols, idx, level, vs, t, m); }
      var j := PreviousReal(idx, vs, i, k);
      if j + 1 < k { assert Spans(idx, vs, j, k); }
      OverGap(cols, idx, level, vs, t, j, k, b);
      var q := idx[vs[j]];
      if i < j || a < Max(q) {
        ItemsInOrder(cols, idx, level, vs, t, i, a, j, Max(q));
        PrecedesTransitive(cols, Item(idx[vs[i]], a), Item(q, Max(q)), Item(idx[vs[k]], b));
      }
    }
  }

  /**
   The exact condition: all keyed items of an accepted level increase strictly if and only
   if they do across each run of pages without keyed items.
   */
  lemma LevelInOrderIff(cols: seq<Column>, idx: Index, level: int, vs: seq<nat>, t: Trace)
    requires AcceptedLevel(cols, idx, level, vs, t)
    ensures InOrder(cols, idx, vs) <==> GapsInOrder(cols, idx, vs)
  {
    if GapsInOrder(cols, idx, vs) {
      forall i: nat, a: nat, k: nat, b: nat
        | KeyedAt(idx, vs, i, a) && KeyedAt(idx, vs, k, b) && (i < k || (i == k && a < b))
        ensures Ahead(cols, Item(idx[vs[i]], a), Item(idx[vs[k]], b))
      {
        ItemsInOrder(cols, idx, level, vs, t, i, a, k, b);
      }
    }
    if InOrder(cols, idx, vs) {
      forall i, k | 0 <= i < k < |vs| && Spans(idx, vs, i, k)
        ensures var p, r := idx[vs[i]], idx[vs[k]]; Ahead(cols, Item(p, Max(p)), Item(r, FirstReal(r)))
      {
        assert KeyedAt(idx, vs, i, Max(idx[vs[i]])) && KeyedAt(idx, vs, k, FirstReal(idx[vs[k]]));
      }
    }
  }

  lemma NoSpan(idx: Index, vs: seq<nat>, i: nat, k: nat)
    requires NoGap(idx, vs) && i < k < |vs|
    ensures !Spans(idx, vs, i, k)
  {
    if i + 1 < k { assert vs[i + 1] in idx || vs[i + 1] !in idx; }
  }

  /** In particular if no page without keyed items lies between pages with some. */
  lemma LevelInOrder(cols: seq<Column>, idx: Index, level: int, vs: seq<nat>, t: Trace)
    requires AcceptedLevel(cols, idx, level, vs, t) && NoGap(idx, vs)
    ensures InOrder(cols, idx, vs)
  {
    forall i, k | 0 <= i < k < |vs| ensures !Spans(idx, vs, i, k) { NoSpan(idx, vs, i, k); }
    LevelInOrderIff(cols, idx, level, vs, t);
  }

  /** Three levels; the leaves hold 4, nothing and 1. */
  function GapIndex(): Index {
    var five, ten := Tuple([Value(5)], NoTid, 5), Tuple([Value(10)], NoTid, 3);
    map[1 := Page(0, 0, 2, false, true, false, [Tuple([], NoTid, 2), ten]),
        2 := Page(0, 3, 1, false, false, false, [ten, Tuple([], NoTid, 4), five]),
        3 := Page(2, 0, 1, false, false, false, [Tuple([], NoTid, 6)]),
        4 := Page(0, 5, 0, true, false, false, [five, Tuple([Value(4)], At(7, 1), 0)]),
        5 := Page(4, 6, 0, true, false, false, [ten]),
        6 := Page(5, 0, 0, true, false, false, [Tuple([Value(1)], At(7, 2), 0)])]
  }

  const ASCENDING := [Column(false, true)]

  lemma GapRoot()
    ensures LevelResult(ASCENDING, GapIndex(), 1, 2, true) == Level(Accepted, [1])
  {
    var cols, idx := ASCENDING, GapIndex();
    var p, at2, at3 := idx[1], Cursor(Just(3), false), Cursor(Just(P_NONE), false);
    assert SearchResult(Search(idx, p, Nothing, 1, LEVEL_START)) == Found(Accepted, at2);
    assert SearchResult(Search(idx, p, Nothing, 2, at2)) == Found(Accepted, at3);
    assert SearchResult(Search(idx, p, Nothing, 0, at3)) == Found(Accepted, LEVEL_START);
    assert ItemOk(cols, idx, p, 1) && ItemOk(cols, idx, p, 2) && ChildAbove(cols, idx, Item(p, 2));
    assert ItemsResult(cols, idx, p, Nothing, 3, at3) == Found(Accepted, at3);
    assert ItemsResult(cols, idx, p, Nothing, 2, at2) == Found(Accepted, at3);
    assert PageResult(cols, idx, p, Nothing, LEVEL_START) == Found(Accepted, LEVEL_START);
    assert [] + [1] == [1];
  }

  lemma GapLeftPage()
    ensures PageResult(ASCENDING, GapIndex(), GapIndex()[2], Nothing, LEVEL_START) == Found(Accepted, Cursor(Just(6), false))
  {
    var cols, idx := ASCENDING, GapIndex();
    var p, at4, at5 := idx[2], Cursor(Just(5), false), Cursor(Just(6), false);
    assert SearchResult(Search(idx, p, Nothing, 2, LEVEL_START)) == Found(Accepted, at4);
    assert SearchResult(Search(idx, p, Nothing, 3, at4)) == Found(Accepted, at5);
    assert ItemOk(cols, idx, p, 2) && ItemOk(cols, idx, p, 3) && ChildAbove(cols, idx, Item(p, 3));
    assert ItemsResult(cols, idx, p, Nothing, 3, at4) == Found(Accepted, at5);
  }

  lemma GapRightPage(low: Maybe<Tuple>)
    ensures PageResult(ASCENDING, GapIndex(), GapIndex()[3], low, Cursor(Just(6), false)) == Found(Accepted, LEVEL_START)
  {
    var cols, idx := ASCENDING, GapIndex();
    var r, at5, at6 := idx[3], Cursor(Just(6), false), Cursor(Just(P_NONE), false);
    assert SearchResult(Search(idx, r, low, 1, at5)) == Found(Accepted, at6);
    assert SearchResult(Search(idx, r, low, 0, at6)) == Found(Accepted, LEVEL_START);
    assert ItemOk(cols, idx, r, 1);
    assert ItemsResult(cols, idx, r, low, 2, at6) == Found(Accepted, at6);
  }

  lemma GapInner()
    ensures LevelResult(ASCENDING, GapIndex(), 2, 1, false) == Level(Accepted, [2, 3])
  {
    var cols, idx, at5 := ASCENDING, GapIndex(), Cursor(Just(6), false);
    GapLeftPage();
    GapRightPage(LowKey(idx[2]));
    assert [] + [2] == [2] && [2] + [3] == [2, 3];
    VisitedAppend(idx, 1, false, [], 2);
    VisitedAppend(idx, 1, false, [2], 3);
    assert LevelFrom(cols, idx, 1, false, [2], 3, LowKey(idx[2]), at5) == Level(Accepted, [2, 3]);
  }

  lemma GapLeaves()
    ensures LevelResult(ASCENDING, GapIndex(), 4, 0, false) == Level(Accepted, [4, 5, 6])
  {
    var cols, idx := ASCENDING, GapIndex();
    assert ItemOk(cols, idx, idx[4], 2) && ItemOk(cols, idx, idx[6], 1);
    assert PageOk(cols, idx, idx[4]) && PageOk(cols, idx, idx[5]) && PageOk(cols, idx, idx[6]);
    assert [] + [4] == [4] && [4] + [5] == [4, 5] && [4, 5] + [6] == [4, 5, 6];
    VisitedAppend(idx, 0, false, [], 4);
    VisitedAppend(idx, 0, false, [4], 5);
    VisitedAppend(idx, 0, false, [4, 5], 6);
    assert LevelFrom(cols, idx, 0, false, [4, 5], 6, LowKey(idx[5]), LEVEL_START) == Level(Accepted, [4, 5, 6]);
    assert LevelFrom(cols, idx, 0, false, [4], 5, LowKey(idx[4]), LEVEL_START) == Level(Accepted, [4, 5, 6]);
  }

  lemma GapIsDisorder()
    ensures Precedes(ASCENDING, Item(GapIndex()[6], 1), Item(GapIndex()[4], 2)) && !InOrder(ASCENDING, GapIndex(), [4, 5, 6])
  {
    var cols, idx := ASCENDING, GapIndex();
    InvariantsAreOrder(cols, Item(idx[6], 1), Item(idx[4], 2));
    BeforeAsymmetric(Position(cols, Item(idx[6], 1)), Position(cols, Item(idx[4], 2)));
    assert KeyedAt(idx, [4, 5, 6], 0, 2) && KeyedAt(idx, [4, 5, 6], 2, 1);
  }

  /** One accepted level, and the levels below. */
  lemma IndexStep(cols: seq<Column>, idx: Index, leftmost: nat, level: nat, trueRoot: bool, pages: seq<nat>, below: Checked)
    requires leftmost != P_NONE && LevelResult(cols, idx, leftmost, level, trueRoot) == Level(Accepted, pages)
    requires below == if level == 0 then Checked(Accepted, []) else IndexFrom(cols, idx, LevelDown(idx, leftmost), level - 1, false)
    ensures IndexFrom(cols, idx, leftmost, level, trueRoot) == Checked(below.verdict, [pages] + below.levels)
  {
  }

  lemma GapBelow()
    ensures IndexFrom(ASCENDING, GapIndex(), 4, 0, false) == Checked(Accepted, [[4, 5, 6]])
  {
    GapLeaves();
    IndexStep(ASCENDING, GapIndex(), 4, 0, false, [4, 5, 6], Checked(Accepted, []));
    assert [[4, 5, 6]] + [] == [[4, 5, 6]];
  }

  lemma GapBelowRoot()
    ensures IndexFrom(ASCENDING, GapIndex(), 2, 1, false) == Checked(Accepted, [[2, 3], [4, 5, 6]])
  {
    GapInner();
    GapBelow();
    IndexStep(ASCENDING, GapIndex(), 2, 1, false, [2, 3], Checked(Accepted, [[4, 5, 6]]));
    assert [[2, 3]] + [[4, 5, 6]] == [[2, 3], [4, 5, 6]];
  }

  lemma GapIsAccepted()
    ensures IndexResult(ASCENDING, GapIndex(), 1, 2) == Checked(Accepted, [[1], [2, 3], [4, 5, 6]])
  {
    GapRoot();
    GapBelowRoot();
    IndexStep(ASCENDING, GapIndex(), 1, 2, true, [1], Checked(Accepted, [[2, 3], [4, 5, 6]]));
    assert [[1]] + [[2, 3], [4, 5, 6]] == [[1], [2, 3], [4, 5, 6]];
  }

  lemma GapIsPlain()
    ensures Plain(GapIndex(), 0) && Plain(GapIndex(), 1)
  {
    var idx := GapIndex();
    forall b | b in idx && idx[b].level < 2 ensures !idx[b].root && !idx[b].split { assert b in {1, 2, 3, 4, 5, 6}; }
  }

  /** A page without items hides disorder: the check of the whole index accepts it although 4 stands left of 1. */
  lemma EmptyPageHidesDisorder()
    ensures IndexResult(ASCENDING, GapIndex(), 1, 2) == Checked(Accepted, [[1], [2, 3], [4, 5, 6]])
    ensures Plain(GapIndex(), 0) && Plain(GapIndex(), 1)
    ensures Precedes(ASCENDING, Item(GapIndex()[6], 1), Item(GapIndex()[4], 2)) && !InOrder(ASCENDING, GapIndex(), [4, 5, 6])
  {
    GapIsAccepted();
    GapIsPlain();
    GapIsDisorder();
  }

  // ---------------------------------------------------------------------
  // The level below
  // ---------------------------------------------------------------------

  function LevelLinks(idx: Index, vs: seq<nat>): seq<nat> {
    if vs == [] then []
    else
      var n := |vs| - 1;
      LevelLinks(idx, vs[..n]) + if Loads(idx, vs[n]) then Downlinks(idx[vs[n]], Max(idx[vs[n]]) + 1) else []
  }

  lemma {:induction false} StripLinks(t: Trace)
    ensures Links(Strip(t)) == Links(t)
  {
    if t.Skip? { StripLinks(t.rest); }
  }

  lemma {:induction false} UnwalkLinks(p: Page, off: nat, t: Trace)
    requires Sane(p) && First(p) <= off <= Max(p) + 1 && Unwalk(p, off, t).Just?
    ensures Links(t) == Links(Unwalk(p, off, t).value) + Downlinks(p, off)
    decreases off
  {
    if off > First(p) {
      UnwalkLinks(p, off - 1, Strip(t.rest));
      StripLinks(t.rest);
    }
  }

  /** The walk below meets the level's downlinks, concatenated from left to right. */
  lemma {:induction false} TraceLinks(idx: Index, vs: seq<nat>, t: Trace)
    requires LevelTrace(idx, vs, t)
    ensures Links(t) == LevelLinks(idx, vs)
    decreases |vs|
  {
    if vs != [] {
      var n := |vs| - 1;
      var p := idx[vs[n]];
      UnwalkLinks(p, Max(p) + 1, t);
      TraceLinks(idx, vs[..n], Unwalk(p, Max(p) + 1, t).value);
    }
  }

  /** Blocks linked to the right, from a leftmost page to the end of the level. */
  predicate RightLinked(idx: Index, level: int, bs: seq<nat>) {
    bs != [] ==>
      var n := |bs| - 1;
      && RightLinked(idx, level, bs[..n]) && Loads(idx, bs[n]) && idx[bs[n]].level == level
      && if n == 0 then idx[bs[n]].prev == P_NONE else bs[n - 1] in idx && idx[bs[n - 1]].next == bs[n]
  }

  predicate WholeLevel(idx: Index, level: int, bs: seq<nat>) {
    bs != [] && RightLinked(idx, level, bs) && idx[Last(bs)].next == P_NONE
  }

  lemma {:induction false} TraceIsLinked(idx: Index, level: int, t: Trace)
    requires InStep(idx, level, t) && P_NONE !in Links(t)
    ensures RightLinked(idx, level, Walked(t))
    ensures !t.Start? ==> Walked(t) != [] && Last(Walked(t)) == t.blk
  {
    if !t.Start? {
      TraceIsLinked(idx, level, t.rest);
      assert Walked(t)[..|Walked(t)| - 1] == Walked(t.rest);
    }
  }

  lemma {:induction false} PlainBlocks(idx: Index, level: int, t: Trace)
    requires InStep(idx, level, t) && Plain(idx, level)
    ensures Walked(t) == Links(t)
  {
    if !t.Start? { PlainBlocks(idx, level, t.rest); }
  }

  /** A child block without a downlink is a root page or follows an interrupted split. */
  lemma {:induction false} SkippedIsExcused(idx: Index, level: int, t: Trace, i: nat)
    requires InStep(idx, level, t) && i < |Walked(t)|
    ensures var bs := Walked(t);
      bs[i] in Links(t) || (bs[i] in idx && (idx[bs[i]].root || (i > 0 && bs[i - 1] in idx && idx[bs[i - 1]].split)))
  {
    if i < |Walked(t.rest)| { SkippedIsExcused(idx, level, t.rest, i); }
  }

  lemma {:induction false} WholeLevelAt(idx: Index, level: int, bs: seq<nat>, i: nat)
    requires RightLinked(idx, level, bs) && i < |bs|
    ensures Loads(idx, bs[i]) && (i + 1 < |bs| ==> idx[bs[i]].next == bs[i + 1])
    decreases |bs|
  {
    if i < |bs| - 1 { WholeLevelAt(idx, level, bs[..|bs| - 1], i); }
  }

  lemma {:induction false} SamePrefix(idx: Index, level: int, as_: seq<nat>, bs: seq<nat>, i: nat)
    requires RightLinked(idx, level, as_) && RightLinked(idx, level, bs) && i < |as_| && i < |bs| && as_[0] == bs[0]
    ensures as_[i] == bs[i]
  {
    if i > 0 {
      SamePrefix(idx, level, as_, bs, i - 1);
      WholeLevelAt(idx, level, as_, i - 1);
      WholeLevelAt(idx, level, bs, i - 1);
    }
  }

  /** A level is determined by its leftmost block. */
  lemma WholeLevelUnique(idx: Index, level: int, as_: seq<nat>, bs: seq<nat>)
    requires WholeLevel(idx, level, as_) && WholeLevel(idx, level, bs) && as_[0] == bs[0]
    ensures as_ == bs
  {
    var n := if |as_| < |bs| then |as_| else |bs|;
    SamePrefix(idx, level, as_, bs, n - 1);
    WholeLevelAt(idx, level, as_, n - 1);
    WholeLevelAt(idx, level, bs, n - 1);
    if n < |as_| { WholeLevelAt(idx, level, as_, n); }
    if n < |bs| { WholeLevelAt(idx, level, bs, n); }
    forall i | 0 <= i < n ensures as_[i] == bs[i] { SamePrefix(idx, level, as_, bs, i); }
  }

  lemma {:induction false} RightLinkedLoads(idx: Index, level: int, bs: seq<nat>)
    requires RightLinked(idx, level, bs)
    ensures P_NONE !in bs
  {
    forall i | 0 <= i < |bs| ensures bs[i] != P_NONE { WholeLevelAt(idx, level, bs, i); }
  }

  lemma LinksNonEmpty(idx: Index, vs: seq<nat>)
    requires vs != [] && Loads(idx, Last(vs)) && !idx[Last(vs)].leaf
    ensures LevelLinks(idx, vs) != []
  {
  }

  /**
   The lockstep check is exact.  On a level whose children have no root flag and no
   interrupted split, acceptance means that the downlinks, left to right, are the whole
   level below, if and only if no downlink names block 0.
   */
  lemma LockstepIsExact(cols: seq<Column>, idx: Index, level: int, vs: seq<nat>, t: Trace)
    requires AcceptedLevel(cols, idx, level, vs, t) && level > 0 && Plain(idx, level - 1)
    ensures WholeLevel(idx, level - 1, LevelLinks(idx, vs)) <==> P_NONE !in LevelLinks(idx, vs)
  {
    TraceLinks(idx, vs, Strip(t));
    StripLinks(t);
    if P_NONE !in LevelLinks(idx, vs) {
      PlainBlocks(idx, level - 1, t);
      TraceIsLinked(idx, level - 1, t);
      LevelPage(cols, idx, level, vs, t, |vs| - 1);
      LinksNonEmpty(idx, vs);
    } else if WholeLevel(idx, level - 1, LevelLinks(idx, vs)) {
      RightLinkedLoads(idx, level - 1, LevelLinks(idx, vs));
    }
  }

  lemma {:induction false} SiblingsRightLinked(idx: Index, level: int, vs: seq<nat>)
    requires Siblings(idx, level, vs)
    ensures RightLinked(idx, level, vs)
    decreases |vs|
  {
    if vs != [] { SiblingsRightLinked(idx, level, vs[..|vs| - 1]); }
  }

  lemma {:induction false} FirstLink(idx: Index, vs: seq<nat>)
    requires vs != [] && (forall i :: 0 <= i < |vs| ==> Loads(idx, vs[i]) && !idx[vs[i]].leaf)
    ensures LevelLinks(idx, vs) != [] && LevelLinks(idx, vs)[0] == LevelDown(idx, vs[0])
    decreases |vs|
  {
    var n := |vs| - 1;
    if n > 0 {
      FirstLink(idx, vs[..n]);
    } else {
      var p := idx[vs[0]];
      assert vs[..0] == [];
      FirstDownlink(p, Max(p) + 1);
    }
  }

  lemma {:induction false} FirstDownlink(p: Page, off: nat)
    requires First(p) < off <= Max(p) + 1
    ensures Downlinks(p, off) != [] && Downlinks(p, off)[0] == Item(p, First(p)).downlink
  {
    if off > First(p) + 1 { FirstDownlink(p, off - 1); }
  }

  /** Two accepted levels, one below the other: the lower one is the upper one's downlinks. */
  lemma NextLevelIsDownlinks(cols: seq<Column>, idx: Index, level: int, vs: seq<nat>, t: Trace, ws: seq<nat>, u: Trace)
    requires AcceptedLevel(cols, idx, level, vs, t) && level > 0 && Plain(idx, level - 1)
    requires P_NONE !in LevelLinks(idx, vs)
    requires AcceptedLevel(cols, idx, level - 1, ws, u) && ws[0] == LevelDown(idx, vs[0])
    ensures ws == LevelLinks(idx, vs)
  {
    LockstepIsExact(cols, idx, level, vs, t);
    SiblingsRightLinked(idx, level - 1, ws);
    forall i | 0 <= i < |vs| ensures Loads(idx, vs[i]) && !idx[vs[i]].leaf { LevelPage(cols, idx, level, vs, t, i); }
    FirstLink(idx, vs);
    WholeLevelUnique(idx, level - 1, ws, LevelLinks(idx, vs));
  }

  /** The same for the results of the check. */
  lemma OneLevelDown(cols: seq<Column>, idx: Index, leftmost: nat, level: nat, trueRoot: bool)
    requires leftmost != P_NONE && level > 0 && LevelDown(idx, leftmost) != P_NONE && Plain(idx, level - 1)
    requires LevelResult(cols, idx, leftmost, level, trueRoot).verdict == Accepted
    requires LevelResult(cols, idx, LevelDown(idx, leftmost), level - 1, false).verdict == Accepted
    requires P_NONE !in LevelLinks(idx, LevelResult(cols, idx, leftmost, level, trueRoot).pages)
    ensures LevelResult(cols, idx, LevelDown(idx, leftmost), level - 1, false).pages
         == LevelLinks(idx, LevelResult(cols, idx, leftmost, level, trueRoot).pages)
  {
    var vs := LevelResult(cols, idx, leftmost, level, trueRoot).pages;
    var ws := LevelResult(cols, idx, LevelDown(idx, leftmost), level - 1, false).pages;
    var t := WalkBelow(cols, idx, leftmost, level, trueRoot);
    var u := WalkBelow(cols, idx, LevelDown(idx, leftmost), level - 1, false);
    NextLevelIsDownlinks(cols, idx, level, vs, t, ws, u);
  }

  /** In an index accepted from the root down, each level consists of the downlinks of the one above. */
  lemma {:induction false} EveryLevelIsDownlinks(cols: seq<Column>, idx: Index, leftmost: nat, level: nat, trueRoot: bool, k: nat)
    requires var r := IndexFrom(cols, idx, leftmost, level, trueRoot);
      r.verdict == Accepted && 0 < k < |r.levels| && Plain(idx, level - k) && P_NONE !in LevelLinks(idx, r.levels[k - 1])
    ensures var r := IndexFrom(cols, idx, leftmost, level, trueRoot); r.levels[k] == LevelLinks(idx, r.levels[k - 1])
    decreases level
  {
    if k == 1 {
      OneLevelDown(cols, idx, leftmost, level, trueRoot);
    } else {
      EveryLevelIsDownlinks(cols, idx, LevelDown(idx, leftmost), level - 1, false, k - 1);
    }
  }

  // ---------------------------------------------------------------------
  // Circles and null downlinks
  // ---------------------------------------------------------------------

  /** A root whose only downlink names block 0. */
  function NullIndex(): Index {
    map[1 := Page(0, 0, 1, false, true, false, [Tuple([], NoTid, P_NONE)])]
  }

  /** The check of the whole index accepts it, although there is no level below. */
  lemma NullDownlinkIsAccepted(cols: seq<Column>)
    ensures IndexResult(cols, NullIndex(), 1, 1) == Checked(Accepted, [[1]]) && LevelLinks(NullIndex(), [1]) == [P_NONE]
  {
    var idx := NullIndex();
    var p := idx[1];
    assert SearchResult(Search(idx, p, Nothing, 1, LEVEL_START)) == Found(Accepted, LEVEL_START);
    assert SearchResult(Search(idx, p, Nothing, 0, LEVEL_START)) == Found(Accepted, LEVEL_START);
    assert ItemsResult(cols, idx, p, Nothing, 2, LEVEL_START) == Found(Accepted, LEVEL_START);
    assert PageResult(cols, idx, p, Nothing, LEVEL_START) == Found(Accepted, LEVEL_START);
    assert [] + [1] == [1];
    assert LevelFrom(cols, idx, 1, true, [], 1, Nothing, LEVEL_START) == Level(Accepted, [1]);
    assert IndexFrom(cols, idx, P_NONE, 0, false) == Checked(Accepted, []);
    assert [1][..0] == [];
    assert Downlinks(p, 2) == [P_NONE];
  }

  /** A root with downlinks to 2 and 9; right links lead from 2 to 3, 4, 5 and back to 4, and every split was interrupted. */
  function CircleIndex(): Index {
    var high := Tuple([Value(7)], NoTid, 0);
    map[1 := Page(0, 0, 1, false, true, false, [Tuple([], NoTid, 2), Tuple([Value(9)], NoTid, 9)]),
        2 := Page(0, 3, 0, true, false, true, [high]),
        3 := Page(2, 4, 0, true, false, true, [high]),
        4 := Page(3, 5, 0, true, false, true, [high]),
        5 := Page(4, 4, 0, true, false, true, [high]),
        9 := Page(5, 0, 0, true, false, false, [])]
  }

  /** The search for block 9. */
  function CircleSearch(): Search {
    Search(CircleIndex(), CircleIndex()[1], Nothing, 2, Cursor(Just(3), true))
  }

  lemma CircleNeverEnds()
    ensures Valid(CircleSearch()) && NeverEnds(CircleSearch())
  {
    var s := CircleSearch();
    assert SpotAt(s, 0) == Spot(3, true, true) && Goes(s, SpotAt(s, 0));
    assert SpotAt(s, 1) == Spot(4, true, false) && Goes(s, SpotAt(s, 1));
    assert SpotAt(s, 2) == Spot(5, true, false) && Goes(s, SpotAt(s, 2));
    assert SpotAt(s, 3) == Spot(4, true, false);
    assert GoesOn(s, 1) && GoesOn(s, 2) && GoesOn(s, 3);
    assert Repeats(s, 1, 3);
    EndlessIff(s);
  }

  /** The check of this index never ends: with any number of turns the search for block 9 is still under way. */
  lemma CircleIsEndless(turns: nat)
    ensures IndexResult([Column(false, true)], CircleIndex(), 1, 1).verdict == Endless
    ensures Look(CircleSearch(), StartSpot(CircleSearch()), turns).verdict == Endless
  {
    var cols, idx := [Column(false, true)], CircleIndex();
    var p := idx[1];
    CircleNeverEnds();
    TurnsSuffice(CircleSearch(), turns);
    assert Passes(Search(idx, p, Nothing, 1, LEVEL_START), Spot(2, false, true));
    assert SearchResult(Search(idx, p, Nothing, 1, LEVEL_START)) == Found(Accepted, Cursor(Just(3), true));
    assert ItemOk(cols, idx, p, 1) && ItemOk(cols, idx, p, 2);
    assert ItemsResult(cols, idx, p, Nothing, 2, Cursor(Just(3), true)).verdict == Endless;
    assert PageResult(cols, idx, p, Nothing, LEVEL_START).verdict == Endless;
    assert LevelFrom(cols, idx, 1, true, [], 1, Nothing, LEVEL_START).verdict == Endless;
  }

  // ---------------------------------------------------------------------
  // Key ranges
  // ---------------------------------------------------------------------

  lemma {:induction false} UnwalkFits(idx: Index, level: int, p: Page, off: nat, t: Trace, o: nat)
    requires Sane(p) && First(p) <= o < off <= Max(p) + 1 && Unwalk(p, off, t).Just? && InStep(idx, level, t)
    ensures var b := Item(p, o).downlink; b != P_NONE ==> Loads(idx, b) && idx[b].level == level && HighKeyFits(idx[b], SepAfter(p, o))
    decreases off
  {
    if o < off - 1 {
      StripInStep(idx, level, t.rest);
      UnwalkFits(idx, level, p, off - 1, Strip(t.rest), o);
    }
  }

  /** Each downlink's block has the next separator as its high key. */
  lemma {:induction false} LinkFits(idx: Index, level: int, vs: seq<nat>, t: Trace, i: nat, off: nat)
    requires LevelTrace(idx, vs, t) && InStep(idx, level, t) && i < |vs| && Loads(idx, vs[i])
    requires First(idx[vs[i]]) <= off <= Max(idx[vs[i]])
    ensures var b := Item(idx[vs[i]], off).downlink;
      b != P_NONE ==> Loads(idx, b) && idx[b].level == level && HighKeyFits(idx[b], SepAfter(idx[vs[i]], off))
    decreases |vs|
  {
    var n := |vs| - 1;
    var p := idx[vs[n]];
    if i == n {
      UnwalkFits(idx, level, p, Max(p) + 1, t, off);
    } else {
      UnwalkInStep(idx, level, p, Max(p) + 1, t);
      LinkFits(idx, level, vs[..n], Unwalk(p, Max(p) + 1, t).value, i, off);
    }
  }

  /**
   A child's keyed items lie between the separators around its downlink: above the
   downlink's own key, and at most the next separator (below it on internal levels).
   */
  lemma KeyRangesNest(cols: seq<Column>, idx: Index, level: int, vs: seq<nat>, t: Trace, i: nat, off: nat, co: nat)
    requires AcceptedLevel(cols, idx, level, vs, t) && level > 0 && i < |vs| && vs[i] in idx
    requires First(idx[vs[i]]) <= off <= Max(idx[vs[i]])
    requires Item(idx[vs[i]], off).downlink != P_NONE && Item(idx[vs[i]], off).downlink in idx
    requires var c := idx[Item(idx[vs[i]], off).downlink]; Sane(c) && PageOk(cols, idx, c) && Real(c, co)
    ensures var p := idx[vs[i]]; var c := idx[Item(p, off).downlink];
      && WellFormed(cols, Item(c, co))
      && (off > First(p) ==> WellFormed(cols, Item(p, off)) && Precedes(cols, Item(p, off), Item(c, co)))
      && (c.next != P_NONE && !c.split && Sane(p) ==>
           && SepAfter(p, off).Just? && WellFormed(cols, SepAfter(p, off).value)
           && !Precedes(cols, SepAfter(p, off).value, Item(c, co))
           && (!c.leaf ==> Precedes(cols, Item(c, co), SepAfter(p, off).value)))
  {
    var p := idx[vs[i]];
    var c := idx[Item(p, off).downlink];
    LevelPage(cols, idx, level, vs, t, i);
    StripInStep(idx, level - 1, t);
    LinkFits(idx, level - 1, vs, Strip(t), i, off);
    RealWellFormed(cols, idx, c, co);
    if off > First(p) {
      RealWellFormed(cols, idx, p, off);
      assert ChildAbove(cols, idx, Item(p, off));
      InvariantsAreOrder(cols, Item(p, off), Item(c, co));
    }
    if c.next != P_NONE && !c.split {
      HighKeyBounds(cols, idx, c, co);
      SamePosition(cols, HighKey(c), SepAfter(p, off).value);
    }
  }

  lemma SamePosition(cols: seq<Column>, a: Tuple, b: Tuple)
    requires WellFormed(cols, a) && Identical(a, b)
    ensures WellFormed(cols, b) && Position(cols, a) == Position(cols, b)
  {
    SamePositionFrom(cols, a, b, 0);
  }

  lemma {:induction false} SamePositionFrom(cols: seq<Column>, a: Tuple, b: Tuple, i: nat)
    requires WellFormed(cols, a) && Identical(a, b) && i <= |a.atts|
    ensures PositionFrom(cols, a, i) == PositionFrom(cols, b, i)
    decreases |a.atts| - i
  {
    if i < |a.atts| { SamePositionFrom(cols, a, b, i + 1); }
  }
}
