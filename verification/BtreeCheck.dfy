/**
 The structural verifier of a B-tree index, with nothing else running: the walk
 along one level, the checks of each page on it, and the lockstep walk of the
 level below.  Each method computes the result that the specification gives.
 */
module BtreeChecks {
  import opened Maybes
  import opened BtreeKeys
  import opened BtreePages
  import opened BtreeSearches
  import opened BtreeLevels
  import opened BtreeTraces

  class Checker {
    const cols: seq<Column>
    const idx: Index
    var target: Page
    var lowkey: Maybe<Tuple>
    var prevrightlink: Maybe<nat>
    var previncompletesplit: bool

    constructor (cols: seq<Column>, idx: Index, root: Page)
      ensures this.cols == cols && this.idx == idx && target == root && lowkey == Nothing && Position() == LEVEL_START
    {
      this.cols, this.idx, target := cols, idx, root;
      lowkey, prevrightlink, previncompletesplit := Nothing, Nothing, false;
    }

    /** Where the walk of the level below stands. */
    function Position(): Cursor
      reads this
    {
      Cursor(prevrightlink, previncompletesplit)
    }

    /** The search for the downlink at `off` from here. */
    function Here(off: nat): Search
      reads this
    {
      Search(idx, target, lowkey, off, Position())
    }

    // -------------------------------------------------------------------
    // The level below
    // -------------------------------------------------------------------

    /** The high key comparison, with the offset arithmetic of the source. */
    method MatchHighKey(page: Page, off: nat, own: bool) returns (ok: bool)
      requires Sane(page) && page.next != P_NONE && Valid(Here(off)) && (off == 0 ==> !own)
      ensures var sep := ExpectedSep(Here(off), own); ok <==> sep.Just? && Identical(HighKey(page), sep.value)
    {
      var pivot := if own then off + 1 else off;
      if NegInf(target, pivot) {
        return lowkey.Just? && Identical(HighKey(page), lowkey.value);
      }
      if pivot > Max(target) {
        if target.next == P_NONE { return false; }
        pivot := P_HIKEY;
      }
      if pivot == 0 { return false; }
      return Identical(HighKey(page), Item(target, pivot));
    }

    /** The checks of one child block met on the way to `downlink`. */
    method CheckBlock(blkno: nat, downlink: nat, off: nat, first: bool, rightsplit: bool) returns (ok: bool)
      requires Valid(Here(off)) && downlink == Downlink(Here(off))
      ensures ok <==> Passes(Here(off), Spot(blkno, rightsplit, first))
    {
      if blkno == P_NONE || !Loads(idx, blkno) { return false; }
      var page := idx[blkno];
      if first && prevrightlink.Nothing? && page.prev != P_NONE { return false; }
      if page.level != target.level - 1 { return false; }
      if (!first && prevrightlink == Just(blkno)) || blkno == page.prev { return false; }
      if blkno != downlink && !page.root && !rightsplit { return false; }
      ok := true;
      if !page.split && page.next != P_NONE {
        ok := MatchHighKey(page, off, blkno == downlink);
      }
    }

    /** bt_child_highkey_check, for the downlink at `off`, or for the end of the level when `off` is 0. */
    method ChildHighkeyCheck(off: nat) returns (v: Verdict)
      requires Valid(Here(off))
      modifies this`prevrightlink, this`previncompletesplit
      ensures Found(v, Position()) == SearchResult(old(Here(off)))
      ensures v == Endless <==> NeverEnds(old(Here(off)))
    {
      ghost var s := Here(off);
      TurnsSuffice(s, 0);
      var downlink: nat := if off == 0 then P_NONE else Item(target, off).downlink;
      var blkno: nat, rightsplit, first := downlink, false, true;
      if prevrightlink.Just? { blkno, rightsplit := prevrightlink.value, previncompletesplit; }
      var left: nat := |idx| + 1;
      while left > 0
        invariant Here(off) == s && SearchResult(s) == Look(s, Spot(blkno, rightsplit, first), left)
      {
        left := left - 1;
        if blkno == P_NONE && downlink == P_NONE {
          prevrightlink, previncompletesplit := Nothing, false;
          return Accepted;
        }
        var ok := CheckBlock(blkno, downlink, off, first, rightsplit);
        if !ok { return Corrupt; }
        if blkno == downlink {
          prevrightlink, previncompletesplit := Just(idx[blkno].next), idx[blkno].split;
          return Accepted;
        }
        rightsplit, blkno, first := idx[blkno].split, idx[blkno].next, false;
      }
      return Endless;
    }

    // -------------------------------------------------------------------
    // One page
    // -------------------------------------------------------------------

    /** The last-item check against the right sibling's first keyed item. */
    method SiblingCheck() returns (ok: bool)
      requires Has(target, Max(target))
      ensures ok <==> BelowSibling(cols, idx, target)
    {
      if target.next == P_NONE { return true; }
      if !Loads(idx, target.next) { return false; }
      var right := idx[target.next];
      var first := if right.leaf then First(right) else First(right) + 1;
      if Max(right) < first { return true; }
      return InvariantG(cols, Key(cols, Item(right, first)), Item(target, Max(target)));
    }

    /** The order checks of one item. */
    method ItemCheck(off: nat) returns (ok: bool)
      requires Sane(target) && First(target) <= off <= Max(target)
      ensures ok <==> ItemOk(cols, idx, target, off)
    {
      if !NattsOk(cols, target, off) { return false; }
      if NegInf(target, off) { return true; }
      var key := Key(cols, Item(target, off));
      if target.next != P_NONE {
        ok := if target.leaf then InvariantLeq(cols, key, Item(target, P_HIKEY))
              else InvariantL(cols, key, Item(target, P_HIKEY));
        if !ok { return false; }
      }
      if off + 1 <= Max(target) {
        ok := InvariantL(cols, key, Item(target, off + 1));
      } else {
        ok := SiblingCheck();
      }
    }

    method HighKeyNatts() returns (ok: bool)
      requires Sane(target)
      ensures ok <==> (target.next != P_NONE ==> NattsOk(cols, target, P_HIKEY))
    {
      ok := target.next == P_NONE || NattsOk(cols, target, P_HIKEY);
    }

    /** bt_target_page_check on a leaf page. */
    method LeafPageCheck() returns (ok: bool)
      requires Sane(target) && target.leaf
      ensures ok <==> PageOk(cols, idx, target)
    {
      ok := HighKeyNatts();
      if !ok { return; }
      var off := First(target);
      while off <= Max(target)
        invariant First(target) <= off
        invariant forall o :: First(target) <= o < off && o <= Max(target) ==> ItemOk(cols, idx, target, o)
      {
        ok := ItemCheck(off);
        if !ok { return; }
        off := off + 1;
      }
      ok := true;
    }

    /** The child's items against the key of the item that points to it. */
    method ChildItemsCheck(t: Tuple) returns (ok: bool)
      requires Loads(idx, t.downlink)
      ensures ok <==> ChildAbove(cols, idx, t)
    {
      var child := idx[t.downlink];
      var off := First(child);
      while off <= Max(child)
        invariant First(child) <= off
        invariant forall o :: FirstReal(child) <= o < off && o <= Max(child) ==> InvariantL(cols, Key(cols, t), Item(child, o))
      {
        if !NegInf(child, off) && !InvariantL(cols, Key(cols, t), Item(child, off)) { return false; }
        off := off + 1;
      }
      return true;
    }

    /** bt_child_check, and its part for an item without a key. */
    method ChildCheck(off: nat) returns (v: Verdict)
      requires Sane(target) && !target.leaf && First(target) <= off <= Max(target)
      modifies this`prevrightlink, this`previncompletesplit
      ensures ItemOk(cols, idx, target, off) && !NegInf(target, off) ==>
        Found(v, Position()) == ItemResult(cols, idx, target, lowkey, off, old(Position()))
    {
      if !Loads(idx, Item(target, off).downlink) { return Corrupt; }
      v := ChildHighkeyCheck(off);
      if v.Accepted? {
        var ok := ChildItemsCheck(Item(target, off));
        if !ok { v := Corrupt; }
      }
    }

    /** bt_target_page_check on an internal page. */
    method InternalPageCheck() returns (v: Verdict)
      requires Sane(target) && !target.leaf
      modifies this`prevrightlink, this`previncompletesplit
      ensures Found(v, Position()) == PageResult(cols, idx, target, lowkey, old(Position()))
    {
      var ok := HighKeyNatts();
      if !ok { return Corrupt; }
      ghost var r := ItemsResult(cols, idx, target, lowkey, First(target), Position());
      var off := First(target);
      while off <= Max(target)
        invariant First(target) <= off <= Max(target) + 1
        invariant r == ItemsResult(cols, idx, target, lowkey, off, Position())
      {
        ok := ItemCheck(off);
        if !ok { return Corrupt; }
        if NegInf(target, off) {
          v := ChildHighkeyCheck(off);
        } else {
          v := ChildCheck(off);
        }
        if !v.Accepted? { return; }
        off := off + 1;
      }
      v := Accepted;
      if target.next == P_NONE { v := ChildHighkeyCheck(0); }
    }

    /** bt_target_page_check. */
    method TargetPageCheck() returns (v: Verdict)
      requires Sane(target)
      modifies this`prevrightlink, this`previncompletesplit
      ensures Found(v, Position()) == PageResult(cols, idx, target, lowkey, old(Position()))
    {
      if target.leaf {
        var ok := LeafPageCheck();
        v := if ok then Accepted else Corrupt;
      } else {
        v := InternalPageCheck();
      }
    }

    // -------------------------------------------------------------------
    // Levels
    // -------------------------------------------------------------------

    /** One turn of the walk along a level. */
    method VisitPage(ghost vs: seq<nat>, current: nat, leftcurrent: nat, level: nat, trueRoot: bool) returns (v: Verdict)
      requires Visited(idx, level, vs, current) && current != P_NONE && leftcurrent == if vs == [] then P_NONE else Last(vs)
      requires leftcurrent == P_NONE <==> vs == []
      modifies this
      ensures InPlace(idx, level, trueRoot, vs, current) ==>
        && Found(v, Position()) == PageResult(cols, idx, idx[current], old(lowkey), old(Position()))
        && target == idx[current] && (v.Accepted? ==> lowkey == LowKey(target))
      ensures !InPlace(idx, level, trueRoot, vs, current) ==> v == Corrupt
    {
      if !Loads(idx, current) { return Corrupt; }
      target := idx[current];
      if leftcurrent == P_NONE && (target.prev != P_NONE || (trueRoot && !target.root)) { return Corrupt; }
      if target.prev != leftcurrent || level != target.level { return Corrupt; }
      VisitedAppend(idx, level, trueRoot, vs, current);
      v := TargetPageCheck();
      if !v.Accepted? { return; }
      if current == leftcurrent || current == target.prev { return Corrupt; }
      lowkey := if target.next != P_NONE then Just(HighKey(target)) else Nothing;
    }

    /** bt_check_level_from_leftmost. */
    method LevelCheck(leftmost: nat, level: nat, trueRoot: bool) returns (v: Verdict, visited: seq<nat>, down: nat)
      requires leftmost != P_NONE && lowkey == Nothing
      modifies this
      ensures Level(v, visited) == LevelResult(cols, idx, leftmost, level, trueRoot)
      ensures v == Accepted <==> IsGood(cols, idx, leftmost, level, trueRoot)
      ensures Plain(idx, level - 1) || Agreeing(idx, level - 1) ==> v != Endless
      ensures v == Accepted ==> down == LevelDown(idx, leftmost) && lowkey == Nothing && (level == 0 ==> down == P_NONE)
    {
      v, visited, down := Accepted, [], P_NONE;
      prevrightlink, previncompletesplit := Nothing, false;
      var current, leftcurrent := leftmost, P_NONE;
      while current != P_NONE
        invariant Visited(idx, level, visited, current) && leftcurrent == if visited == [] then P_NONE else Last(visited)
        invariant (leftcurrent == P_NONE <==> visited == []) && (visited == [] ==> current == leftmost && lowkey == Nothing)
        invariant LevelResult(cols, idx, leftmost, level, trueRoot)
               == LevelFrom(cols, idx, level, trueRoot, visited, current, lowkey, Position())
        invariant v == Accepted
        invariant visited != [] ==> down == LevelDown(idx, leftmost) && (level == 0 ==> down == P_NONE)
        invariant visited != [] ==> Last(visited) in idx && Sane(idx[Last(visited)]) && lowkey == LowKey(idx[Last(visited)])
        decreases |idx| - |visited|
      {
        v := VisitPage(visited, current, leftcurrent, level, trueRoot);
        if v != Accepted { break; }
        VisitedAppend(idx, level, trueRoot, visited, current);
        if visited == [] { down := LevelDown(idx, current); }
        visited, leftcurrent := visited + [current], current;
        current := target.next;
      }
      LevelIsExact(cols, idx, leftmost, level, trueRoot);
      if Plain(idx, level - 1) || Agreeing(idx, level - 1) { LevelEnds(cols, idx, leftmost, level, trueRoot); }
    }

    /** bt_check_every_level: from the root down, each level where the one above says it begins. */
    method CheckEveryLevel(root: nat, rootLevel: nat) returns (v: Verdict, levels: seq<seq<nat>>)
      requires lowkey == Nothing
      modifies this
      ensures Checked(v, levels) == IndexResult(cols, idx, root, rootLevel)
      ensures v == Accepted <==> GoodIndex(cols, idx, root, rootLevel, true)
      ensures (forall l: nat :: l < rootLevel ==> Plain(idx, l) || Agreeing(idx, l)) ==> v != Endless
    {
      IndexIsExact(cols, idx, root, rootLevel, true);
      if forall l: nat :: l < rootLevel ==> Plain(idx, l) || Agreeing(idx, l) { IndexEnds(cols, idx, root, rootLevel, true); }
      levels := [];
      var leftmost, level, trueRoot := root, rootLevel, true;
      ghost var rest := IndexResult(cols, idx, root, rootLevel);
      while leftmost != P_NONE
        invariant lowkey == Nothing && rest == IndexFrom(cols, idx, leftmost, level, trueRoot)
        invariant IndexResult(cols, idx, root, rootLevel) == Checked(rest.verdict, levels + rest.levels)
        decreases if leftmost == P_NONE then 0 else level + 1
      {
        var visited, down;
        v, visited, down := LevelCheck(leftmost, level, trueRoot);
        if v != Accepted { return; }
        rest := if level == 0 then Checked(Accepted, []) else IndexFrom(cols, idx, down, level - 1, false);
        assert levels + ([visited] + rest.levels) == levels + [visited] + rest.levels;
        levels := levels + [visited];
        leftmost, level, trueRoot := down, if level > 0 then level - 1 else 0, false;
      }
      v := Accepted;
    }
  }
}
