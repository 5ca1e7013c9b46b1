/**
 The verifier as a function of the index: the result for an item, a page, a level and
 the whole index, built on the searches of the level below.
 */
module BtreeLevels {
  import opened Maybes
  import opened BtreeKeys
  import opened BtreePages
  import opened BtreeSearches

  /** An item of an internal page, and the block it points to. */
  function ItemResult(cols: seq<Column>, idx: Index, p: Page, low: Maybe<Tuple>, off: nat, from: Cursor): Found
    requires Sane(p) && !p.leaf && First(p) <= off <= Max(p)
  {
    if !ItemOk(cols, idx, p, off) || (!NegInf(p, off) && !Loads(idx, Item(p, off).downlink)) then Found(Corrupt, from)
    else
      var r := SearchResult(Search(idx, p, low, off, from));
      if r.verdict.Accepted? && !NegInf(p, off) && !ChildAbove(cols, idx, Item(p, off)) then Found(Corrupt, r.cursor) else r
  }

  /** The items of an internal page from `off` on. */
  function ItemsResult(cols: seq<Column>, idx: Index, p: Page, low: Maybe<Tuple>, off: nat, from: Cursor): Found
    requires Sane(p) && !p.leaf && First(p) <= off <= Max(p) + 1
    decreases Max(p) + 1 - off
  {
    if off > Max(p) then Found(Accepted, from)
    else
      var r := ItemResult(cols, idx, p, low, off, from);
      if r.verdict.Accepted? then ItemsResult(cols, idx, p, low, off + 1, r.cursor) else r
  }

  function PageResult(cols: seq<Column>, idx: Index, p: Page, low: Maybe<Tuple>, from: Cursor): Found
    requires Sane(p)
  {
    if p.leaf then Found(if PageOk(cols, idx, p) then Accepted else Corrupt, from)
    else if p.next != P_NONE && !NattsOk(cols, p, P_HIKEY) then Found(Corrupt, from)
    else
      var r := ItemsResult(cols, idx, p, low, First(p), from);
      if r.verdict.Accepted? && p.next == P_NONE then SearchResult(Search(idx, p, low, 0, r.cursor)) else r
  }

  /** The low key of a page's right sibling. */
  function LowKey(p: Page): Maybe<Tuple>
    requires Sane(p)
  {
    if p.next != P_NONE then Just(HighKey(p)) else Nothing
  }

  predicate RootFlag(idx: Index, b: nat, trueRoot: bool) { trueRoot ==> b in idx && idx[b].root }

  /** The tests of a page's place on its level, after the pages visited so far. */
  predicate InPlace(idx: Index, level: int, trueRoot: bool, vs: seq<nat>, current: nat) {
    && Loads(idx, current) && idx[current].level == level
    && idx[current].prev == (if vs == [] then P_NONE else Last(vs))
    && (vs == [] ==> RootFlag(idx, current, trueRoot))
  }

  /** The pages visited on a level, whose right link leads to `current`. */
  predicate Visited(idx: Index, level: int, vs: seq<nat>, current: nat) {
    Siblings(idx, level, vs) && (vs != [] ==> idx[Last(vs)].next == current)
  }

  /** A page in its place is not the one before it, nor any other. */
  lemma VisitedAppend(idx: Index, level: int, trueRoot: bool, vs: seq<nat>, current: nat)
    requires Visited(idx, level, vs, current) && InPlace(idx, level, trueRoot, vs, current)
    ensures Visited(idx, level, vs + [current], idx[current].next) && |vs| < |idx|
    ensures vs != [] ==> current != Last(vs)
  {
    SiblingsAppend(idx, level, vs, current);
    SiblingsBounded(idx, level, vs + [current]);
    if vs != [] { SiblingsDistinct(idx, level, vs + [current], |vs| - 1, |vs|); }
  }

  datatype Level = Level(verdict: Verdict, pages: seq<nat>)

  /** The level from page `current` on.  Left links are checked, so no page is met twice and the walk ends. */
  ghost function LevelFrom(cols: seq<Column>, idx: Index, level: nat, trueRoot: bool, vs: seq<nat>, current: nat,
                           low: Maybe<Tuple>, from: Cursor): Level
    requires Visited(idx, level, vs, current)
    decreases |idx| - |vs|
  {
    if current == P_NONE then Level(Accepted, vs)
    else if !InPlace(idx, level, trueRoot, vs, current) then Level(Corrupt, vs)
    else
      var r := PageResult(cols, idx, idx[current], low, from);
      if !r.verdict.Accepted? then Level(r.verdict, vs)
      else
        VisitedAppend(idx, level, trueRoot, vs, current);
        LevelFrom(cols, idx, level, trueRoot, vs + [current], idx[current].next, LowKey(idx[current]), r.cursor)
  }

  ghost function LevelResult(cols: seq<Column>, idx: Index, leftmost: nat, level: nat, trueRoot: bool): Level {
    LevelFrom(cols, idx, level, trueRoot, [], leftmost, Nothing, LEVEL_START)
  }

  /** Where the level below begins. */
  function LevelDown(idx: Index, b: nat): nat {
    if !Loads(idx, b) || idx[b].leaf then P_NONE else Item(idx[b], First(idx[b])).downlink
  }

  datatype Checked = Checked(verdict: Verdict, levels: seq<seq<nat>>)

  /** The levels from this one down, each beginning where the one above says. */
  ghost function IndexFrom(cols: seq<Column>, idx: Index, leftmost: nat, level: nat, trueRoot: bool): Checked
    decreases level
  {
    if leftmost == P_NONE then Checked(Accepted, [])
    else
      var r := LevelResult(cols, idx, leftmost, level, trueRoot);
      if !r.verdict.Accepted? then Checked(r.verdict, [])
      else if level == 0 then Checked(Accepted, [r.pages])
      else
        var below := IndexFrom(cols, idx, LevelDown(idx, leftmost), level - 1, false);
        Checked(below.verdict, [r.pages] + below.levels)
  }

  ghost function IndexResult(cols: seq<Column>, idx: Index, root: nat, rootLevel: nat): Checked {
    IndexFrom(cols, idx, root, rootLevel, true)
  }

  // ---------------------------------------------------------------------
  // Checks that end
  // ---------------------------------------------------------------------

  /** A cursor that on this level leaves no search without an end. */
  predicate Calm(idx: Index, level: int, from: Cursor) {
    Agreeing(idx, level) || (Plain(idx, level) && !from.split)
  }

  lemma CalmSearch(s: Search)
    requires Valid(s) && Calm(s.idx, s.p.level - 1, s.from)
    ensures SearchResult(s).verdict != Endless && Calm(s.idx, s.p.level - 1, SearchResult(s).cursor)
  {
    TurnsSuffice(s, 0);
    if Agreeing(s.idx, s.p.level - 1) { AgreeingEnds(s); } else { PlainEnds(s); }
  }

  lemma {:induction false} CalmItems(cols: seq<Column>, idx: Index, p: Page, low: Maybe<Tuple>, off: nat, from: Cursor)
    requires Sane(p) && !p.leaf && First(p) <= off <= Max(p) + 1 && Calm(idx, p.level - 1, from)
    ensures var r := ItemsResult(cols, idx, p, low, off, from); r.verdict != Endless && Calm(idx, p.level - 1, r.cursor)
    decreases Max(p) + 1 - off
  {
    if off <= Max(p) {
      CalmSearch(Search(idx, p, low, off, from));
      var r := ItemResult(cols, idx, p, low, off, from);
      if r.verdict.Accepted? { CalmItems(cols, idx, p, low, off + 1, r.cursor); }
    }
  }

  lemma CalmPage(cols: seq<Column>, idx: Index, p: Page, low: Maybe<Tuple>, from: Cursor)
    requires Sane(p) && Calm(idx, p.level - 1, from)
    ensures var r := PageResult(cols, idx, p, low, from); r.verdict != Endless && Calm(idx, p.level - 1, r.cursor)
  {
    if !p.leaf {
      CalmItems(cols, idx, p, low, First(p), from);
      CalmSearch(Search(idx, p, low, 0, ItemsResult(cols, idx, p, low, First(p), from).cursor));
    }
  }

  lemma {:induction false} CalmFrom(cols: seq<Column>, idx: Index, level: nat, trueRoot: bool, vs: seq<nat>, current: nat,
                                    low: Maybe<Tuple>, from: Cursor)
    requires Visited(idx, level, vs, current) && Calm(idx, level - 1, from)
    ensures LevelFrom(cols, idx, level, trueRoot, vs, current, low, from).verdict != Endless
    decreases |idx| - |vs|
  {
    if current != P_NONE && InPlace(idx, level, trueRoot, vs, current) {
      var p := idx[current];
      CalmPage(cols, idx, p, low, from);
      VisitedAppend(idx, level, trueRoot, vs, current);
      var r := PageResult(cols, idx, p, low, from);
      if r.verdict.Accepted? { CalmFrom(cols, idx, level, trueRoot, vs + [current], p.next, LowKey(p), r.cursor); }
    }
  }

  /**
   The check of a level ends if the level below has no root flag and no interrupted
   split, or if its left and right links agree.
   */
  lemma LevelEnds(cols: seq<Column>, idx: Index, leftmost: nat, level: nat, trueRoot: bool)
    requires Plain(idx, level - 1) || Agreeing(idx, level - 1)
    ensures LevelResult(cols, idx, leftmost, level, trueRoot).verdict != Endless
  {
    CalmFrom(cols, idx, level, trueRoot, [], leftmost, Nothing, LEVEL_START);
  }

  lemma {:induction false} IndexEnds(cols: seq<Column>, idx: Index, leftmost: nat, level: nat, trueRoot: bool)
    requires forall l: nat :: l < level ==> Plain(idx, l) || Agreeing(idx, l)
    ensures IndexFrom(cols, idx, leftmost, level, trueRoot).verdict != Endless
    decreases level
  {
    LevelEnds(cols, idx, leftmost, level, trueRoot);
    if level > 0 { IndexEnds(cols, idx, LevelDown(idx, leftmost), level - 1, false); }
  }
}
