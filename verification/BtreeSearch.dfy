/**
 One search of the lockstep walk: from the block after the last downlink over right
 links to the block of the next downlink.  The source's loop has no bound; a search is
 here the sequence of blocks it looks at, and the question whether it ends is part of
 its result.
 */
module BtreeSearches {
  import opened Maybes
  import opened BtreeKeys
  import opened BtreePages

  /** Endless: a loop over right links never ends. */
  datatype Verdict = Accepted | Corrupt | Endless

  /** prevrightlink and previncompletesplit. */
  datatype Cursor = Cursor(right: Maybe<nat>, split: bool)

  const LEVEL_START := Cursor(Nothing, false)

  datatype Found = Found(verdict: Verdict, cursor: Cursor)

  /**
   A search for the downlink at `off` of page `p`, or for the end of the level when `off`
   is 0.  `low` is the high key of the left uncle.
   */
  datatype Search = Search(idx: Index, p: Page, low: Maybe<Tuple>, off: nat, from: Cursor)

  predicate Valid(s: Search) {
    Sane(s.p) && !s.p.leaf && (s.off != 0 ==> First(s.p) <= s.off <= Max(s.p))
  }

  function Downlink(s: Search): nat
    requires Valid(s)
  {
    if s.off == 0 then P_NONE else Item(s.p, s.off).downlink
  }

  /** The block a turn of the loop looks at, whether its left sibling's split was interrupted, and whether it is the first. */
  datatype Spot = Spot(blk: nat, split: bool, first: bool)

  function StartSpot(s: Search): Spot
    requires Valid(s)
  {
    if s.from.right.Just? then Spot(s.from.right.value, s.from.split, true) else Spot(Downlink(s), false, true)
  }

  /** The key before the item at `off`: its own, or the left uncle's high key for an item without one. */
  function SepBefore(p: Page, off: nat, low: Maybe<Tuple>): Maybe<Tuple>
    requires Has(p, off)
  {
    if NegInf(p, off) then low else Just(Item(p, off))
  }

  /** The separator a child's high key must repeat. */
  function ExpectedSep(s: Search, own: bool): Maybe<Tuple>
    requires Valid(s)
  {
    if s.off == 0 then Nothing else if own then SepAfter(s.p, s.off) else SepBefore(s.p, s.off, s.low)
  }

  /** A completely split page repeats the separator as its high key. */
  predicate HighKeyFits(p: Page, sep: Maybe<Tuple>)
    requires Sane(p)
  {
    !p.split && p.next != P_NONE ==> sep.Just? && Identical(HighKey(p), sep.value)
  }

  /** The tests of one block. */
  predicate Passes(s: Search, at: Spot)
    requires Valid(s)
  {
    && Loads(s.idx, at.blk)
    && var page := s.idx[at.blk];
       && (at.first && s.from.right.Nothing? ==> page.prev == P_NONE)
       && page.level == s.p.level - 1
       && (!at.first ==> s.from.right != Just(at.blk)) && page.prev != at.blk
       && (at.blk != Downlink(s) ==> page.root || at.split)
       && HighKeyFits(page, ExpectedSep(s, at.blk == Downlink(s)))
  }

  /** The turn neither ends the search nor fails. */
  predicate Goes(s: Search, at: Spot)
    requires Valid(s)
  {
    at.blk != Downlink(s) && Passes(s, at)
  }

  function After(s: Search, at: Spot): Spot {
    if at.blk in s.idx then Spot(s.idx[at.blk].next, s.idx[at.blk].split, false) else at
  }

  /** How a turn ends that does not go on. */
  function Stop(s: Search, at: Spot): Found
    requires Valid(s)
  {
    if at.blk == P_NONE == Downlink(s) then Found(Accepted, LEVEL_START)
    else if at.blk == Downlink(s) && Passes(s, at) then Found(Accepted, Cursor(Just(s.idx[at.blk].next), s.idx[at.blk].split))
    else Found(Corrupt, s.from)
  }

  /** The search cut off after a number of turns. */
  function Look(s: Search, at: Spot, turns: nat): Found
    requires Valid(s)
    decreases turns
  {
    if turns == 0 then Found(Endless, s.from)
    else if Goes(s, at) then Look(s, After(s, at), turns - 1)
    else Stop(s, at)
  }

  /** The search, with as many turns as it takes to meet every block and one again. */
  function SearchResult(s: Search): Found
    requires Valid(s)
  {
    Look(s, StartSpot(s), |s.idx| + 1)
  }

  // ---------------------------------------------------------------------
  // Whether it ends
  // ---------------------------------------------------------------------

  /** The block of turn n, as long as the search goes on. */
  function SpotAt(s: Search, n: nat): Spot
    requires Valid(s)
  {
    if n == 0 then StartSpot(s) else After(s, SpotAt(s, n - 1))
  }

  /** The first n turns all go on. */
  predicate GoesOn(s: Search, n: nat)
    requires Valid(s)
  {
    n > 0 ==> GoesOn(s, n - 1) && Goes(s, SpotAt(s, n - 1))
  }

  ghost predicate NeverEnds(s: Search)
    requires Valid(s)
  {
    forall n: nat :: GoesOn(s, n)
  }

  /** A block is met a second time before the search has stopped. */
  predicate Repeats(s: Search, i: nat, j: nat)
    requires Valid(s)
  {
    i < j && GoesOn(s, j + 1) && SpotAt(s, i).blk == SpotAt(s, j).blk
  }

  lemma {:induction false} GoesOnDown(s: Search, n: nat, k: nat)
    requires Valid(s) && GoesOn(s, n) && k < n
    ensures Goes(s, SpotAt(s, k)) && GoesOn(s, k)
  {
    if k < n - 1 { GoesOnDown(s, n - 1, k); }
  }

  /** What follows a block depends on the block alone, so a repetition goes on for ever. */
  lemma {:induction false} RepeatsForever(s: Search, i: nat, j: nat, n: nat)
    requires Valid(s) && Repeats(s, i, j)
    ensures GoesOn(s, n) && (n > j ==> SpotAt(s, n) == SpotAt(s, n - (j - i)))
  {
    if n <= j + 1 {
      if n < j + 1 { GoesOnDown(s, j + 1, n); }
      GoesOnDown(s, j + 1, i);
      GoesOnDown(s, j + 1, j);
    } else {
      RepeatsForever(s, i, j, n - 1);
      GoesOnDown(s, n - 1, n - 1 - (j - i));
    }
  }

  function Blocks(s: Search, n: nat): (bs: seq<nat>)
    requires Valid(s)
    ensures |bs| == n
  {
    if n == 0 then [] else Blocks(s, n - 1) + [SpotAt(s, n - 1).blk]
  }

  lemma {:induction false} BlocksAre(s: Search, n: nat, k: nat)
    requires Valid(s) && k < n
    ensures Blocks(s, n)[k] == SpotAt(s, k).blk
  {
    if k < n - 1 { BlocksAre(s, n - 1, k); }
  }

  lemma BlocksExist(s: Search, n: nat)
    requires Valid(s) && GoesOn(s, n)
    ensures forall k :: 0 <= k < n ==> Blocks(s, n)[k] in s.idx.Keys
  {
    forall k | 0 <= k < n ensures Blocks(s, n)[k] in s.idx.Keys {
      GoesOnDown(s, n, k);
      BlocksAre(s, n, k);
    }
  }

  /** So many turns cannot all look at different blocks. */
  lemma MustRepeat(s: Search)
    requires Valid(s) && GoesOn(s, |s.idx| + 1)
    ensures exists i: nat, j: nat :: Repeats(s, i, j)
  {
    var n := |s.idx| + 1;
    BlocksExist(s, n);
    var i, j := Duplicate(Blocks(s, n), s.idx.Keys);
    BlocksAre(s, n, i);
    BlocksAre(s, n, j);
    if j + 1 < n { GoesOnDown(s, n, j + 1); }
    assert Repeats(s, i, j);
  }

  lemma Duplicate(bs: seq<nat>, keys: set<nat>) returns (i: nat, j: nat)
    requires |keys| < |bs| && forall k :: 0 <= k < |bs| ==> bs[k] in keys
    ensures i < j < |bs| && bs[i] == bs[j]
  {
    if forall i, j :: 0 <= i < j < |bs| ==> bs[i] != bs[j] { DistinctBounded(bs, keys); }
    i, j :| 0 <= i < j < |bs| && bs[i] == bs[j];
  }

  /**
   The exact condition.  A search never ends if and only if it meets some block a second
   time before it has stopped; if it gets through as many turns as there are blocks, and
   one more, it has.
   */
  lemma EndlessIff(s: Search)
    requires Valid(s)
    ensures NeverEnds(s) <==> exists i: nat, j: nat :: Repeats(s, i, j)
    ensures NeverEnds(s) <==> GoesOn(s, |s.idx| + 1)
  {
    if GoesOn(s, |s.idx| + 1) { MustRepeat(s); }
    if i: nat, j: nat :| Repeats(s, i, j) {
      forall n: nat ensures GoesOn(s, n) { RepeatsForever(s, i, j, n); }
    }
  }

  lemma {:induction false} LookFrom(s: Search, n: nat, turns: nat)
    requires Valid(s) && GoesOn(s, n)
    ensures Look(s, StartSpot(s), n + turns) == Look(s, SpotAt(s, n), turns)
  {
    if n > 0 { LookFrom(s, n - 1, turns + 1); }
  }

  lemma {:induction false} FirstStop(s: Search, n: nat) returns (m: nat)
    requires Valid(s) && !GoesOn(s, n)
    ensures m < n && GoesOn(s, m) && !Goes(s, SpotAt(s, m))
  {
    if GoesOn(s, n - 1) { m := n - 1; } else { m := FirstStop(s, n - 1); }
  }

  /** A search that stops has the result of its last turn. */
  lemma StopsAt(s: Search, m: nat)
    requires Valid(s) && GoesOn(s, m) && !Goes(s, SpotAt(s, m))
    ensures !NeverEnds(s) && SearchResult(s) == Stop(s, SpotAt(s, m)) && m <= |s.idx|
  {
    assert !GoesOn(s, m + 1);
    EndlessIff(s);
    if m > |s.idx| {
      if |s.idx| + 1 < m { GoesOnDown(s, m, |s.idx| + 1); }
      assert false;
    }
    LookFrom(s, m, |s.idx| + 1 - m);
  }

  /** The verdict Endless is the truth about the unbounded loop, and no larger number of turns changes any result. */
  lemma TurnsSuffice(s: Search, turns: nat)
    requires Valid(s)
    ensures SearchResult(s).verdict == Endless <==> NeverEnds(s)
    ensures turns > |s.idx| ==> Look(s, StartSpot(s), turns) == SearchResult(s)
    ensures NeverEnds(s) ==> Look(s, StartSpot(s), turns).verdict == Endless
  {
    EndlessIff(s);
    if NeverEnds(s) {
      LookFrom(s, turns, 0);
      LookFrom(s, |s.idx| + 1, 0);
    } else {
      var m := FirstStop(s, |s.idx| + 1);
      StopsAt(s, m);
      if turns > |s.idx| { LookFrom(s, m, turns - m); }
    }
  }

  // ---------------------------------------------------------------------
  // Levels on which every search ends
  // ---------------------------------------------------------------------

  /** No page of the level is a root or half of an interrupted split. */
  predicate Plain(idx: Index, level: int) {
    forall b :: b in idx && idx[b].level == level ==> !idx[b].root && !idx[b].split
  }

  /** The left links of the level agree with its right links. */
  predicate Agreeing(idx: Index, level: int) {
    forall b :: b in idx && idx[b].level == level && idx[b].next in idx ==> idx[idx[b].next].prev == b
  }

  /** Without excuses for missing downlinks the first turn decides. */
  lemma PlainEnds(s: Search)
    requires Valid(s) && Plain(s.idx, s.p.level - 1) && !s.from.split
    ensures !NeverEnds(s) && SearchResult(s) == Stop(s, StartSpot(s)) && !SearchResult(s).cursor.split
  {
    assert !Goes(s, SpotAt(s, 0));
    StopsAt(s, 0);
  }

  lemma {:induction false} RepeatsFromStart(s: Search, i: nat, j: nat)
    requires Valid(s) && Agreeing(s.idx, s.p.level - 1) && Repeats(s, i, j)
    ensures Repeats(s, 0, j - i)
  {
    if i > 0 {
      GoesOnDown(s, j + 1, i);
      GoesOnDown(s, j + 1, i - 1);
      GoesOnDown(s, j + 1, j);
      GoesOnDown(s, j + 1, j - 1);
      RepeatsFromStart(s, i - 1, j - 1);
    }
  }

  /** A return to the first block is detected. */
  lemma StartIsNew(s: Search, n: nat)
    requires Valid(s) && n > 0 && GoesOn(s, n + 1)
    ensures SpotAt(s, n).blk != SpotAt(s, 0).blk
  {
    GoesOnDown(s, n + 1, 0);
    GoesOnDown(s, n + 1, n - 1);
  }

  /** Where left and right links agree a circle leads back to where the search began, and that is detected. */
  lemma AgreeingEnds(s: Search)
    requires Valid(s) && Agreeing(s.idx, s.p.level - 1)
    ensures !NeverEnds(s)
  {
    EndlessIff(s);
    if i: nat, j: nat :| Repeats(s, i, j) {
      RepeatsFromStart(s, i, j);
      StartIsNew(s, j - i);
    }
  }
}
