/**
 What the verifier's results mean: a level is accepted exactly when its pages are in
 order and some walk of the level below is in step with their downlinks.
 */
module BtreeTraces {
  import opened Maybes
  import opened BtreeKeys
  import opened BtreePages
  import opened BtreeSearches
  import opened BtreeLevels

  // ---------------------------------------------------------------------
  // Walks of the level below
  // ---------------------------------------------------------------------

  /**
   The child blocks walked so far.  A `Link` block is the target of the next downlink,
   with the separator after that downlink; a `Skip` block has no downlink.
   */
  datatype Trace = Start | Skip(rest: Trace, blk: nat) | Link(rest: Trace, blk: nat, sep: Maybe<Tuple>)

  function Walked(t: Trace): seq<nat> {
    if t.Start? then [] else Walked(t.rest) + [t.blk]
  }

  function Links(t: Trace): seq<nat> {
    match t
    case Start => []
    case Skip(rest, _) => Links(rest)
    case Link(rest, b, _) => Links(rest) + [b]
  }

  /** The trace up to its last downlink. */
  function Strip(t: Trace): (r: Trace)
    ensures !r.Skip?
  {
    if t.Skip? then Strip(t.rest) else t
  }

  /** The separator after the last downlink. */
  function LastSep(t: Trace): Maybe<Tuple> {
    var r := Strip(t);
    if r.Link? then r.sep else Nothing
  }

  /** Nothing is to the left: at the start, and after a downlink to block 0. */
  predicate Restart(t: Trace) { t.Start? || (t.Link? && t.blk == P_NONE) }

  /** Block b may follow the trace: it is the right sibling of the last block, or the leftmost to begin with. */
  predicate Follows(idx: Index, t: Trace, b: nat) {
    if Restart(t) then b in idx && idx[b].prev == P_NONE else t.blk in idx && idx[t.blk].next == b
  }

  /** The walk has reached the right end of the level. */
  predicate Ended(idx: Index, t: Trace) { Restart(t) || (t.blk in idx && idx[t.blk].next == P_NONE) }

  /** A walk that has skipped blocks does not come back to the first of them. */
  predicate NoReturn(idx: Index, t: Trace, b: nat) {
    t.Skip? ==> Strip(t).Link? && Strip(t).blk in idx && idx[Strip(t).blk].next != b
  }

  /** Block b is not among those skipped since the last downlink. */
  predicate Fresh(t: Trace, b: nat) { t.Skip? ==> t.blk != b && Fresh(t.rest, b) }

  /** Block b can stand after the trace on a level. */
  predicate Fits(idx: Index, level: int, t: Trace, b: nat) {
    Loads(idx, b) && idx[b].level == level && idx[b].prev != b && Follows(idx, t, b) && NoReturn(idx, t, b)
  }

  /**
   In step with the downlinks: only a root flag or an interrupted split of the left
   sibling excuses a block from having a downlink, and high keys repeat separators.  A
   downlink to block 0 stands for the end of the level.
   */
  predicate InStep(idx: Index, level: int, t: Trace) {
    match t
    case Start => true
    case Skip(rest, b) =>
      && InStep(idx, level, rest) && !Restart(rest) && Fits(idx, level, rest, b)
      && (idx[b].root || idx[rest.blk].split)
      && HighKeyFits(idx[b], LastSep(rest))
    case Link(rest, b, sep) =>
      && InStep(idx, level, rest)
      && if b == P_NONE then Ended(idx, rest) else Fits(idx, level, rest, b) && Fresh(rest, b) && HighKeyFits(idx[b], sep)
  }

  lemma {:induction false} StripInStep(idx: Index, level: int, t: Trace)
    requires InStep(idx, level, t)
    ensures InStep(idx, level, Strip(t))
  {
    if t.Skip? { StripInStep(idx, level, t.rest); }
  }

  lemma {:induction false} NoBlockZero(idx: Index, level: int, t: Trace)
    requires InStep(idx, level, t)
    ensures Fresh(t, P_NONE)
  {
    if t.Skip? { NoBlockZero(idx, level, t.rest); }
  }

  // ---------------------------------------------------------------------
  // One search
  // ---------------------------------------------------------------------

  /** Where the verifier stands after a walk. */
  function CursorOf(idx: Index, t: Trace): Cursor {
    if Restart(t) || t.blk !in idx then LEVEL_START else Cursor(Just(idx[t.blk].next), idx[t.blk].split)
  }

  /** A search that begins where the walk t has ended. */
  predicate Begins(s: Search, t: Trace)
    requires Valid(s)
  {
    && InStep(s.idx, s.p.level - 1, t) && !t.Skip? && s.from == CursorOf(s.idx, t)
    && (!Restart(t) ==> LastSep(t) == ExpectedSep(s, false))
  }

  /** The walk u goes on from t to what is searched for. */
  predicate Reaches(s: Search, t: Trace, u: Trace)
    requires Valid(s)
  {
    && InStep(s.idx, s.p.level - 1, u)
    && if s.off == 0 then Strip(u) == t && Ended(s.idx, u)
       else u.Link? && u.blk == Downlink(s) && u.sep == SepAfter(s.p, s.off) && Strip(u.rest) == t
  }

  /** On the way, about to look at a block. */
  predicate Looking(s: Search, v: Trace, at: Spot)
    requires Valid(s)
  {
    && InStep(s.idx, s.p.level - 1, v) && Fresh(v, Downlink(s)) && (at.first <==> !v.Skip?)
    && if Restart(v) then at.blk == Downlink(s) && s.from.right == Nothing
       else
         && Follows(s.idx, v, at.blk) && at.split == s.idx[v.blk].split && LastSep(v) == ExpectedSep(s, false)
         && Strip(v).Link? && Strip(v).blk in s.idx && s.from.right == Just(s.idx[Strip(v).blk].next)
  }

  /** The tests of a block decide whether the walk stays in step. */
  lemma PassesIff(s: Search, v: Trace, at: Spot)
    requires Valid(s) && Looking(s, v, at)
    ensures at.blk != P_NONE && at.blk == Downlink(s) ==>
      (Passes(s, at) <==> InStep(s.idx, s.p.level - 1, Link(v, at.blk, SepAfter(s.p, s.off))))
    ensures at.blk != Downlink(s) ==> (Passes(s, at) <==> InStep(s.idx, s.p.level - 1, Skip(v, at.blk)))
  {
  }

  /** The walk after n turns. */
  function TraceAt(s: Search, t: Trace, n: nat): Trace
    requires Valid(s)
  {
    if n == 0 then t else Skip(TraceAt(s, t, n - 1), SpotAt(s, n - 1).blk)
  }

  lemma {:induction false} TraceStrip(s: Search, t: Trace, n: nat)
    requires Valid(s) && !t.Skip?
    ensures Strip(TraceAt(s, t, n)) == t
  {
    if n > 0 { TraceStrip(s, t, n - 1); }
  }

  lemma {:induction false} OnTheWay(s: Search, t: Trace, n: nat)
    requires Valid(s) && Begins(s, t) && GoesOn(s, n)
    ensures Looking(s, TraceAt(s, t, n), SpotAt(s, n))
  {
    if n > 0 {
      OnTheWay(s, t, n - 1);
      PassesIff(s, TraceAt(s, t, n - 1), SpotAt(s, n - 1));
      TraceStrip(s, t, n - 1);
      TraceStrip(s, t, n);
    }
  }

  /** What stops the search with acceptance. */
  function Arrival(s: Search, v: Trace): Trace
    requires Valid(s)
  {
    if s.off == 0 then v else Link(v, Downlink(s), SepAfter(s.p, s.off))
  }

  lemma ArrivalIff(s: Search, t: Trace, m: nat)
    requires Valid(s) && Begins(s, t) && GoesOn(s, m) && !Goes(s, SpotAt(s, m))
    ensures var u := Arrival(s, TraceAt(s, t, m));
      && (SearchResult(s).verdict == Accepted <==> Reaches(s, t, u))
      && (Reaches(s, t, u) ==> SearchResult(s).cursor == if s.off == 0 then LEVEL_START else CursorOf(s.idx, u))
  {
    StopsAt(s, m);
    OnTheWay(s, t, m);
    TraceStrip(s, t, m);
    PassesIff(s, TraceAt(s, t, m), SpotAt(s, m));
  }

  /** An accepted search has walked to its downlink. */
  lemma SearchSound(s: Search, t: Trace) returns (u: Trace)
    requires Valid(s) && Begins(s, t) && SearchResult(s).verdict == Accepted
    ensures Reaches(s, t, u) && (s.off != 0 ==> SearchResult(s).cursor == CursorOf(s.idx, u))
  {
    TurnsSuffice(s, 0);
    EndlessIff(s);
    var m := FirstStop(s, |s.idx| + 1);
    ArrivalIff(s, t, m);
    u := Arrival(s, TraceAt(s, t, m));
  }

  function Skipped(v: Trace): nat { if v.Skip? then Skipped(v.rest) + 1 else 0 }

  /** A walk over skipped blocks is the one the search makes. */
  lemma {:induction false} SkipsAreTurns(s: Search, t: Trace, v: Trace)
    requires Valid(s) && Begins(s, t) && InStep(s.idx, s.p.level - 1, v) && Strip(v) == t && Fresh(v, Downlink(s))
    ensures v == TraceAt(s, t, Skipped(v)) && GoesOn(s, Skipped(v))
  {
    if v.Skip? {
      SkipsAreTurns(s, t, v.rest);
      OnTheWay(s, t, Skipped(v.rest));
      PassesIff(s, v.rest, SpotAt(s, Skipped(v.rest)));
    }
  }

  /** A walk to the downlink makes the search accept. */
  lemma SearchComplete(s: Search, t: Trace, u: Trace)
    requires Valid(s) && Begins(s, t) && Reaches(s, t, u)
    ensures SearchResult(s) == Found(Accepted, if s.off == 0 then LEVEL_START else CursorOf(s.idx, u))
  {
    var v := if s.off == 0 then u else u.rest;
    if Downlink(s) == P_NONE { NoBlockZero(s.idx, s.p.level - 1, v); }
    SkipsAreTurns(s, t, v);
    OnTheWay(s, t, Skipped(v));
    ArrivalIff(s, t, Skipped(v));
  }

  // ---------------------------------------------------------------------
  // One page
  // ---------------------------------------------------------------------

  /** What the trace was before the walk of a page's downlinks up to `off`, if that is how it ends. */
  function Unwalk(p: Page, off: nat, t: Trace): Maybe<Trace>
    requires Sane(p) && First(p) <= off <= Max(p) + 1
    decreases off
  {
    if off == First(p) then Just(t)
    else if t.Link? && t.blk == Item(p, off - 1).downlink && t.sep == SepAfter(p, off - 1) then Unwalk(p, off - 1, Strip(t.rest))
    else Nothing
  }

  /** The part of a walk of a page's downlinks that comes before `off`. */
  function UpTo(p: Page, off: nat, t: Trace): Trace
    requires First(p) <= off <= Max(p) + 1
    decreases Max(p) + 1 - off
  {
    if off == Max(p) + 1 then t
    else
      var u := UpTo(p, off + 1, t);
      if u.Link? then Strip(u.rest) else u
  }

  lemma {:induction false} UpToIs(idx: Index, level: int, p: Page, off: nat, t: Trace)
    requires Sane(p) && First(p) <= off <= Max(p) + 1 && InStep(idx, level, t) && !t.Skip? && Unwalk(p, Max(p) + 1, t).Just?
    ensures var u := UpTo(p, off, t); InStep(idx, level, u) && !u.Skip? && Unwalk(p, off, u) == Unwalk(p, Max(p) + 1, t)
    decreases Max(p) + 1 - off
  {
    if off <= Max(p) {
      UpToIs(idx, level, p, off + 1, t);
      StripInStep(idx, level, UpTo(p, off + 1, t).rest);
    }
  }

  /** A walk before which the low key is known, unless nothing is to its left. */
  predicate Entering(idx: Index, level: int, low: Maybe<Tuple>, t: Trace) {
    InStep(idx, level, t) && !t.Skip? && (!Restart(t) ==> LastSep(t) == low)
  }

  lemma ItemBegins(idx: Index, p: Page, low: Maybe<Tuple>, off: nat, t0: Trace, t: Trace)
    requires Sane(p) && !p.leaf && First(p) <= off <= Max(p) && Unwalk(p, off, t) == Just(t0)
    requires InStep(idx, p.level - 1, t) && !t.Skip? && Entering(idx, p.level - 1, low, t0)
    ensures Begins(Search(idx, p, low, off, CursorOf(idx, t)), t)
  {
  }

  /** The walk of a page's downlinks before `off`. */
  predicate WalksTo(idx: Index, p: Page, off: nat, t0: Trace, t: Trace)
    requires Sane(p) && First(p) <= off <= Max(p) + 1
  {
    InStep(idx, p.level - 1, t) && !t.Skip? && Unwalk(p, off, t) == Just(t0)
  }

  lemma ItemSound(cols: seq<Column>, idx: Index, p: Page, low: Maybe<Tuple>, off: nat, t0: Trace, t: Trace) returns (v: Trace)
    requires Sane(p) && !p.leaf && First(p) <= off <= Max(p) && WalksTo(idx, p, off, t0, t) && Entering(idx, p.level - 1, low, t0)
    requires ItemResult(cols, idx, p, low, off, CursorOf(idx, t)).verdict == Accepted
    ensures WalksTo(idx, p, off + 1, t0, v) && ItemResult(cols, idx, p, low, off, CursorOf(idx, t)).cursor == CursorOf(idx, v)
    ensures ItemOk(cols, idx, p, off) && (off != First(p) ==> ChildAbove(cols, idx, Item(p, off)))
  {
    ItemBegins(idx, p, low, off, t0, t);
    v := SearchSound(Search(idx, p, low, off, CursorOf(idx, t)), t);
  }

  lemma {:induction false} ItemsSound(cols: seq<Column>, idx: Index, p: Page, low: Maybe<Tuple>, off: nat, t0: Trace, t: Trace)
    returns (u: Trace)
    requires Sane(p) && !p.leaf && First(p) <= off <= Max(p) + 1 && WalksTo(idx, p, off, t0, t) && ItemsOk(cols, idx, p, off)
    requires Entering(idx, p.level - 1, low, t0) && ItemsResult(cols, idx, p, low, off, CursorOf(idx, t)).verdict == Accepted
    ensures WalksTo(idx, p, Max(p) + 1, t0, u) && ItemsOk(cols, idx, p, Max(p) + 1)
    ensures ItemsResult(cols, idx, p, low, off, CursorOf(idx, t)).cursor == CursorOf(idx, u)
    decreases Max(p) + 1 - off
  {
    if off > Max(p) {
      u := t;
    } else {
      var v := ItemSound(cols, idx, p, low, off, t0, t);
      u := ItemsSound(cols, idx, p, low, off + 1, t0, v);
    }
  }

  lemma ItemComplete(cols: seq<Column>, idx: Index, p: Page, low: Maybe<Tuple>, off: nat, t0: Trace, u: Trace)
    requires Sane(p) && !p.leaf && First(p) <= off <= Max(p) && Entering(idx, p.level - 1, low, t0)
    requires WalksTo(idx, p, Max(p) + 1, t0, u)
    requires ItemOk(cols, idx, p, off) && (off != First(p) ==> ChildAbove(cols, idx, Item(p, off)))
    ensures ItemResult(cols, idx, p, low, off, CursorOf(idx, UpTo(p, off, u)))
         == Found(Accepted, CursorOf(idx, UpTo(p, off + 1, u)))
  {
    var t, v := UpTo(p, off, u), UpTo(p, off + 1, u);
    UpToIs(idx, p.level - 1, p, off, u);
    UpToIs(idx, p.level - 1, p, off + 1, u);
    ItemBegins(idx, p, low, off, t0, t);
    SearchComplete(Search(idx, p, low, off, CursorOf(idx, t)), t, v);
  }

  lemma {:induction false} ItemsComplete(cols: seq<Column>, idx: Index, p: Page, low: Maybe<Tuple>, off: nat, t0: Trace, u: Trace)
    requires Sane(p) && !p.leaf && First(p) <= off <= Max(p) + 1 && Entering(idx, p.level - 1, low, t0)
    requires WalksTo(idx, p, Max(p) + 1, t0, u) && ItemsOk(cols, idx, p, Max(p) + 1)
    ensures ItemsResult(cols, idx, p, low, off, CursorOf(idx, UpTo(p, off, u))) == Found(Accepted, CursorOf(idx, u))
    decreases Max(p) + 1 - off
  {
    if off <= Max(p) {
      ItemsOkMeans(cols, idx, p, Max(p) + 1, off);
      ItemComplete(cols, idx, p, low, off, t0, u);
      ItemsComplete(cols, idx, p, low, off + 1, t0, u);
    }
  }

  /** A page that passes its checks, and a walk of its downlinks, and of what is left of the level after the last page. */
  predicate WalksPage(cols: seq<Column>, idx: Index, p: Page, t0: Trace, u: Trace)
    requires Sane(p)
  {
    && PageOk(cols, idx, p) && ChildrenAbove(cols, idx, p)
    && InStep(idx, p.level - 1, u) && Unwalk(p, Max(p) + 1, Strip(u)) == Just(t0)
    && if p.next == P_NONE then Ended(idx, u) else !u.Skip?
  }

  lemma EndBegins(idx: Index, p: Page, low: Maybe<Tuple>, t0: Trace, t: Trace)
    requires Sane(p) && !p.leaf && p.next == P_NONE && WalksTo(idx, p, Max(p) + 1, t0, t)
    ensures Begins(Search(idx, p, low, 0, CursorOf(idx, t)), t)
  {
  }

  /** After the rightmost page an accepted search has walked to the end of the level. */
  lemma EndSound(idx: Index, p: Page, low: Maybe<Tuple>, t0: Trace, t: Trace) returns (u: Trace)
    requires Sane(p) && !p.leaf && p.next == P_NONE && WalksTo(idx, p, Max(p) + 1, t0, t)
    requires SearchResult(Search(idx, p, low, 0, CursorOf(idx, t))).verdict == Accepted
    ensures InStep(idx, p.level - 1, u) && Strip(u) == t && Ended(idx, u)
  {
    EndBegins(idx, p, low, t0, t);
    u := SearchSound(Search(idx, p, low, 0, CursorOf(idx, t)), t);
  }

  /** An accepted internal page has been walked. */
  lemma PageSound(cols: seq<Column>, idx: Index, p: Page, low: Maybe<Tuple>, t: Trace) returns (u: Trace)
    requires Sane(p) && !p.leaf && Entering(idx, p.level - 1, low, t)
    requires PageResult(cols, idx, p, low, CursorOf(idx, t)).verdict == Accepted
    ensures WalksPage(cols, idx, p, t, u)
    ensures p.next != P_NONE ==> PageResult(cols, idx, p, low, CursorOf(idx, t)).cursor == CursorOf(idx, u)
  {
    u := ItemsSound(cols, idx, p, low, First(p), t, t);
    InternalPageOk(cols, idx, p);
    if p.next == P_NONE { u := EndSound(idx, p, low, t, u); }
  }

  /** A walk of an internal page makes the verifier accept it. */
  lemma PageComplete(cols: seq<Column>, idx: Index, p: Page, low: Maybe<Tuple>, t: Trace, u: Trace)
    requires Sane(p) && !p.leaf && Entering(idx, p.level - 1, low, t) && WalksPage(cols, idx, p, t, u)
    ensures PageResult(cols, idx, p, low, CursorOf(idx, t)).verdict == Accepted
    ensures p.next != P_NONE ==> PageResult(cols, idx, p, low, CursorOf(idx, t)).cursor == CursorOf(idx, u)
  {
    var v := Strip(u);
    StripInStep(idx, p.level - 1, u);
    ItemsOkFrom(cols, idx, p, Max(p) + 1);
    UpToIs(idx, p.level - 1, p, First(p), v);
    ItemsComplete(cols, idx, p, low, First(p), t, v);
    if p.next == P_NONE {
      EndBegins(idx, p, low, t, v);
      SearchComplete(Search(idx, p, low, 0, CursorOf(idx, v)), v, u);
    }
  }

  lemma {:induction false} ItemsOkFrom(cols: seq<Column>, idx: Index, p: Page, off: nat)
    requires Sane(p) && !p.leaf && First(p) <= off <= Max(p) + 1 && PageOk(cols, idx, p) && ChildrenAbove(cols, idx, p)
    ensures ItemsOk(cols, idx, p, off)
  {
    if off > First(p) {
      ItemsOkFrom(cols, idx, p, off - 1);
      assert ItemOk(cols, idx, p, off - 1);
    }
  }

  // ---------------------------------------------------------------------
  // One level
  // ---------------------------------------------------------------------

  predicate PagesOk(cols: seq<Column>, idx: Index, vs: seq<nat>) {
    forall i :: 0 <= i < |vs| && Loads(idx, vs[i]) ==>
      PageOk(cols, idx, idx[vs[i]]) && (!idx[vs[i]].leaf ==> ChildrenAbove(cols, idx, idx[vs[i]]))
  }

  lemma PagesOkAppend(cols: seq<Column>, idx: Index, vs: seq<nat>, b: nat)
    requires PagesOk(cols, idx, vs) && Loads(idx, b) && PageOk(cols, idx, idx[b])
    requires !idx[b].leaf ==> ChildrenAbove(cols, idx, idx[b])
    ensures PagesOk(cols, idx, vs + [b])
  {
  }

  /** The trace walks the downlinks of these pages, in order, and no others. */
  predicate LevelTrace(idx: Index, vs: seq<nat>, t: Trace) {
    if vs == [] then t == Start
    else
      var n := |vs| - 1;
      && Loads(idx, vs[n]) && var before := Unwalk(idx[vs[n]], Max(idx[vs[n]]) + 1, t);
         before.Just? && LevelTrace(idx, vs[..n], before.value)
  }

  lemma LevelTraceAppend(idx: Index, vs: seq<nat>, b: nat, before: Trace, t: Trace)
    requires LevelTrace(idx, vs, before) && Loads(idx, b) && Unwalk(idx[b], Max(idx[b]) + 1, t) == Just(before)
    ensures LevelTrace(idx, vs + [b], t)
  {
    assert (vs + [b])[..|vs|] == vs;
  }

  /**
   What acceptance of a level establishes: its pages from left to right, their checks,
   and a walk `t` of the level below that meets exactly their downlinks.
   */
  predicate AcceptedLevel(cols: seq<Column>, idx: Index, level: int, vs: seq<nat>, t: Trace) {
    && vs != [] && Siblings(idx, level, vs) && PagesOk(cols, idx, vs)
    && idx[Last(vs)].next == P_NONE
    && (level > 0 ==> LevelTrace(idx, vs, Strip(t)) && InStep(idx, level - 1, t) && Ended(idx, t))
  }

  /** A level that begins at this block and deserves acceptance. */
  predicate GoodLevel(cols: seq<Column>, idx: Index, leftmost: nat, level: int, trueRoot: bool, vs: seq<nat>, t: Trace) {
    AcceptedLevel(cols, idx, level, vs, t) && vs[0] == leftmost && RootFlag(idx, leftmost, trueRoot)
  }

  ghost predicate IsGood(cols: seq<Column>, idx: Index, leftmost: nat, level: int, trueRoot: bool) {
    exists vs, t :: GoodLevel(cols, idx, leftmost, level, trueRoot, vs, t)
  }

  /** The walk so far, on a level that has one below. */
  predicate Underway(idx: Index, level: int, vs: seq<nat>, low: Maybe<Tuple>, t: Trace) {
    level > 0 ==> LevelTrace(idx, vs, t) && Entering(idx, level - 1, low, t)
  }

  /** A page adds its downlinks to the walk. */
  lemma PageAdds(cols: seq<Column>, idx: Index, level: int, vs: seq<nat>, b: nat, t: Trace, u: Trace)
    requires level > 0 && LevelTrace(idx, vs, t) && Loads(idx, b) && idx[b].level == level && WalksPage(cols, idx, idx[b], t, u)
    ensures LevelTrace(idx, vs + [b], Strip(u))
    ensures idx[b].next != P_NONE ==> Underway(idx, level, vs + [b], LowKey(idx[b]), u)
  {
    LevelTraceAppend(idx, vs, b, t, Strip(u));
  }

  /** One accepted page of the level. */
  lemma TurnSound(cols: seq<Column>, idx: Index, level: nat, trueRoot: bool, vs: seq<nat>, current: nat, low: Maybe<Tuple>, t: Trace)
    returns (u: Trace)
    requires InPlace(idx, level, trueRoot, vs, current) && PagesOk(cols, idx, vs) && Underway(idx, level, vs, low, t)
    requires PageResult(cols, idx, idx[current], low, CursorOf(idx, t)).verdict == Accepted
    ensures PagesOk(cols, idx, vs + [current])
    ensures level > 0 ==> InStep(idx, level - 1, u) && LevelTrace(idx, vs + [current], Strip(u))
    ensures idx[current].next == P_NONE && level > 0 ==> Ended(idx, u)
    ensures idx[current].next != P_NONE ==>
      && Underway(idx, level, vs + [current], LowKey(idx[current]), u)
      && PageResult(cols, idx, idx[current], low, CursorOf(idx, t)).cursor == CursorOf(idx, u)
  {
    u := t;
    if level > 0 {
      u := PageSound(cols, idx, idx[current], low, t);
      PageAdds(cols, idx, level, vs, current, t, u);
    }
    PagesOkAppend(cols, idx, vs, current);
  }

  /** The step of LevelFrom over an accepted page. */
  lemma LevelStep(cols: seq<Column>, idx: Index, level: nat, trueRoot: bool, vs: seq<nat>, current: nat, low: Maybe<Tuple>, from: Cursor)
    requires Visited(idx, level, vs, current) && current != P_NONE
    requires LevelFrom(cols, idx, level, trueRoot, vs, current, low, from).verdict == Accepted
    ensures InPlace(idx, level, trueRoot, vs, current) && Visited(idx, level, vs + [current], idx[current].next) && |vs| < |idx|
    ensures var r := PageResult(cols, idx, idx[current], low, from);
      && r.verdict == Accepted
      && LevelFrom(cols, idx, level, trueRoot, vs, current, low, from)
      == LevelFrom(cols, idx, level, trueRoot, vs + [current], idx[current].next, LowKey(idx[current]), r.cursor)
  {
    VisitedAppend(idx, level, trueRoot, vs, current);
  }

  lemma {:induction false} LevelSound(cols: seq<Column>, idx: Index, level: nat, trueRoot: bool, vs: seq<nat>, current: nat,
                                      low: Maybe<Tuple>, from: Cursor, t: Trace) returns (u: Trace)
    requires Visited(idx, level, vs, current) && current != P_NONE && PagesOk(cols, idx, vs) && Underway(idx, level, vs, low, t)
    requires from == CursorOf(idx, t) && LevelFrom(cols, idx, level, trueRoot, vs, current, low, from).verdict == Accepted
    ensures var r := LevelFrom(cols, idx, level, trueRoot, vs, current, low, from);
      AcceptedLevel(cols, idx, level, r.pages, u) && r.pages[0] == (vs + [current])[0]
    ensures vs == [] ==> RootFlag(idx, current, trueRoot)
    decreases |idx| - |vs|
  {
    LevelStep(cols, idx, level, trueRoot, vs, current, low, from);
    u := TurnSound(cols, idx, level, trueRoot, vs, current, low, t);
    var p := idx[current];
    if p.next != P_NONE {
      u := LevelSound(cols, idx, level, trueRoot, vs + [current], p.next, LowKey(p), CursorOf(idx, u), u);
    }
  }

  // ---------------------------------------------------------------------
  // Good levels are accepted
  // ---------------------------------------------------------------------

  /** The part of a level's walk that comes before its page k. */
  function PageStart(idx: Index, vs: seq<nat>, t: Trace, k: nat): Trace
    requires k <= |vs|
    decreases |vs| - k
  {
    if k == |vs| then t
    else
      var u := PageStart(idx, vs, t, k + 1);
      var before := if Loads(idx, vs[k]) then Unwalk(idx[vs[k]], Max(idx[vs[k]]) + 1, Strip(u)) else Nothing;
      if before.Just? then before.value else u
  }

  lemma {:induction false} UnwalkInStep(idx: Index, level: int, p: Page, off: nat, t: Trace)
    requires Sane(p) && First(p) <= off <= Max(p) + 1 && Unwalk(p, off, t).Just? && InStep(idx, level, t)
    ensures InStep(idx, level, Unwalk(p, off, t).value) && (off > First(p) ==> !Unwalk(p, off, t).value.Skip?)
    decreases off
  {
    if off > First(p) {
      StripInStep(idx, level, t.rest);
      UnwalkInStep(idx, level, p, off - 1, Strip(t.rest));
    }
  }

  lemma {:induction false} PageStartIs(idx: Index, level: int, vs: seq<nat>, t: Trace, k: nat)
    requires Siblings(idx, level, vs) && level > 0 && LevelTrace(idx, vs, Strip(t)) && InStep(idx, level - 1, t) && k <= |vs|
    ensures var u := PageStart(idx, vs, t, k);
      InStep(idx, level - 1, u) && LevelTrace(idx, vs[..k], Strip(u)) && (k < |vs| ==> !u.Skip?)
    decreases |vs| - k
  {
    if k == |vs| {
      assert vs[..k] == vs;
    } else {
      PageStartIs(idx, level, vs, t, k + 1);
      SiblingAt(idx, level, vs, k);
      var u, p := PageStart(idx, vs, t, k + 1), idx[vs[k]];
      assert vs[..k + 1][..k] == vs[..k];
      StripInStep(idx, level - 1, u);
      UnwalkInStep(idx, level - 1, p, Max(p) + 1, Strip(u));
    }
  }

  /** The low key of page k. */
  function LowAt(idx: Index, vs: seq<nat>, k: nat): Maybe<Tuple>
    requires k <= |vs|
  {
    if k == 0 || !Loads(idx, vs[k - 1]) then Nothing else LowKey(idx[vs[k - 1]])
  }

  /** Before each of its pages the level's walk has the low key of that page as its last separator. */
  lemma PageEntering(idx: Index, level: int, vs: seq<nat>, t: Trace, k: nat)
    requires Siblings(idx, level, vs) && level > 0 && LevelTrace(idx, vs, Strip(t)) && InStep(idx, level - 1, t) && k < |vs|
    ensures Entering(idx, level - 1, LowAt(idx, vs, k), PageStart(idx, vs, t, k))
    ensures k == 0 ==> PageStart(idx, vs, t, k) == Start
  {
    PageStartIs(idx, level, vs, t, k);
    if k > 0 {
      SiblingAt(idx, level, vs, k - 1);
      SiblingAt(idx, level, vs, k);
    }
  }

  /** Page k of a good level is in its place. */
  lemma GoodPlace(cols: seq<Column>, idx: Index, leftmost: nat, level: nat, trueRoot: bool, vs: seq<nat>, t: Trace, k: nat)
    requires GoodLevel(cols, idx, leftmost, level, trueRoot, vs, t) && k < |vs|
    ensures InPlace(idx, level, trueRoot, vs[..k], vs[k]) && Visited(idx, level, vs[..k], vs[k])
    ensures PageOk(cols, idx, idx[vs[k]]) && (level > 0 ==> ChildrenAbove(cols, idx, idx[vs[k]]))
    ensures idx[vs[k]].next == if k + 1 < |vs| then vs[k + 1] else P_NONE
  {
    if k > 0 { SiblingAt(idx, level, vs, k - 1); }
    SiblingAt(idx, level, vs, k);
    SiblingsPrefix(idx, level, vs, k);
  }

  lemma {:induction false} SiblingsPrefix(idx: Index, level: int, vs: seq<nat>, k: nat)
    requires Siblings(idx, level, vs) && k <= |vs|
    ensures Siblings(idx, level, vs[..k])
    decreases |vs|
  {
    if k == |vs| {
      assert vs[..k] == vs;
    } else {
      SiblingsPrefix(idx, level, vs[..|vs| - 1], k);
      assert vs[..|vs| - 1][..k] == vs[..k];
    }
  }

  lemma GoodPageWalk(cols: seq<Column>, idx: Index, leftmost: nat, level: nat, trueRoot: bool, vs: seq<nat>, t: Trace, k: nat)
    requires GoodLevel(cols, idx, leftmost, level, trueRoot, vs, t) && level > 0 && k < |vs|
    ensures Loads(idx, vs[k]) && WalksPage(cols, idx, idx[vs[k]], PageStart(idx, vs, t, k), PageStart(idx, vs, t, k + 1))
  {
    GoodPlace(cols, idx, leftmost, level, trueRoot, vs, t, k);
    if k + 1 < |vs| { GoodPlace(cols, idx, leftmost, level, trueRoot, vs, t, k + 1); }
    PageStartIs(idx, level, vs, t, k + 1);
    assert vs[..k + 1][..k] == vs[..k];
  }

  /** A good level from its page k on. */
  lemma {:induction false} LevelComplete(cols: seq<Column>, idx: Index, leftmost: nat, level: nat, trueRoot: bool, vs: seq<nat>,
                                         t: Trace, k: nat, from: Cursor)
    requires GoodLevel(cols, idx, leftmost, level, trueRoot, vs, t) && k < |vs| && Visited(idx, level, vs[..k], vs[k])
    requires level > 0 ==> from == CursorOf(idx, PageStart(idx, vs, t, k))
    ensures LevelFrom(cols, idx, level, trueRoot, vs[..k], vs[k], LowAt(idx, vs, k), from) == Level(Accepted, vs)
    decreases |vs| - k
  {
    GoodPlace(cols, idx, leftmost, level, trueRoot, vs, t, k);
    var p := idx[vs[k]];
    if level > 0 {
      PageEntering(idx, level, vs, t, k);
      GoodPageWalk(cols, idx, leftmost, level, trueRoot, vs, t, k);
      PageComplete(cols, idx, p, LowAt(idx, vs, k), PageStart(idx, vs, t, k), PageStart(idx, vs, t, k + 1));
    }
    assert vs[..k] + [vs[k]] == vs[..k + 1];
    if k + 1 < |vs| {
      GoodPlace(cols, idx, leftmost, level, trueRoot, vs, t, k + 1);
      LevelComplete(cols, idx, leftmost, level, trueRoot, vs, t, k + 1, PageResult(cols, idx, p, LowAt(idx, vs, k), from).cursor);
    } else {
      assert vs[..k + 1] == vs;
    }
  }

  // ---------------------------------------------------------------------
  // Exactness
  // ---------------------------------------------------------------------

  /** The walk of the level below an accepted level. */
  lemma WalkBelow(cols: seq<Column>, idx: Index, leftmost: nat, level: nat, trueRoot: bool) returns (t: Trace)
    requires leftmost != P_NONE && LevelResult(cols, idx, leftmost, level, trueRoot).verdict == Accepted
    ensures GoodLevel(cols, idx, leftmost, level, trueRoot, LevelResult(cols, idx, leftmost, level, trueRoot).pages, t)
  {
    t := LevelSound(cols, idx, level, trueRoot, [], leftmost, Nothing, LEVEL_START, Start);
  }

  /** The check of a level accepts exactly the good levels, and names their pages. */
  lemma LevelIsExact(cols: seq<Column>, idx: Index, leftmost: nat, level: nat, trueRoot: bool)
    requires leftmost != P_NONE
    ensures var r := LevelResult(cols, idx, leftmost, level, trueRoot);
      && (r.verdict == Accepted <==> IsGood(cols, idx, leftmost, level, trueRoot))
      && (r.verdict == Accepted <==> exists t :: GoodLevel(cols, idx, leftmost, level, trueRoot, r.pages, t))
  {
    var r := LevelResult(cols, idx, leftmost, level, trueRoot);
    if r.verdict == Accepted {
      var t := WalkBelow(cols, idx, leftmost, level, trueRoot);
      assert GoodLevel(cols, idx, leftmost, level, trueRoot, r.pages, t);
    }
    if vs, t :| GoodLevel(cols, idx, leftmost, level, trueRoot, vs, t) {
      assert vs[..0] == [];
      if level > 0 { PageEntering(idx, level, vs, t, 0); }
      LevelComplete(cols, idx, leftmost, level, trueRoot, vs, t, 0, LEVEL_START);
    }
  }

  /** Good levels from this one down, each beginning where the one above says. */
  ghost predicate GoodIndex(cols: seq<Column>, idx: Index, leftmost: nat, level: nat, trueRoot: bool)
    decreases level
  {
    leftmost != P_NONE ==>
      && IsGood(cols, idx, leftmost, level, trueRoot)
      && (level > 0 ==> GoodIndex(cols, idx, LevelDown(idx, leftmost), level - 1, false))
  }

  /** The whole check accepts exactly the indexes all of whose levels are good. */
  lemma {:induction false} IndexIsExact(cols: seq<Column>, idx: Index, leftmost: nat, level: nat, trueRoot: bool)
    ensures IndexFrom(cols, idx, leftmost, level, trueRoot).verdict == Accepted
       <==> GoodIndex(cols, idx, leftmost, level, trueRoot)
    decreases level
  {
    if leftmost != P_NONE {
      LevelIsExact(cols, idx, leftmost, level, trueRoot);
      if level > 0 { IndexIsExact(cols, idx, LevelDown(idx, leftmost), level - 1, false); }
    }
  }
}
