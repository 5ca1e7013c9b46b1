/**
 The pages of a B-tree index as its verifier reads them, what the check of a single
 page establishes, and the sibling links of a level.  A page has no state of deletion
 in this model.
 */
module BtreePages {
  import opened BtreeKeys
  import opened Maybes

  const P_NONE: nat := 0
  const P_HIKEY: nat := 1

  /** `tuples[0]` is the page's high key, unless the page is the rightmost of its level. */
  datatype Page = Page(prev: nat, next: nat, level: nat, leaf: bool, root: bool, split: bool, tuples: seq<Tuple>)

  type Index = map<nat, Page>

  // ---------------------------------------------------------------------
  // Pages and offsets
  // ---------------------------------------------------------------------

  function Max(p: Page): nat { |p.tuples| }

  function First(p: Page): nat { if p.next == P_NONE then 1 else 2 }

  /** On internal pages the first data item has no key. */
  predicate NegInf(p: Page, off: nat) { !p.leaf && off == First(p) }

  /** The first item with a key. */
  function FirstReal(p: Page): nat { if p.leaf then First(p) else First(p) + 1 }

  predicate Has(p: Page, off: nat) { 0 < off <= Max(p) }

  function Item(p: Page, off: nat): Tuple
    requires Has(p, off)
  {
    p.tuples[off - 1]
  }

  /** palloc_btree_page's checks. */
  predicate Sane(p: Page) {
    && (p.leaf <==> p.level == 0)
    && (!p.leaf ==> Max(p) >= First(p))
    && (p.leaf && p.next != P_NONE ==> Max(p) >= P_HIKEY)
  }

  predicate Loads(idx: Index, b: nat) { b != P_NONE && b in idx && Sane(idx[b]) }

  function HighKey(p: Page): Tuple
    requires p.next != P_NONE && Sane(p)
  {
    Item(p, P_HIKEY)
  }

  /** _bt_check_natts. */
  predicate NattsOk(cols: seq<Column>, p: Page, off: nat)
    requires Has(p, off)
  {
    var t := Item(p, off);
    if p.leaf && off >= First(p) then |t.atts| == |cols| && t.tid.At?
    else if NegInf(p, off) then t.atts == []
    else 0 < |t.atts| <= |cols| && (t.tid.At? ==> |t.atts| == |cols|)
  }

  /** A search key keeps the key columns only. */
  function Key(cols: seq<Column>, t: Tuple): (k: Tuple)
    ensures |k.atts| <= |cols|
  {
    if |t.atts| <= |cols| then t else t.(atts := t.atts[..|cols|])
  }

  // ---------------------------------------------------------------------
  // What a page check establishes
  // ---------------------------------------------------------------------

  predicate BelowHighKey(cols: seq<Column>, p: Page, off: nat)
    requires Has(p, off) && Sane(p)
  {
    p.next != P_NONE ==>
      if p.leaf then InvariantLeq(cols, Key(cols, Item(p, off)), HighKey(p))
      else InvariantL(cols, Key(cols, Item(p, off)), HighKey(p))
  }

  /** The last item is before the right sibling's first item with a key, if there is one. */
  predicate BelowSibling(cols: seq<Column>, idx: Index, p: Page)
    requires Has(p, Max(p))
  {
    p.next != P_NONE ==>
      && Loads(idx, p.next)
      && var r := idx[p.next];
         Has(r, FirstReal(r)) ==> InvariantG(cols, Key(cols, Item(r, FirstReal(r))), Item(p, Max(p)))
  }

  predicate ItemOk(cols: seq<Column>, idx: Index, p: Page, off: nat)
    requires Has(p, off) && Sane(p)
  {
    && NattsOk(cols, p, off)
    && (!NegInf(p, off) ==>
         && BelowHighKey(cols, p, off)
         && if off < Max(p) then InvariantL(cols, Key(cols, Item(p, off)), Item(p, off + 1)) else BelowSibling(cols, idx, p))
  }

  predicate PageOk(cols: seq<Column>, idx: Index, p: Page)
    requires Sane(p)
  {
    && (p.next != P_NONE ==> NattsOk(cols, p, P_HIKEY))
    && (forall off :: First(p) <= off <= Max(p) ==> ItemOk(cols, idx, p, off))
  }

  /** Every keyed item of the child is after the key of the item that points to it. */
  predicate ChildAbove(cols: seq<Column>, idx: Index, t: Tuple) {
    && Loads(idx, t.downlink)
    && var c := idx[t.downlink];
       forall off :: FirstReal(c) <= off <= Max(c) ==> InvariantL(cols, Key(cols, t), Item(c, off))
  }

  predicate ChildrenAbove(cols: seq<Column>, idx: Index, p: Page) {
    forall off :: FirstReal(p) <= off <= Max(p) ==> ChildAbove(cols, idx, Item(p, off))
  }

  // ---------------------------------------------------------------------
  // Downlinks and separators
  // ---------------------------------------------------------------------

  /** The downlinks of a page's items from its first data item up to `off`, excluded. */
  function Downlinks(p: Page, off: nat): seq<nat>
    requires First(p) <= off <= Max(p) + 1
  {
    if off == First(p) then [] else Downlinks(p, off - 1) + [Item(p, off - 1).downlink]
  }

  /** The key that separates an item's child from the next one. */
  function SepAfter(p: Page, off: nat): Maybe<Tuple>
    requires Has(p, off) && Sane(p)
  {
    if off < Max(p) then Just(Item(p, off + 1)) else if p.next != P_NONE then Just(HighKey(p)) else Nothing
  }

  predicate Identical(a: Tuple, b: Tuple) { a.atts == b.atts && a.tid == b.tid }

  /** An internal page's items before `off` pass their checks. */
  predicate ItemsOk(cols: seq<Column>, idx: Index, p: Page, off: nat)
    requires Sane(p) && First(p) <= off <= Max(p) + 1
  {
    off > First(p) ==>
      && ItemsOk(cols, idx, p, off - 1) && ItemOk(cols, idx, p, off - 1)
      && (off - 1 != First(p) ==> ChildAbove(cols, idx, Item(p, off - 1)))
  }

  lemma {:induction false} ItemsOkMeans(cols: seq<Column>, idx: Index, p: Page, off: nat, o: nat)
    requires Sane(p) && First(p) <= o < off <= Max(p) + 1 && ItemsOk(cols, idx, p, off)
    ensures ItemOk(cols, idx, p, o) && (o != First(p) ==> ChildAbove(cols, idx, Item(p, o)))
  {
    if o < off - 1 { ItemsOkMeans(cols, idx, p, off - 1, o); }
  }

  /** All items checked: the page is in order and its children are above their keys. */
  lemma InternalPageOk(cols: seq<Column>, idx: Index, p: Page)
    requires Sane(p) && !p.leaf && ItemsOk(cols, idx, p, Max(p) + 1) && (p.next != P_NONE ==> NattsOk(cols, p, P_HIKEY))
    ensures PageOk(cols, idx, p) && ChildrenAbove(cols, idx, p)
  {
    forall o | First(p) <= o <= Max(p) ensures ItemOk(cols, idx, p, o) { ItemsOkMeans(cols, idx, p, Max(p) + 1, o); }
    forall o | FirstReal(p) <= o <= Max(p) ensures ChildAbove(cols, idx, Item(p, o)) {
      ItemsOkMeans(cols, idx, p, Max(p) + 1, o);
    }
  }

  function Last(vs: seq<nat>): nat
    requires vs != []
  {
    vs[|vs| - 1]
  }

  /** Blocks of one level from its left end, linked to each other in both directions. */
  predicate Siblings(idx: Index, level: int, vs: seq<nat>) {
    vs != [] ==>
      var n := |vs| - 1;
      && Siblings(idx, level, vs[..n]) && Loads(idx, vs[n]) && idx[vs[n]].level == level
      && if n == 0 then idx[vs[n]].prev == P_NONE
         else idx[vs[n]].prev == vs[n - 1] && vs[n - 1] in idx && idx[vs[n - 1]].next == vs[n]
  }

  lemma SiblingsAppend(idx: Index, level: int, vs: seq<nat>, b: nat)
    requires Siblings(idx, level, vs) && Loads(idx, b) && idx[b].level == level
    requires idx[b].prev == if vs == [] then P_NONE else Last(vs)
    requires vs != [] ==> idx[Last(vs)].next == b
    ensures Siblings(idx, level, vs + [b])
  {
    assert (vs + [b])[..|vs|] == vs;
  }

  lemma {:induction false} SiblingAt(idx: Index, level: int, vs: seq<nat>, i: nat)
    requires Siblings(idx, level, vs) && i < |vs|
    ensures Loads(idx, vs[i]) && idx[vs[i]].level == level
    ensures idx[vs[i]].prev == if i == 0 then P_NONE else vs[i - 1]
    ensures i + 1 < |vs| ==> idx[vs[i]].next == vs[i + 1]
    decreases |vs|
  {
    var n := |vs| - 1;
    if i < n { SiblingAt(idx, level, vs[..n], i); }
  }

  /** Left links are functional and the first one leads nowhere, so no block occurs twice. */
  lemma {:induction false} SiblingsDistinct(idx: Index, level: int, vs: seq<nat>, i: nat, j: nat)
    requires Siblings(idx, level, vs) && i < j < |vs|
    ensures vs[i] != vs[j]
  {
    SiblingAt(idx, level, vs, i);
    SiblingAt(idx, level, vs, j);
    SiblingAt(idx, level, vs, j - 1);
    if i > 0 { SiblingsDistinct(idx, level, vs, i - 1, j - 1); }
  }

  lemma SiblingsBounded(idx: Index, level: int, vs: seq<nat>)
    requires Siblings(idx, level, vs)
    ensures |vs| <= |idx|
  {
    forall i, j | 0 <= i < j < |vs| ensures vs[i] != vs[j] { SiblingsDistinct(idx, level, vs, i, j); }
    forall i | 0 <= i < |vs| ensures vs[i] in idx.Keys { SiblingAt(idx, level, vs, i); }
    DistinctBounded(vs, idx.Keys);
    assert |idx.Keys| == |idx|;
  }

  lemma {:induction false} DistinctBounded(vs: seq<nat>, keys: set<nat>)
    requires forall i, j :: 0 <= i < j < |vs| ==> vs[i] != vs[j]
    requires forall i :: 0 <= i < |vs| ==> vs[i] in keys
    ensures |vs| <= |keys|
    decreases |vs|
  {
    if vs != [] {
      var n := |vs| - 1;
      assert forall i :: 0 <= i < n ==> vs[..n][i] == vs[i];
      DistinctBounded(vs[..n], keys - {vs[n]});
    }
  }
}
