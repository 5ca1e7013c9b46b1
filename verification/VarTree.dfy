/**
 Trees of bytea keys: exactly when a split of internal entries is sound, and why
 searching a tree built by inserts, leaf splits and unions misses nothing.
 */
module VarTrees {
  import opened VarKeys

  // ---------------------------------------------------------------------
  // Splitting internal entries: exact condition
  // ---------------------------------------------------------------------

  predicate AllMax(s: Bytes) {
    forall i :: 0 <= i < |s| ==> s[i] == 255
  }

  /** The key `t` prunes nothing that one of the entries may hold. */
  ghost predicate NeverPrunes(es: seq<Key>, t: Key) {
    forall i, v, q, s :: 0 <= i < |es| && Covers(es[i], v) && Satisfies(v, q, s) ==> Consistent(t, q, s, false)
  }

  /**
   No open entry is a proper prefix of the key's upper end, except where the lower
   end is a prefix of that entry too or the excess bytes are all 0xFF.
   */
  predicate NoGap(es: seq<Key>, t: Key) {
    forall i :: 0 <= i < |es| && Open(es[i]) && es[i].upper <= t.upper && |es[i].upper| < |t.upper| ==>
      t.lower <= es[i].upper || AllMax(t.upper[|es[i].upper|..])
  }

  /** A value that extends an entry with a gap above it, larger than the key and sharing no prefix with it. */
  function Witness(e: Key, t: Key, p: nat): Bytes
    requires |e.upper| <= p < |t.upper|
  {
    t.upper[..p] + [255]
  }

  lemma WitnessIsLost(e: Key, t: Key, p: nat)
    requires Ordered(e) && Open(e) && e.upper <= t.upper && |e.upper| <= p < |t.upper| && t.upper[p] != 255
    requires Le(t.lower, e.upper) && !(t.lower <= e.upper)
    ensures Covers(e, Witness(e, t, p)) && !Consistent(t, Witness(e, t, p), Equal, false)
  {
    var v := Witness(e, t, p);
    assert e.upper <= v;
    PrefixIsLess(e.upper, v);
    LeTransitive(e.lower, e.upper, v);
    assert v[..p] == t.upper[..p];
    CpUnique(v, t.upper, p);
    assert !(t.upper <= v) by { assert v[p] != t.upper[p]; }
    assert !(t.lower <= v) by {
      if t.lower <= v {
        if |e.upper| < |t.lower| {
          assert e.upper <= t.lower;
          PrefixIsLess(e.upper, t.lower);
          CmpAntisymmetric(e.upper, t.lower);
        }
      }
    }
  }

  /** The half key's relation to its entries. */
  lemma HalfBounds(es: seq<Key>, m: nat, i: nat)
    requires i < |es| && (forall e :: e in es ==> Ordered(e)) && m >= Cp(Hull(es).lower, Hull(es).upper)
    ensures var h, t := Hull(es), Truncate(Hull(es), m + 1);
      && Ordered(es[i]) && Ordered(h) && Le(h.lower, es[i].lower) && Le(es[i].upper, h.upper)
      && t.lower <= h.lower && t.upper <= h.upper && Le(t.lower, es[i].lower) && Le(t.lower, es[i].upper)
  {
    var h, t := Hull(es), Truncate(Hull(es), m + 1);
    assert es[i] in es;
    HullOrdered(es);
    HullBounds(es, i);
    PrefixIsLess(t.lower, h.lower);
    LeTransitive(t.lower, h.lower, es[i].lower);
    LeTransitive(t.lower, es[i].lower, es[i].upper);
  }

  /** Where a covered value can lie relative to the half key when there is no gap. */
  ghost predicate Within(t: Key, v: Bytes) {
    Le(t.lower, v) && (Le(v, t.upper) || t.upper <= v || exists u :: Bridges(t, v, u))
  }

  /** `u` extends the lower end and is a prefix of both the upper end and `v`. */
  predicate Bridges(t: Key, v: Bytes, u: Bytes) {
    t.lower <= u && u <= t.upper && u <= v
  }

  lemma NoGapWithin(es: seq<Key>, m: nat, i: nat, v: Bytes)
    requires i < |es| && (forall e :: e in es ==> Ordered(e)) && m >= Cp(Hull(es).lower, Hull(es).upper)
    requires NoGap(es, Truncate(Hull(es), m + 1)) && Covers(es[i], v)
    ensures Within(Truncate(Hull(es), m + 1), v)
  {
    var h, t, e := Hull(es), Truncate(Hull(es), m + 1), es[i];
    HalfBounds(es, m, i);
    LeTransitive(t.lower, e.lower, v);
    LeTransitive(h.lower, e.lower, v);
    if Le(v, e.upper) {
      LeTransitive(v, e.upper, h.upper);
      TruncateCoversBelow(h, m, v);
    } else {
      OpenEntryInHull(e, h, v);
      if Le(v, h.upper) {
        TruncateCoversBelow(h, m, v);
      } else {
        PrefixesNest(e.upper, t.upper, h.upper);
        BeyondWithin(e.upper, t, v);
      }
    }
  }

  lemma PrefixesNest(a: Bytes, b: Bytes, w: Bytes)
    requires a <= w && b <= w
    ensures a <= b || b <= a
  {
  }

  lemma BeyondWithin(u: Bytes, t: Key, v: Bytes)
    requires u <= v && (u <= t.upper || t.upper <= u) && Le(t.lower, v)
    requires u <= t.upper && |u| < |t.upper| ==> t.lower <= u || AllMax(t.upper[|u|..])
    ensures Within(t, v)
  {
    if t.upper <= u {
      assert t.upper <= v;
    } else if t.lower <= u {
      assert Bridges(t, v, u);
    } else {
      MaxExcess(u, t.upper, v);
    }
  }

  /** Above a prefix followed by 0xFF bytes there are only strings that extend the whole of it. */
  lemma MaxExcess(u: Bytes, w: Bytes, v: Bytes)
    requires u <= w && u <= v && AllMax(w[|u|..])
    ensures Le(v, w) || w <= v
  {
    var p := Cp(v, w);
    CpIs(v, w);
    LeTotal(v, w);
    if p < |v| && p < |w| {
      assert forall k :: 0 <= k < |u| ==> v[k] == w[k];
      assert w[p] == w[|u|..][p - |u|] == 255;
      CpUnique(v, w, p);
    } else if p == |w| {
      assert w == v[..p];
    } else {
      LeWitness(v, w, p);
    }
  }

  lemma WithinIsConsistent(t: Key, v: Bytes, q: Bytes, s: Strategy)
    requires Within(t, v) && Satisfies(v, q, s) && s != NotEqual
    ensures Consistent(t, q, s, false)
  {
    CmpAntisymmetric(q, t.lower);
    CmpAntisymmetric(v, q);
    if s == LessEqual || s == Less {
      LeTransitive(t.lower, v, q);
    } else if Le(v, t.upper) {
      LeTransitive(q, v, t.upper);
    } else {
      LeTotal(q, t.upper);
      if Le(t.upper, q) {
        if t.upper <= v {
          Squeeze(t.upper, q, v);
        } else {
          var u :| Bridges(t, v, u);
          PrefixIsLess(u, t.upper);
          LeTransitive(u, t.upper, q);
          Squeeze(u, q, v);
        }
      }
    }
  }

  /** A half key whose ends coincide stands for that one value. */
  lemma PointKey(es: seq<Key>, m: nat, i: nat, v: Bytes)
    requires i < |es| && (forall e :: e in es ==> Ordered(e)) && m >= Cp(Hull(es).lower, Hull(es).upper)
    requires Covers(es[i], v)
    ensures var t := Truncate(Hull(es), m + 1); t.lower == t.upper ==> v == t.lower
  {
    var h, t, e := Hull(es), Truncate(Hull(es), m + 1), es[i];
    HalfBounds(es, m, i);
    if t.lower == t.upper {
      CutKeepsCp(h.lower, h.upper, m + 2);
      CpUnique(t.lower, t.upper, |t.lower|);
      assert h.lower == t.lower && h.upper == t.upper;
      LeTransitive(e.lower, e.upper, h.upper);
      CmpAntisymmetric(h.lower, e.lower);
      LeTransitive(h.lower, e.lower, e.upper);
      CmpAntisymmetric(h.upper, e.upper);
      CpUnique(e.lower, e.upper, |e.lower|);
      CmpAntisymmetric(v, e.lower);
    }
  }

  lemma NoGapIsSound(es: seq<Key>, m: nat)
    requires es != [] && (forall e :: e in es ==> Ordered(e)) && m >= Cp(Hull(es).lower, Hull(es).upper)
    requires NoGap(es, Truncate(Hull(es), m + 1))
    ensures NeverPrunes(es, Truncate(Hull(es), m + 1))
  {
    var t := Truncate(Hull(es), m + 1);
    forall i, v, q, s | 0 <= i < |es| && Covers(es[i], v) && Satisfies(v, q, s) ensures Consistent(t, q, s, false) {
      if s == NotEqual {
        PointKey(es, m, i, v);
      } else {
        NoGapWithin(es, m, i, v);
        WithinIsConsistent(t, v, q, s);
      }
    }
  }

  ghost predicate Gap(e: Key, t: Key) {
    Open(e) && e.upper <= t.upper && |e.upper| < |t.upper| && !(t.lower <= e.upper) && !AllMax(t.upper[|e.upper|..])
  }

  lemma GapPrunes(e: Key, t: Key) returns (v: Bytes)
    requires Ordered(e) && Le(t.lower, e.upper) && Gap(e, t)
    ensures Covers(e, v) && !Consistent(t, v, Equal, false)
  {
    var excess := t.upper[|e.upper|..];
    var j :| 0 <= j < |excess| && excess[j] != 255;
    assert excess[j] == t.upper[|e.upper| + j];
    WitnessIsLost(e, t, |e.upper| + j);
    v := Witness(e, t, |e.upper| + j);
  }

  /**
   Truncating a half at a length `m` that may exceed its own common prefix loses
   nothing exactly when there is no gap.
   */
  lemma SplitSoundIffNoGap(es: seq<Key>, m: nat)
    requires es != [] && (forall e :: e in es ==> Ordered(e)) && m >= Cp(Hull(es).lower, Hull(es).upper)
    ensures NeverPrunes(es, Truncate(Hull(es), m + 1)) <==> NoGap(es, Truncate(Hull(es), m + 1))
  {
    var t := Truncate(Hull(es), m + 1);
    if NoGap(es, t) {
      NoGapIsSound(es, m);
    } else {
      var i :| 0 <= i < |es| && Gap(es[i], t);
      HalfBounds(es, m, i);
      var v := GapPrunes(es[i], t);
      assert Satisfies(v, v, Equal);
    }
  }

  /** A half whose own prefix length is the larger one has no gap. */
  lemma OwnLengthHasNoGap(es: seq<Key>)
    requires es != [] && forall e :: e in es ==> Ordered(e)
    ensures NeverPrunes(es, UnionKey(es))
  {
    var h := Hull(es);
    forall i, v, q, s | 0 <= i < |es| && Covers(es[i], v) && Satisfies(v, q, s) ensures Consistent(UnionKey(es), q, s, false) {
      UnionCovers(es, i, v);
      CoveredIsConsistent(UnionKey(es), v, q, s);
    }
  }

  // ---------------------------------------------------------------------
  // What the key of a split half stands for
  // ---------------------------------------------------------------------

  /** A key whose lower end is a prefix of its upper end matches by that prefix, so only two bytes beyond it tell. */
  function Reduced(k: Key): Key {
    if k.lower <= k.upper then Truncate(k, Cp(k.lower, k.upper) + 1) else k
  }

  /** Value `v` may be stored below `k`, when `k` may come from the split of internal entries. */
  predicate Admits(k: Key, v: Bytes) { Covers(Reduced(k), v) }

  lemma ReducedIs(k: Key)
    requires Ordered(k)
    ensures var r := Reduced(k); r.lower == k.lower && r.upper <= k.upper && Le(r.upper, k.upper) && Ordered(r)
    ensures k.lower <= k.upper ==> Cp(k.lower, k.upper) == |k.lower|
  {
    if k.lower <= k.upper { CpUnique(k.lower, k.upper, |k.lower|); }
    PrefixIsLess(Reduced(k).upper, k.upper);
    if k.lower <= k.upper { TruncateOrdered(k, Cp(k.lower, k.upper) + 1); }
  }

  lemma CoversAdmits(k: Key, v: Bytes)
    requires Ordered(k) && Covers(k, v)
    ensures Admits(k, v)
  {
    CmpAntisymmetric(k.lower, k.lower);
    CmpAntisymmetric(k.upper, k.upper);
    if k.lower <= k.upper { TruncatedHullCovers(k, k, v); }
  }

  /** A key that admits a matching value is never pruned. */
  lemma AdmittedIsConsistent(k: Key, v: Bytes, q: Bytes, s: Strategy)
    requires Ordered(k) && Admits(k, v) && Satisfies(v, q, s)
    ensures Consistent(k, q, s, false)
  {
    var r := Reduced(k);
    ReducedIs(k);
    CoveredIsConsistent(r, v, q, s);
    if Le(q, r.upper) { LeTransitive(q, r.upper, k.upper); }
    if r.upper <= q && k.lower <= k.upper { assert k.lower <= r.upper; }
  }

  lemma UnionAdmits(es: seq<Key>, i: nat, v: Bytes)
    requires i < |es| && (forall e :: e in es ==> Ordered(e)) && Admits(es[i], v)
    ensures Ordered(UnionKey(es)) && Admits(UnionKey(es), v)
  {
    var h, e := Hull(es), es[i];
    assert e in es;
    ReducedIs(e);
    HullOrdered(es);
    HullBounds(es, i);
    LeTransitive(Reduced(e).upper, e.upper, h.upper);
    TruncateOrdered(h, Cp(h.lower, h.upper) + 1);
    TruncatedHullCovers(h, Reduced(e), v);
    CoversAdmits(UnionKey(es), v);
  }

  /** No gap above an entry, as far as its key tells. */
  predicate NoGapAbove(e: Key, t: Key) {
    Open(e) && e.upper <= t.upper && |e.upper| < |t.upper| ==> t.lower <= e.upper || AllMax(t.upper[|e.upper|..])
  }

  /** A value beyond an open entry, and beyond the hull, under the half key. */
  lemma BeyondAdmitted(h: Key, m: nat, e: Key, v: Bytes)
    requires Ordered(h) && m >= Cp(h.lower, h.upper) && Le(h.lower, v) && Open(e) && e.upper <= v && e.upper <= h.upper
    requires Cp(h.lower, h.upper) <= Cp(e.lower, e.upper) && NoGapAbove(e, Truncate(h, m + 1))
    ensures Admits(Truncate(h, m + 1), v)
  {
    var t := Truncate(h, m + 1);
    TruncateOrdered(h, m + 1);
    CutKeepsCp(h.lower, h.upper, m + 2);
    PrefixIsLess(t.lower, h.lower);
    LeTransitive(t.lower, h.lower, v);
    if t.upper <= e.upper {
      CoversAdmits(t, v);
    } else if t.lower <= e.upper {
      ReducedIs(t);
      PrefixesAgree(e.upper, t.upper, Cp(t.lower, t.upper) + 2);
      PrefixesAgree(e.upper, v, Cp(t.lower, t.upper) + 2);
      CutKeepsCp(t.lower, t.upper, Cp(t.lower, t.upper) + 2);
    } else {
      MaxExcess(e.upper, t.upper, v);
      CoversAdmits(t, v);
    }
  }

  /** Without a gap above an entry the half key admits what the entry admits. */
  lemma HalfAdmits(es: seq<Key>, m: nat, i: nat, v: Bytes)
    requires i < |es| && (forall e :: e in es ==> Ordered(e)) && m >= Cp(Hull(es).lower, Hull(es).upper)
    requires NoGapAbove(Reduced(es[i]), Truncate(Hull(es), m + 1)) && Admits(es[i], v)
    ensures Ordered(Truncate(Hull(es), m + 1)) && Admits(Truncate(Hull(es), m + 1), v)
  {
    var h, e := Hull(es), Reduced(es[i]);
    assert es[i] in es;
    ReducedIs(es[i]);
    HullOrdered(es);
    HullBounds(es, i);
    TruncateOrdered(h, m + 1);
    LeTransitive(e.upper, es[i].upper, h.upper);
    LeTransitive(h.lower, e.lower, v);
    if Le(v, e.upper) {
      LeTransitive(v, e.upper, h.upper);
      TruncateCoversBelow(h, m, v);
      CoversAdmits(Truncate(h, m + 1), v);
    } else {
      OpenEntryInHull(e, h, v);
      if Le(v, h.upper) {
        TruncateCoversBelow(h, m, v);
        CoversAdmits(Truncate(h, m + 1), v);
      } else {
        BeyondAdmitted(h, m, e, v);
      }
    }
  }

  /** A half key admits all that one of its entries admits exactly when there is no gap above that entry. */
  lemma HalfAdmitsIff(es: seq<Key>, m: nat, i: nat)
    requires i < |es| && (forall e :: e in es ==> Ordered(e)) && m >= Cp(Hull(es).lower, Hull(es).upper)
    ensures var t := Truncate(Hull(es), m + 1);
      (forall v :: Admits(es[i], v) ==> Admits(t, v)) <==> NoGapAbove(Reduced(es[i]), t)
  {
    var t, e := Truncate(Hull(es), m + 1), Reduced(es[i]);
    if NoGapAbove(e, t) {
      forall v | Admits(es[i], v) ensures Admits(t, v) { HalfAdmits(es, m, i, v); }
    } else {
      HalfBounds(es, m, i);
      ReducedIs(es[i]);
      TruncateOrdered(Hull(es), m + 1);
      LeTransitive(t.lower, e.lower, e.upper);
      var v := GapPrunes(e, t);
      if Admits(t, v) { AdmittedIsConsistent(t, v, v, Equal); }
    }
  }

  // ---------------------------------------------------------------------
  // The split that loses a row
  // ---------------------------------------------------------------------

  // "aa0" and "abcz" under one key, "abb" and "abcd" under the next, two long keys in the other half
  const ROW: Bytes := [97, 98, 99, 122]
  const FIRST := [Key([97, 97, 48], [97, 97, 48]), Key(ROW, ROW)]
  const SECOND := [Key([97, 98, 98], [97, 98, 98]), Key([97, 98, 99, 100], [97, 98, 99, 100])]
  const FIRST_KEY := Key([97, 97, 48], [97, 98, 99])
  const SECOND_KEY := Key([97, 98, 98], [97, 98, 99, 100])
  const RIGHT := [Key([122, 122, 122, 122, 49], [122, 122, 122, 122, 49]), Key([122, 122, 122, 122, 51], [122, 122, 122, 122, 51])]
  const RIGHT_HALF := Key([122, 122, 122, 122, 49], [122, 122, 122, 122, 51])

  lemma UnionOfTwo(a: Key, b: Key)
    requires Cmp(a.lower, b.lower) <= 0 && Cmp(a.upper, b.upper) < 0
    ensures Hull([a, b]) == Key(a.lower, b.upper)
  {
    assert WidenAll(a, [a, b], 1) == WidenAll(Widen(a, b), [a, b], 2);
  }

  /** The left half's keys come from unions of leaves, and the first one covers the row. */
  lemma LostRowIsStored()
    ensures UnionKey(FIRST) == FIRST_KEY && Ordered(FIRST_KEY) && Covers(FIRST_KEY, ROW)
  {
    CpUnique(FIRST[0].lower, FIRST[1].lower, 1);
    UnionOfTwo(FIRST[0], FIRST[1]);
    CpUnique(FIRST_KEY.lower, FIRST_KEY.upper, 1);
    CpUnique(FIRST_KEY.lower, ROW, 1);
  }

  lemma SecondKeyIsUnion()
    ensures UnionKey(SECOND) == SECOND_KEY && Ordered(SECOND_KEY)
  {
    CpUnique(SECOND[0].lower, SECOND[1].lower, 2);
    UnionOfTwo(SECOND[0], SECOND[1]);
    CpUnique(SECOND_KEY.lower, SECOND_KEY.upper, 2);
  }

  lemma LostRowHull()
    ensures Hull([FIRST_KEY, SECOND_KEY]) == Key(FIRST_KEY.lower, SECOND_KEY.upper)
  {
    CpUnique(FIRST_KEY.lower, SECOND_KEY.lower, 1);
    CpUnique(FIRST_KEY.upper, SECOND_KEY.upper, 3);
    UnionOfTwo(FIRST_KEY, SECOND_KEY);
  }

  lemma LostRowPruned()
    ensures !Consistent(Key(FIRST_KEY.lower, SECOND_KEY.upper), ROW, Equal, false)
  {
    CpUnique(ROW, SECOND_KEY.upper, 3);
    assert SECOND_KEY.upper[3] != ROW[3] && FIRST_KEY.lower[1] != ROW[1];
  }

  lemma RightHalfIsHull()
    ensures Hull(RIGHT) == RIGHT_HALF && UnionKey([RIGHT[0]]) == RIGHT[0] && UnionKey([RIGHT[1]]) == RIGHT[1]
    ensures Ordered(RIGHT[0]) && Ordered(RIGHT[1])
  {
    CpUnique(RIGHT[0].lower, RIGHT[1].lower, 4);
    UnionOfTwo(RIGHT[0], RIGHT[1]);
    CpUnique(RIGHT[0].lower, RIGHT[0].upper, 5);
    CpUnique(RIGHT[1].lower, RIGHT[1].upper, 5);
  }

  /** After splitting internal entries the key of the left half prunes a search for the stored row. */
  lemma SplitKeys()
    ensures var m := SplitLen(Hull([FIRST_KEY, SECOND_KEY]), RIGHT_HALF);
      && m == 4 && Truncate(Hull([FIRST_KEY, SECOND_KEY]), m + 1) == Key(FIRST_KEY.lower, SECOND_KEY.upper)
      && Truncate(RIGHT_HALF, m + 1) == RIGHT_HALF
    ensures !Consistent(Key(FIRST_KEY.lower, SECOND_KEY.upper), ROW, Equal, false) && !Consistent(RIGHT_HALF, ROW, Equal, false)
  {
    LostRowHull();
    var h := Key(FIRST_KEY.lower, SECOND_KEY.upper);
    CpUnique(h.lower, h.upper, 1);
    CpUnique(RIGHT_HALF.lower, RIGHT_HALF.upper, 4);
    LostRowPruned();
    CpUnique(RIGHT_HALF.lower, ROW, 0);
  }

  // ---------------------------------------------------------------------
  // Trees and searches
  // ---------------------------------------------------------------------

  datatype Tree = Page(values: seq<Bytes>) | Node(entries: seq<Child>)
  datatype Child = Child(key: Key, sub: Tree)

  /** Everything stored in a tree, with multiplicity. */
  ghost function Values(t: Tree): multiset<Bytes>
    decreases t, 0
  {
    match t
    case Page(vs) => multiset(vs)
    case Node(es) => ValuesOf(es)
  }

  ghost function ValuesOf(es: seq<Child>): multiset<Bytes>
    decreases es, 1
  {
    if es == [] then multiset{} else ValuesBelow(es[0]) + ValuesOf(es[1..])
  }

  ghost function ValuesBelow(c: Child): multiset<Bytes>
    decreases c, 1
  {
    Values(c.sub)
  }

  /** Each key is ordered and admits every value below it, at every level. */
  ghost predicate Covered(t: Tree)
    decreases t, 0
  {
    match t
    case Page(_) => true
    case Node(es) => CoveredAll(es)
  }

  ghost predicate CoveredAll(es: seq<Child>)
    decreases es, 1
  {
    es != [] ==> CoveredChild(es[0]) && CoveredAll(es[1..])
  }

  ghost predicate CoveredChild(c: Child)
    decreases c, 1
  {
    Ordered(c.key) && (forall v :: v in Values(c.sub) ==> Admits(c.key, v)) && Covered(c.sub)
  }

  /** The search: leaf entries are compared exactly, a subtree is entered only when its key is consistent. */
  ghost function Search(t: Tree, q: Bytes, s: Strategy): multiset<Bytes>
    decreases t, 0
  {
    match t
    case Page(vs) => SearchPage(vs, q, s)
    case Node(es) => SearchAll(es, q, s)
  }

  ghost function SearchPage(vs: seq<Bytes>, q: Bytes, s: Strategy): multiset<Bytes> {
    if vs == [] then multiset{}
    else (if Consistent(Key(vs[0], vs[0]), q, s, true) then multiset{vs[0]} else multiset{}) + SearchPage(vs[1..], q, s)
  }

  ghost function SearchAll(es: seq<Child>, q: Bytes, s: Strategy): multiset<Bytes>
    decreases es, 1
  {
    if es == [] then multiset{}
    else SearchChild(es[0], q, s) + SearchAll(es[1..], q, s)
  }

  ghost function SearchChild(c: Child, q: Bytes, s: Strategy): multiset<Bytes>
    decreases c, 1
  {
    if Consistent(c.key, q, s, false) then Search(c.sub, q, s) else multiset{}
  }

  /** `found` holds each value of `all` that satisfies the query, as often as it is stored, and nothing else. */
  ghost predicate Exactly(found: multiset<Bytes>, all: multiset<Bytes>, q: Bytes, s: Strategy) {
    forall v :: found[v] == if Satisfies(v, q, s) then all[v] else 0
  }

  lemma {:induction false} PageSearchIsExact(vs: seq<Bytes>, q: Bytes, s: Strategy)
    ensures Exactly(SearchPage(vs, q, s), multiset(vs), q, s)
  {
    if vs != [] {
      LeafIsExact(vs[0], q, s);
      PageSearchIsExact(vs[1..], q, s);
      assert vs == [vs[0]] + vs[1..];
    }
  }

  /** A search of a covered tree returns exactly the stored values that satisfy the query. */
  lemma {:induction false} SearchIsExact(t: Tree, q: Bytes, s: Strategy)
    requires Covered(t)
    ensures Exactly(Search(t, q, s), Values(t), q, s)
    decreases t, 0
  {
    match t
    case Page(vs) => PageSearchIsExact(vs, q, s);
    case Node(es) => SearchAllIsExact(es, q, s);
  }

  lemma {:induction false} SearchAllIsExact(es: seq<Child>, q: Bytes, s: Strategy)
    requires CoveredAll(es)
    ensures Exactly(SearchAll(es, q, s), ValuesOf(es), q, s)
    decreases es, 1
  {
    if es != [] {
      SearchChildIsExact(es[0], q, s);
      SearchAllIsExact(es[1..], q, s);
    }
  }

  lemma {:induction false} SearchChildIsExact(c: Child, q: Bytes, s: Strategy)
    requires CoveredChild(c)
    ensures Exactly(SearchChild(c, q, s), ValuesBelow(c), q, s)
    decreases c, 1
  {
    SearchIsExact(c.sub, q, s);
    if !Consistent(c.key, q, s, false) {
      forall v | v in Values(c.sub) ensures !Satisfies(v, q, s) {
        if Satisfies(v, q, s) { AdmittedIsConsistent(c.key, v, q, s); }
      }
    }
  }

  // ---------------------------------------------------------------------
  // Growing a tree
  // ---------------------------------------------------------------------

  function LeafKeys(vs: seq<Bytes>): (ks: seq<Key>)
    ensures |ks| == |vs| && forall i :: 0 <= i < |ks| ==> ks[i] == Key(vs[i], vs[i])
  {
    seq(|vs|, i requires 0 <= i < |vs| => Key(vs[i], vs[i]))
  }

  function KeysOf(es: seq<Child>): (ks: seq<Key>)
    ensures |ks| == |es| && forall i :: 0 <= i < |ks| ==> ks[i] == es[i].key
  {
    seq(|es|, i requires 0 <= i < |es| => es[i].key)
  }

  /** The two children a full page is replaced by: its values dealt to the left and the right half. */
  function SplitChildren(l: seq<Bytes>, r: seq<Bytes>): seq<Child>
    requires l != [] && r != []
  {
    var hl, hr := Hull(LeafKeys(l)), Hull(LeafKeys(r));
    var m := SplitLen(hl, hr) + 1;
    [Child(Truncate(hl, m), Page(l)), Child(Truncate(hr, m), Page(r))]
  }

  predicate IsSplitOf(t: Tree, l: seq<Bytes>, r: seq<Bytes>) {
    t.Page? && l != [] && r != [] && multiset(l + r) == multiset(t.values)
  }

  /** The same for an internal page: its entries dealt to two halves. */
  function SplitNodes(l: seq<Child>, r: seq<Child>): seq<Child>
    requires l != [] && r != []
  {
    var hl, hr := Hull(KeysOf(l)), Hull(KeysOf(r));
    var m := SplitLen(hl, hr) + 1;
    [Child(Truncate(hl, m), Node(l)), Child(Truncate(hr, m), Node(r))]
  }

  predicate IsNodeSplitOf(t: Tree, l: seq<Child>, r: seq<Child>) {
    t.Node? && l != [] && r != [] && multiset(l + r) == multiset(t.entries)
  }

  /** No entry of either half has a gap above it. */
  predicate NoGaps(l: seq<Child>, r: seq<Child>)
    requires l != [] && r != []
  {
    var ts := SplitNodes(l, r);
    NoneHasGap(l, ts[0].key) && NoneHasGap(r, ts[1].key)
  }

  predicate NoneHasGap(es: seq<Child>, t: Key) {
    forall i :: 0 <= i < |es| ==> NoGapAbove(Reduced(es[i].key), t)
  }

  /**
   Changes made at one node: store a value, split a child page in two, put a new node over
   a run of entries, split an internal child in two.
   */
  datatype Change =
    | Insert(v: Bytes)
    | SplitChild(i: nat, l: seq<Bytes>, r: seq<Bytes>)
    | Group(lo: nat, hi: nat)
    | SplitNode(i: nat, nl: seq<Child>, nr: seq<Child>)

  /** What the change makes of node `t`; a change that does not apply leaves it alone. */
  function Local(t: Tree, c: Change): Tree {
    match c
    case Insert(v) => if t.Page? then Page(t.values + [v]) else t
    case SplitChild(i, l, r) =>
      if t.Node? && i < |t.entries| && IsSplitOf(t.entries[i].sub, l, r)
      then Node(t.entries[..i] + SplitChildren(l, r) + t.entries[i + 1..]) else t
    case Group(lo, hi) =>
      if t.Node? && lo < hi <= |t.entries|
      then Node(t.entries[..lo] + [Over(t.entries[lo..hi])] + t.entries[hi..]) else t
    case SplitNode(i, l, r) =>
      if t.Node? && i < |t.entries| && IsNodeSplitOf(t.entries[i].sub, l, r)
      then Node(t.entries[..i] + SplitNodes(l, r) + t.entries[i + 1..]) else t
  }

  /** A split of internal entries leaves no gap. */
  predicate Gapless(c: Change) {
    c.SplitNode? && c.nl != [] && c.nr != [] ==> NoGaps(c.nl, c.nr)
  }

  function Over(es: seq<Child>): Child
    requires es != []
  {
    Child(UnionKey(KeysOf(es)), Node(es))
  }

  /** The change at the end of `path`; on an insert every key on the way is widened by union. */
  function Grow(t: Tree, path: seq<nat>, c: Change): Tree
    decreases |path|
  {
    if path == [] then Local(t, c)
    else if t.Page? || path[0] >= |t.entries| then t
    else
      var e := t.entries[path[0]];
      var key := if c.Insert? then UnionKey([e.key, Key(c.v, c.v)]) else e.key;
      Node(t.entries[path[0] := Child(key, Grow(e.sub, path[1..], c))])
  }

  datatype Step =
    | At(path: seq<nat>, change: Change)
    | SplitRoot(l: seq<Bytes>, r: seq<Bytes>)
    | SplitRootNode(nl: seq<Child>, nr: seq<Child>)

  function Do(t: Tree, st: Step): Tree {
    match st
    case At(path, c) => Grow(t, path, c)
    case SplitRoot(l, r) => if IsSplitOf(t, l, r) then Node(SplitChildren(l, r)) else t
    case SplitRootNode(l, r) => if IsNodeSplitOf(t, l, r) then Node(SplitNodes(l, r)) else t
  }

  predicate GaplessStep(st: Step) {
    match st
    case At(_, c) => Gapless(c)
    case SplitRoot(_, _) => true
    case SplitRootNode(l, r) => l != [] && r != [] ==> NoGaps(l, r)
  }

  function Build(t: Tree, steps: seq<Step>): Tree
    decreases |steps|
  {
    if steps == [] then t else Build(Do(t, steps[0]), steps[1..])
  }

  // -- list lemmas --

  lemma {:induction false} CoveredAllIsAll(es: seq<Child>)
    ensures CoveredAll(es) <==> forall i :: 0 <= i < |es| ==> CoveredChild(es[i])
  {
    if es != [] {
      CoveredAllIsAll(es[1..]);
      if CoveredAll(es) {
        forall i | 0 <= i < |es| ensures CoveredChild(es[i]) {
          if i > 0 { assert es[i] == es[1..][i - 1]; }
        }
      }
    }
  }

  lemma ValuesOfCons(c: Child, es: seq<Child>)
    ensures ValuesOf([c] + es) == ValuesBelow(c) + ValuesOf(es)
  {
    assert ([c] + es)[1..] == es;
  }

  lemma {:induction false} ValuesOfConcat(a: seq<Child>, b: seq<Child>)
    ensures ValuesOf(a + b) == ValuesOf(a) + ValuesOf(b)
  {
    if a == [] {
      assert a + b == b;
    } else {
      ValuesOfConcat(a[1..], b);
      ValuesOfCons(a[0], a[1..] + b);
      assert a + b == [a[0]] + (a[1..] + b);
      Assoc(ValuesBelow(a[0]), ValuesOf(a[1..]), ValuesOf(b));
    }
  }

  lemma Assoc(a: multiset<Bytes>, b: multiset<Bytes>, c: multiset<Bytes>)
    ensures (a + b) + c == a + (b + c)
  {
  }

  lemma Shuffle(a: multiset<Bytes>, m: multiset<Bytes>, c: multiset<Bytes>, x: multiset<Bytes>)
    ensures a + (m + x) + c == a + (m + c) + x
  {
  }

  /** Replacing a run of entries by ones that hold `added` more adds that to the whole. */
  lemma ValuesOfReplace(es: seq<Child>, lo: nat, hi: nat, mid: seq<Child>, added: multiset<Bytes>)
    requires lo <= hi <= |es| && ValuesOf(mid) == ValuesOf(es[lo..hi]) + added
    ensures ValuesOf(es[..lo] + mid + es[hi..]) == ValuesOf(es) + added
  {
    var a, m, c := es[..lo], es[lo..hi], es[hi..];
    assert es == a + (m + c);
    ValuesOfConcat(a, m + c);
    ValuesOfConcat(m, c);
    ValuesOfConcat(a + mid, c);
    ValuesOfConcat(a, mid);
    Shuffle(ValuesOf(a), ValuesOf(m), ValuesOf(c), added);
  }

  lemma ValuesOfOne(c: Child)
    ensures ValuesOf([c]) == Values(c.sub)
  {
    assert [c][1..] == [];
  }

  lemma {:induction false} ValueHasHome(es: seq<Child>, v: Bytes)
    ensures v in ValuesOf(es) <==> exists i :: 0 <= i < |es| && v in Values(es[i].sub)
  {
    if es != [] {
      ValueHasHome(es[1..], v);
      if v in ValuesOf(es) && v !in Values(es[0].sub) {
        var i :| 0 <= i < |es[1..]| && v in Values(es[1..][i].sub);
        assert es[i + 1] == es[1..][i];
      }
      if exists i :: 0 <= i < |es| && v in Values(es[i].sub) {
        var i :| 0 <= i < |es| && v in Values(es[i].sub);
        if i > 0 { assert es[i] == es[1..][i - 1]; }
      }
    }
  }

  // -- each change keeps keys covering --

  lemma SplitChildrenValues(l: seq<Bytes>, r: seq<Bytes>)
    requires l != [] && r != []
    ensures ValuesOf(SplitChildren(l, r)) == multiset(l + r)
  {
    var cs := SplitChildren(l, r);
    assert cs == [cs[0]] + [cs[1]];
    ValuesOfConcat([cs[0]], [cs[1]]);
    ValuesOfOne(cs[0]);
    ValuesOfOne(cs[1]);
  }

  lemma SplitChildrenCovered(l: seq<Bytes>, r: seq<Bytes>)
    requires l != [] && r != []
    ensures CoveredAll(SplitChildren(l, r))
  {
    var m := SplitLen(Hull(LeafKeys(l)), Hull(LeafKeys(r)));
    HalfCovered(l, m);
    HalfCovered(r, m);
    BothCovered(SplitChildren(l, r));
  }

  lemma OneCovered(c: Child)
    requires CoveredChild(c)
    ensures CoveredAll([c])
  {
    assert [c][1..] == [];
  }

  lemma BothCovered(cs: seq<Child>)
    requires |cs| == 2
    ensures CoveredChild(cs[0]) && CoveredChild(cs[1]) ==> CoveredAll(cs)
  {
    if CoveredChild(cs[0]) && CoveredChild(cs[1]) {
      assert cs[1..] == [cs[1]];
      OneCovered(cs[1]);
    }
  }

  lemma HalfCovered(vs: seq<Bytes>, m: nat)
    requires vs != [] && m >= Cp(Hull(LeafKeys(vs)).lower, Hull(LeafKeys(vs)).upper)
    ensures CoveredChild(Child(Truncate(Hull(LeafKeys(vs)), m + 1), Page(vs)))
  {
    var t := Truncate(Hull(LeafKeys(vs)), m + 1);
    SplitCoversLeaves(LeafKeys(vs), m, 0);
    forall v | v in Values(Page(vs)) ensures Admits(t, v) {
      assert v in vs;
      var i :| 0 <= i < |vs| && vs[i] == v;
      SplitCoversLeaves(LeafKeys(vs), m, i);
      CoversAdmits(t, v);
    }
    assert Covered(Page(vs));
  }

  lemma OverCovered(es: seq<Child>)
    requires es != [] && CoveredAll(es)
    ensures CoveredChild(Over(es))
  {
    var ks := KeysOf(es);
    KeysOrdered(es);
    HullOrdered(ks);
    TruncateOrdered(Hull(ks), Cp(Hull(ks).lower, Hull(ks).upper) + 1);
    forall v | v in ValuesOf(es) ensures Admits(UnionKey(ks), v) {
      var i := Home(es, v);
      UnionAdmits(ks, i, v);
    }
  }

  /** Widening an entry's key by a leaf key keeps what it admitted and adds the leaf. */
  lemma WidenedAdmits(k: Key, v: Bytes, w: Bytes)
    requires Ordered(k) && (Admits(k, w) || w == v)
    ensures Ordered(UnionKey([k, Key(v, v)])) && Admits(UnionKey([k, Key(v, v)]), w)
  {
    CmpAntisymmetric(v, v);
    var es := [k, Key(v, v)];
    if w == v { CoversAdmits(es[1], w); }
    UnionAdmits(es, if w == v then 1 else 0, w);
  }

  // -- splitting internal entries --

  lemma {:induction false} ValuesOfPermuted(a: seq<Child>, b: seq<Child>)
    requires multiset(a) == multiset(b)
    ensures ValuesOf(a) == ValuesOf(b)
    decreases |a|
  {
    if a == [] {
      assert |multiset(b)| == 0;
    } else {
      assert a[0] in multiset(b);
      var j :| 0 <= j < |b| && b[j] == a[0];
      var rest := b[..j] + b[j + 1..];
      assert b == b[..j] + ([b[j]] + b[j + 1..]);
      assert a == [a[0]] + a[1..];
      SameRest(a[0], multiset(a[1..]), multiset(rest));
      ValuesOfPermuted(a[1..], rest);
      ValuesOfConcat(b[..j], [b[j]] + b[j + 1..]);
      ValuesOfConcat([b[j]], b[j + 1..]);
      ValuesOfConcat(b[..j], b[j + 1..]);
      ValuesOfOne(b[j]);
      MoveToFront(ValuesOf(b[..j]), ValuesBelow(b[j]), ValuesOf(b[j + 1..]));
    }
  }

  lemma SameRest(c: Child, x: multiset<Child>, y: multiset<Child>)
    ensures multiset{c} + x == y + multiset{c} ==> x == y
  {
    if multiset{c} + x == y + multiset{c} {
      forall d ensures x[d] == y[d] { assert (multiset{c} + x)[d] == (y + multiset{c})[d]; }
    }
  }

  lemma MoveToFront(a: multiset<Bytes>, m: multiset<Bytes>, c: multiset<Bytes>)
    ensures a + (m + c) == m + (a + c)
  {
  }

  lemma SplitNodesValues(l: seq<Child>, r: seq<Child>)
    requires l != [] && r != []
    ensures ValuesOf(SplitNodes(l, r)) == ValuesOf(l + r)
  {
    var cs := SplitNodes(l, r);
    assert cs == [cs[0]] + [cs[1]];
    ValuesOfConcat([cs[0]], [cs[1]]);
    ValuesOfOne(cs[0]);
    ValuesOfOne(cs[1]);
    ValuesOfConcat(l, r);
  }

  lemma NodeHalfAdmits(es: seq<Child>, m: nat, v: Bytes)
    requires es != [] && CoveredAll(es) && m >= Cp(Hull(KeysOf(es)).lower, Hull(KeysOf(es)).upper) && v in ValuesOf(es)
    requires NoneHasGap(es, Truncate(Hull(KeysOf(es)), m + 1))
    ensures Admits(Truncate(Hull(KeysOf(es)), m + 1), v)
  {
    KeysOrdered(es);
    var i := Home(es, v);
    HalfAdmits(KeysOf(es), m, i, v);
  }

  lemma NodeHalfCovered(es: seq<Child>, m: nat)
    requires es != [] && CoveredAll(es) && m >= Cp(Hull(KeysOf(es)).lower, Hull(KeysOf(es)).upper)
    requires NoneHasGap(es, Truncate(Hull(KeysOf(es)), m + 1))
    ensures CoveredChild(Child(Truncate(Hull(KeysOf(es)), m + 1), Node(es)))
  {
    KeysOrdered(es);
    HullOrdered(KeysOf(es));
    TruncateOrdered(Hull(KeysOf(es)), m + 1);
    forall v | v in Values(Node(es)) ensures Admits(Truncate(Hull(KeysOf(es)), m + 1), v) { NodeHalfAdmits(es, m, v); }
    assert Covered(Node(es));
  }

  /** The entry below which a value is stored admits it. */
  lemma Home(es: seq<Child>, v: Bytes) returns (i: nat)
    requires CoveredAll(es) && v in ValuesOf(es)
    ensures i < |es| && Admits(es[i].key, v)
  {
    CoveredAllIsAll(es);
    ValueHasHome(es, v);
    i :| 0 <= i < |es| && v in Values(es[i].sub);
    assert CoveredChild(es[i]);
  }

  lemma KeysOrdered(es: seq<Child>)
    requires CoveredAll(es)
    ensures forall k :: k in KeysOf(es) ==> Ordered(k)
  {
    CoveredAllIsAll(es);
    var ks := KeysOf(es);
    forall k | k in ks ensures Ordered(k) {
      var i :| 0 <= i < |ks| && ks[i] == k;
      assert CoveredChild(es[i]);
    }
  }

  lemma SplitNodesCovered(l: seq<Child>, r: seq<Child>)
    requires l != [] && r != [] && CoveredAll(l) && CoveredAll(r) && NoGaps(l, r)
    ensures CoveredAll(SplitNodes(l, r))
  {
    var m := SplitLen(Hull(KeysOf(l)), Hull(KeysOf(r)));
    var ts := SplitNodes(l, r);
    assert ts[0].key == Truncate(Hull(KeysOf(l)), m + 1) && ts[1].key == Truncate(Hull(KeysOf(r)), m + 1);
    NodeHalfCovered(l, m);
    NodeHalfCovered(r, m);
    BothCovered(ts);
  }

  lemma DealtCovered(es: seq<Child>, l: seq<Child>, r: seq<Child>)
    requires CoveredAll(es) && multiset(l + r) == multiset(es)
    ensures CoveredAll(l) && CoveredAll(r)
  {
    CoveredAllIsAll(es);
    forall i | 0 <= i < |l + r| ensures CoveredChild((l + r)[i]) {
      assert (l + r)[i] in multiset(es);
      var j :| 0 <= j < |es| && es[j] == (l + r)[i];
    }
    CoveredAllIsAll(l + r);
    CoveredParts(l + r, |l|);
    assert (l + r)[..|l|] == l && (l + r)[|l|..] == r;
  }

  lemma NodeSplitKeepsCovered(es: seq<Child>, i: nat, l: seq<Child>, r: seq<Child>)
    requires CoveredAll(es) && i < |es| && IsNodeSplitOf(es[i].sub, l, r) && NoGaps(l, r)
    ensures var res := es[..i] + SplitNodes(l, r) + es[i + 1..]; CoveredAll(res) && ValuesOf(res) == ValuesOf(es)
  {
    CoveredAllIsAll(es);
    assert CoveredChild(es[i]);
    DealtCovered(es[i].sub.entries, l, r);
    SplitNodesCovered(l, r);
    SplitNodesValues(l, r);
    ValuesOfPermuted(l + r, es[i].sub.entries);
    ReplaceKeepsCovered(es, i, i + 1, SplitNodes(l, r));
    assert es[i..i + 1] == [es[i]];
    ValuesOfOne(es[i]);
    ValuesOfReplace(es, i, i + 1, SplitNodes(l, r), multiset{});
  }

  /** What a change adds to the stored values. */
  ghost function Added(t: Tree, path: seq<nat>, c: Change): multiset<Bytes>
    decreases |path|
  {
    if path == [] then (if c.Insert? && t.Page? then multiset{c.v} else multiset{})
    else if t.Page? || path[0] >= |t.entries| then multiset{}
    else Added(t.entries[path[0]].sub, path[1..], c)
  }

  lemma LocalKeepsCovered(t: Tree, c: Change)
    requires Covered(t) && Gapless(c)
    ensures Covered(Local(t, c)) && Values(Local(t, c)) == Values(t) + Added(t, [], c)
  {
    match c
    case Insert(v) =>
    case SplitChild(i, l, r) =>
      if t.Node? && i < |t.entries| && IsSplitOf(t.entries[i].sub, l, r) { SplitKeepsCovered(t.entries, i, l, r); }
    case Group(lo, hi) =>
      if t.Node? && lo < hi <= |t.entries| { GroupKeepsCovered(t.entries, lo, hi); }
    case SplitNode(i, l, r) =>
      if t.Node? && i < |t.entries| && IsNodeSplitOf(t.entries[i].sub, l, r) { NodeSplitKeepsCovered(t.entries, i, l, r); }
  }

  lemma SplitKeepsCovered(es: seq<Child>, i: nat, l: seq<Bytes>, r: seq<Bytes>)
    requires CoveredAll(es) && i < |es| && IsSplitOf(es[i].sub, l, r)
    ensures var res := es[..i] + SplitChildren(l, r) + es[i + 1..]; CoveredAll(res) && ValuesOf(res) == ValuesOf(es)
  {
    SplitChildrenCovered(l, r);
    ReplaceKeepsCovered(es, i, i + 1, SplitChildren(l, r));
    SplitChildSame(es, i, l, r);
    ValuesOfReplace(es, i, i + 1, SplitChildren(l, r), multiset{});
  }

  lemma SplitChildSame(es: seq<Child>, i: nat, l: seq<Bytes>, r: seq<Bytes>)
    requires i < |es| && IsSplitOf(es[i].sub, l, r)
    ensures ValuesOf(SplitChildren(l, r)) == ValuesOf(es[i..i + 1])
  {
    SplitChildrenValues(l, r);
    assert es[i..i + 1] == [es[i]];
    ValuesOfOne(es[i]);
  }

  lemma GroupKeepsCovered(es: seq<Child>, lo: nat, hi: nat)
    requires CoveredAll(es) && lo < hi <= |es|
    ensures var res := es[..lo] + [Over(es[lo..hi])] + es[hi..]; CoveredAll(res) && ValuesOf(res) == ValuesOf(es)
  {
    CoveredParts(es, hi);
    CoveredParts(es[..hi], lo);
    assert es[..hi][lo..] == es[lo..hi];
    OverCovered(es[lo..hi]);
    OneCovered(Over(es[lo..hi]));
    ReplaceKeepsCovered(es, lo, hi, [Over(es[lo..hi])]);
    ValuesOfOne(Over(es[lo..hi]));
    ValuesOfReplace(es, lo, hi, [Over(es[lo..hi])], multiset{});
  }

  lemma {:induction false} CoveredConcat(a: seq<Child>, b: seq<Child>)
    requires CoveredAll(a) && CoveredAll(b)
    ensures CoveredAll(a + b)
  {
    if a == [] {
      assert a + b == b;
    } else {
      CoveredConcat(a[1..], b);
      assert (a + b)[1..] == a[1..] + b;
    }
  }

  lemma {:induction false} CoveredParts(es: seq<Child>, n: nat)
    requires CoveredAll(es) && n <= |es|
    ensures CoveredAll(es[..n]) && CoveredAll(es[n..])
  {
    if n == 0 {
      assert es[..0] == [] && es[0..] == es;
    } else {
      CoveredParts(es[1..], n - 1);
      assert es[..n][1..] == es[1..][..n - 1] && es[n..] == es[1..][n - 1..];
    }
  }

  lemma ReplaceKeepsCovered(es: seq<Child>, lo: nat, hi: nat, mid: seq<Child>)
    requires lo <= hi <= |es| && CoveredAll(es) && CoveredAll(mid)
    ensures CoveredAll(es[..lo] + mid + es[hi..])
  {
    CoveredParts(es, lo);
    CoveredParts(es, hi);
    CoveredConcat(es[..lo], mid);
    CoveredConcat(es[..lo] + mid, es[hi..]);
  }

  lemma {:induction false} GrowKeepsCovered(t: Tree, path: seq<nat>, c: Change)
    requires Covered(t) && Gapless(c)
    ensures Covered(Grow(t, path, c)) && Values(Grow(t, path, c)) == Values(t) + Added(t, path, c)
    decreases |path|
  {
    if path == [] {
      LocalKeepsCovered(t, c);
    } else if t.Node? && path[0] < |t.entries| {
      var es, i := t.entries, path[0];
      var e := es[i];
      CoveredAllIsAll(es);
      assert CoveredChild(e);
      GrowKeepsCovered(e.sub, path[1..], c);
      var key := if c.Insert? then UnionKey([e.key, Key(c.v, c.v)]) else e.key;
      var sub, added := Grow(e.sub, path[1..], c), Added(e.sub, path[1..], c);
      AddedIsInserted(e.sub, path[1..], c);
      ChildGrows(e, c, sub, added, key);
      UpdateKeepsCovered(es, i, Child(key, sub), added);
    }
  }

  lemma {:induction false} AddedIsInserted(t: Tree, path: seq<nat>, c: Change)
    ensures forall v :: v in Added(t, path, c) ==> c.Insert? && v == c.v
    decreases |path|
  {
    if path != [] && t.Node? && path[0] < |t.entries| { AddedIsInserted(t.entries[path[0]].sub, path[1..], c); }
  }

  lemma UpdateKeepsCovered(es: seq<Child>, i: nat, c: Child, added: multiset<Bytes>)
    requires CoveredAll(es) && i < |es| && CoveredChild(c) && Values(c.sub) == Values(es[i].sub) + added
    ensures CoveredAll(es[i := c]) && ValuesOf(es[i := c]) == ValuesOf(es) + added
  {
    UpdateIsReplace(es, i, c);
    ReplaceKeepsCovered(es, i, i + 1, [c]);
    ValuesOfOne(es[i]);
    ValuesOfOne(c);
    ValuesOfReplace(es, i, i + 1, [c], added);
  }

  lemma UpdateIsReplace(es: seq<Child>, i: nat, c: Child)
    requires i < |es|
    ensures es[i := c] == es[..i] + [c] + es[i + 1..] && es[i..i + 1] == [es[i]]
  {
  }

  lemma ChildGrows(e: Child, c: Change, sub: Tree, added: multiset<Bytes>, key: Key)
    requires CoveredChild(e) && Covered(sub) && Values(sub) == Values(e.sub) + added
    requires key == if c.Insert? then UnionKey([e.key, Key(c.v, c.v)]) else e.key
    requires forall v :: v in added ==> c.Insert? && v == c.v
    ensures CoveredChild(Child(key, sub))
  {
    if c.Insert? {
      WidenedAdmits(e.key, c.v, c.v);
      forall w | w in Values(sub) ensures Admits(key, w) {
        WidenedAdmits(e.key, c.v, w);
      }
    }
  }

  lemma DoKeepsCovered(t: Tree, st: Step)
    requires Covered(t) && GaplessStep(st)
    ensures Covered(Do(t, st))
  {
    match st
    case At(path, c) => GrowKeepsCovered(t, path, c);
    case SplitRoot(l, r) => if IsSplitOf(t, l, r) { SplitChildrenCovered(l, r); }
    case SplitRootNode(l, r) =>
      if IsNodeSplitOf(t, l, r) {
        DealtCovered(t.entries, l, r);
        SplitNodesCovered(l, r);
      }
  }

  /** Any run of inserts, page splits, unions and splits of internal entries without gaps keeps every key admitting. */
  lemma {:induction false} BuildKeepsCovered(t: Tree, steps: seq<Step>)
    requires Covered(t) && forall i :: 0 <= i < |steps| ==> GaplessStep(steps[i])
    ensures Covered(Build(t, steps))
    decreases |steps|
  {
    if steps != [] {
      DoKeepsCovered(t, steps[0]);
      BuildKeepsCovered(Do(t, steps[0]), steps[1..]);
    }
  }

  /** Truncated keys never prune a match: every search of every tree so built is exact. */
  lemma TruncatedKeysNeverPrune(steps: seq<Step>, q: Bytes, s: Strategy)
    requires forall i :: 0 <= i < |steps| ==> GaplessStep(steps[i])
    ensures var t := Build(Page([]), steps); Exactly(Search(t, q, s), Values(t), q, s)
  {
    BuildKeepsCovered(Page([]), steps);
    SearchIsExact(Build(Page([]), steps), q, s);
  }

  // ---------------------------------------------------------------------
  // The lost row in a tree
  // ---------------------------------------------------------------------

  /** The values of leaf keys. */
  function Leaves(ks: seq<Key>): seq<Bytes> { seq(|ks|, i requires 0 <= i < |ks| => ks[i].lower) }

  /** A page of these leaves under the union of their keys. */
  function Under(ks: seq<Key>): Child
    requires ks != []
  {
    Child(UnionKey(ks), Page(Leaves(ks)))
  }

  function LeftEntries(): seq<Child> { [Under(FIRST), Under(SECOND)] }

  function RightEntries(): seq<Child> { [Under([RIGHT[0]]), Under([RIGHT[1]])] }

  /** A node over four pages, each under the union of its leaves. */
  function LosingTree(): Tree { Node(LeftEntries() + RightEntries()) }

  lemma UnderCovered(ks: seq<Key>)
    requires ks != [] && forall k :: k in ks ==> k.lower == k.upper
    ensures CoveredChild(Under(ks))
  {
    forall k | k in ks ensures Ordered(k) { CmpAntisymmetric(k.lower, k.upper); }
    HullOrdered(ks);
    TruncateOrdered(Hull(ks), Cp(Hull(ks).lower, Hull(ks).upper) + 1);
    var vs := Leaves(ks);
    forall v | v in Values(Page(vs)) ensures Admits(UnionKey(ks), v) {
      assert v in vs;
      var i :| 0 <= i < |vs| && vs[i] == v;
      assert ks[i] in ks;
      CmpAntisymmetric(v, v);
      UnionCovers(ks, i, v);
      CoversAdmits(UnionKey(ks), v);
    }
    assert Covered(Page(vs));
  }

  lemma LosingTreeCovered()
    ensures Covered(LosingTree())
  {
    UnderCovered(FIRST);
    UnderCovered(SECOND);
    UnderCovered([RIGHT[0]]);
    UnderCovered([RIGHT[1]]);
    BothCovered(LeftEntries());
    BothCovered(RightEntries());
    CoveredConcat(LeftEntries(), RightEntries());
  }

  lemma LosingEntryKeys()
    ensures KeysOf(LeftEntries()) == [FIRST_KEY, SECOND_KEY] && KeysOf(RightEntries()) == RIGHT
  {
    LostRowIsStored();
    SecondKeyIsUnion();
    RightHalfIsHull();
  }

  lemma SplitNodesAre(l: seq<Child>, r: seq<Child>, hl: Key, hr: Key)
    requires l != [] && r != [] && Hull(KeysOf(l)) == hl && Hull(KeysOf(r)) == hr
    ensures var ts, m := SplitNodes(l, r), SplitLen(hl, hr);
      |ts| == 2 && ts[0].key == Truncate(hl, m + 1) && ts[1].key == Truncate(hr, m + 1)
  {
  }

  lemma RowIsStored()
    ensures ROW in ValuesOf(LeftEntries())
  {
    assert Leaves(FIRST)[1] == ROW;
    ValueHasHome(LeftEntries(), ROW);
    assert ROW in Values(LeftEntries()[0].sub);
  }

  /** Two subtrees whose keys are not consistent are not entered. */
  lemma SearchOfTwo(es: seq<Child>, q: Bytes, s: Strategy)
    requires |es| == 2 && !Consistent(es[0].key, q, s, false) && !Consistent(es[1].key, q, s, false)
    ensures SearchAll(es, q, s) == multiset{}
  {
    assert es[1..] == [es[1]] && [es[1]][1..] == [];
    assert SearchAll([es[1]], q, s) == SearchChild(es[1], q, s) + SearchAll([], q, s);
  }

  /** A split of the root's entries keeps the values; a search neither half key is consistent with finds nothing. */
  lemma SplitOfRoot(l: seq<Child>, r: seq<Child>, q: Bytes, s: Strategy)
    requires l != [] && r != []
    requires var ts := SplitNodes(l, r); !Consistent(ts[0].key, q, s, false) && !Consistent(ts[1].key, q, s, false)
    ensures var t := Do(Node(l + r), SplitRootNode(l, r));
      Values(t) == Values(Node(l + r)) && Search(t, q, s) == multiset{}
  {
    SplitNodesValues(l, r);
    SearchOfTwo(SplitNodes(l, r), q, s);
  }

  lemma LosingKeys()
    ensures var ts := SplitNodes(LeftEntries(), RightEntries());
      !Consistent(ts[0].key, ROW, Equal, false) && !Consistent(ts[1].key, ROW, Equal, false)
  {
    LosingEntryKeys();
    RightHalfIsHull();
    SplitNodesAre(LeftEntries(), RightEntries(), Hull([FIRST_KEY, SECOND_KEY]), RIGHT_HALF);
    SplitKeys();
  }

  lemma RowIsFound()
    ensures Covered(LosingTree()) && ROW in Values(LosingTree()) && ROW in Search(LosingTree(), ROW, Equal)
  {
    LosingTreeCovered();
    RowIsStored();
    ValuesOfConcat(LeftEntries(), RightEntries());
    SearchIsExact(LosingTree(), ROW, Equal);
  }

  /** The tree finds the row; after the split of its root's entries the row is stored and not found. */
  lemma SplitLosesRow()
    ensures Covered(LosingTree()) && ROW in Search(LosingTree(), ROW, Equal)
    ensures var t := Do(LosingTree(), SplitRootNode(LeftEntries(), RightEntries()));
      Values(t) == Values(LosingTree()) && ROW in Values(t) && ROW !in Search(t, ROW, Equal)
  {
    RowIsFound();
    LosingKeys();
    SplitOfRoot(LeftEntries(), RightEntries(), ROW, Equal);
  }
}
