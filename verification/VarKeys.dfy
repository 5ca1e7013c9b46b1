/**
 Variable-length GiST keys of btree_gist, for bytea: interval keys whose ends are
 truncated to the common prefix plus two bytes, and a search that makes up for
 the truncation with a prefix match.
 */
module VarKeys {

  type byte = b: int | 0 <= b < 256
  type Bytes = seq<byte>

  // ---------------------------------------------------------------------
  // Byte strings: common prefix and comparison
  // ---------------------------------------------------------------------

  /** Length of the longest common prefix. */
  function Cp(a: Bytes, b: Bytes): (p: nat)
    ensures p <= |a| && p <= |b|
  {
    CpFrom(a, b, 0)
  }

  /** The first position from i on where the strings differ or one ends. */
  function CpFrom(a: Bytes, b: Bytes, i: nat): (p: nat)
    requires i <= |a| && i <= |b|
    ensures i <= p <= |a| && p <= |b|
    decreases |a| - i
  {
    if i < |a| && i < |b| && a[i] == b[i] then CpFrom(a, b, i + 1) else i
  }

  lemma {:induction false} CpFromIs(a: Bytes, b: Bytes, i: nat)
    requires i <= |a| && i <= |b|
    ensures var p := CpFrom(a, b, i);
      (forall k :: i <= k < p ==> a[k] == b[k]) && (p < |a| && p < |b| ==> a[p] != b[p])
    decreases |a| - i
  {
    if i < |a| && i < |b| && a[i] == b[i] { CpFromIs(a, b, i + 1); }
  }

  lemma CpIs(a: Bytes, b: Bytes)
    ensures a[..Cp(a, b)] == b[..Cp(a, b)]
    ensures forall i :: 0 <= i < Cp(a, b) ==> a[i] == b[i]
    ensures Cp(a, b) < |a| && Cp(a, b) < |b| ==> a[Cp(a, b)] != b[Cp(a, b)]
  {
    CpFromIs(a, b, 0);
  }

  /** byteacmp: the first differing byte decides, then the length. */
  function Cmp(a: Bytes, b: Bytes): int {
    var p := Cp(a, b);
    if p < |a| && p < |b| then (if a[p] < b[p] then -1 else 1)
    else if |a| < |b| then -1
    else if |a| > |b| then 1
    else 0
  }

  predicate Le(a: Bytes, b: Bytes) {
    Cmp(a, b) <= 0
  }

  lemma CpUnique(a: Bytes, b: Bytes, p: nat)
    requires p <= |a| && p <= |b| && a[..p] == b[..p]
    requires p < |a| && p < |b| ==> a[p] != b[p]
    ensures Cp(a, b) == p
  {
    CpIs(a, b);
    forall i | 0 <= i < p ensures a[i] == b[i] {
      assert a[..p][i] == b[..p][i];
    }
  }

  lemma CpSymmetric(a: Bytes, b: Bytes)
    ensures Cp(a, b) == Cp(b, a)
  {
    CpIs(a, b);
    CpUnique(b, a, Cp(a, b));
  }

  lemma CmpAntisymmetric(a: Bytes, b: Bytes)
    ensures Cmp(a, b) == -Cmp(b, a)
    ensures Cmp(a, b) == 0 <==> a == b
  {
    CpSymmetric(a, b);
    CpIs(a, b);
    if a == b { CpUnique(a, b, |a|); }
    if Cmp(a, b) == 0 { assert a == a[..Cp(a, b)] && b == b[..Cp(a, b)]; }
  }

  /** Agreement up to `p` is all that matters for comparing: the witness form of Le. */
  lemma LeWitness(a: Bytes, b: Bytes, p: nat)
    requires p <= |a| && p <= |b| && a[..p] == b[..p]
    requires p == |a| || (p < |b| && a[p] < b[p])
    ensures Le(a, b)
  {
    if p == |a| && p < |b| {
      CpUnique(a, b, p);
    } else if p == |a| {
      CmpAntisymmetric(a, b);
      assert a == a[..p] && b == b[..p];
    } else {
      CpUnique(a, b, p);
    }
  }

  lemma PrefixIsLess(a: Bytes, b: Bytes)
    requires a <= b
    ensures Le(a, b) && Cp(a, b) == |a|
  {
    CpUnique(a, b, |a|);
    LeWitness(a, b, |a|);
  }

  lemma LeTransitive(a: Bytes, b: Bytes, c: Bytes)
    requires Le(a, b) && Le(b, c)
    ensures Le(a, c)
  {
    CpIs(a, b);
    CpIs(b, c);
    var p, q := Cp(a, b), Cp(b, c);
    var r := if p < q then p else q;
    assert a[..r] == c[..r] by {
      assert a[..r] == a[..p][..r] == b[..p][..r] == b[..r];
      assert c[..r] == c[..q][..r] == b[..q][..r] == b[..r];
    }
    if p < q { assert b[..q][p] == c[..q][p]; }
    if q < p { assert a[..p][q] == b[..p][q]; }
    LeWitness(a, c, r);
  }

  lemma LeTotal(a: Bytes, b: Bytes)
    ensures Le(a, b) || Le(b, a)
  {
    CmpAntisymmetric(a, b);
  }

  /** What lies between two strings shares their common prefix. */
  lemma CpBetween(a: Bytes, b: Bytes, c: Bytes)
    requires Le(a, b) && Le(b, c)
    ensures Cp(a, c) <= Cp(a, b) && Cp(a, c) <= Cp(b, c)
  {
    CpIs(a, b);
    CpIs(b, c);
    CpIs(a, c);
    var p, q, r := Cp(a, b), Cp(b, c), Cp(a, c);
    assert p < q ==> r <= p;
    assert q < p ==> r <= q;
    assert p == q ==> r <= p;
  }

  /** A string between a prefix of `w` and `w` has that prefix. */
  lemma Squeeze(u: Bytes, v: Bytes, w: Bytes)
    requires u <= w && Le(u, v) && Le(v, w)
    ensures u <= v
  {
    CpBetween(u, v, w);
    PrefixIsLess(u, w);
    CpIs(u, v);
    assert u == u[..Cp(u, v)];
  }

  function Cut(a: Bytes, n: nat): Bytes {
    if n < |a| then a[..n] else a
  }

  lemma CutIsMonotone(a: Bytes, b: Bytes, n: nat)
    requires Le(a, b)
    ensures Le(Cut(a, n), Cut(b, n))
  {
    CpIs(a, b);
    var p := Cp(a, b);
    var a', b' := Cut(a, n), Cut(b, n);
    if p < n {
      assert a'[..p] == a[..p] && b'[..p] == b[..p];
      LeWitness(a', b', p);
    } else {
      assert a' == a[..p][..|a'|] && b[..p][..|a'|] == b[..|a'|];
      LeWitness(a', b', |a'|);
    }
  }

  /** Cutting beyond the common prefix leaves it as it is. */
  lemma CutKeepsCp(a: Bytes, b: Bytes, n: nat)
    requires Cp(a, b) < n
    ensures Cp(Cut(a, n), Cut(b, n)) == Cp(a, b)
  {
    CpIs(a, b);
    var p := Cp(a, b);
    assert Cut(a, n)[..p] == a[..p] && Cut(b, n)[..p] == b[..p];
    CpUnique(Cut(a, n), Cut(b, n), p);
  }

  // ---------------------------------------------------------------------
  // Keys
  // ---------------------------------------------------------------------

  /** A node key; a leaf key has equal ends. */
  datatype Key = Key(lower: Bytes, upper: Bytes)

  predicate Ordered(k: Key) {
    Le(k.lower, k.upper)
  }

  /** The common prefix scan, byte by byte. */
  method NodeCpLen(k: Key) returns (i: nat)
    ensures i == Cp(k.lower, k.upper)
  {
    var ml := if |k.lower| < |k.upper| then |k.lower| else |k.upper|;
    i := 0;
    while i < ml
      invariant 0 <= i <= ml && k.lower[..i] == k.upper[..i]
    {
      if k.lower[i] != k.upper[i] {
        CpUnique(k.lower, k.upper, i);
        return;
      }
      i := i + 1;
    }
    CpUnique(k.lower, k.upper, ml);
  }

  /** gbt_var_node_truncate keeps one byte more than the length it is given. */
  function Truncate(k: Key, cpf: nat): Key {
    Key(Cut(k.lower, cpf + 1), Cut(k.upper, cpf + 1))
  }

  /** gbt_var_bin_union on an existing key: widen it to take in `e`. */
  function Widen(u: Key, e: Key): Key {
    Key(if Cmp(u.lower, e.lower) > 0 then e.lower else u.lower,
        if Cmp(u.upper, e.upper) < 0 then e.upper else u.upper)
  }

  /** Widening a key by the entries from the i-th on, in turn. */
  function WidenAll(u: Key, es: seq<Key>, i: nat): Key
    requires i <= |es|
    decreases |es| - i
  {
    if i == |es| then u else WidenAll(Widen(u, es[i]), es, i + 1)
  }

  function Hull(es: seq<Key>): Key
    requires es != []
  {
    WidenAll(es[0], es, 1)
  }

  lemma WidenBounds(u: Key, e: Key)
    ensures var h := Widen(u, e); Le(h.lower, u.lower) && Le(u.upper, h.upper) && Le(h.lower, e.lower) && Le(e.upper, h.upper)
  {
    CmpAntisymmetric(u.lower, e.lower);
    CmpAntisymmetric(u.upper, e.upper);
    CmpAntisymmetric(e.lower, e.lower);
    CmpAntisymmetric(e.upper, e.upper);
    CmpAntisymmetric(u.lower, u.lower);
    CmpAntisymmetric(u.upper, u.upper);
  }

  lemma {:induction false} WidenAllKeeps(u: Key, es: seq<Key>, i: nat)
    requires i <= |es|
    ensures var h := WidenAll(u, es, i); Le(h.lower, u.lower) && Le(u.upper, h.upper)
    decreases |es| - i
  {
    if i == |es| {
      CmpAntisymmetric(u.lower, u.lower);
      CmpAntisymmetric(u.upper, u.upper);
    } else {
      var w, h := Widen(u, es[i]), WidenAll(u, es, i);
      WidenBounds(u, es[i]);
      WidenAllKeeps(w, es, i + 1);
      LeTransitive(h.lower, w.lower, u.lower);
      LeTransitive(u.upper, w.upper, h.upper);
    }
  }

  lemma {:induction false} WidenAllBounds(u: Key, es: seq<Key>, i: nat, k: nat)
    requires i <= k < |es|
    ensures var h := WidenAll(u, es, i); Le(h.lower, es[k].lower) && Le(es[k].upper, h.upper)
    decreases |es| - i
  {
    var w, h := Widen(u, es[i]), WidenAll(u, es, i);
    if i < k {
      WidenAllBounds(w, es, i + 1, k);
    } else {
      WidenBounds(u, es[i]);
      WidenAllKeeps(w, es, i + 1);
      LeTransitive(h.lower, w.lower, es[i].lower);
      LeTransitive(es[i].upper, w.upper, h.upper);
    }
  }

  lemma HullBounds(es: seq<Key>, i: nat)
    requires i < |es|
    ensures Le(Hull(es).lower, es[i].lower) && Le(es[i].upper, Hull(es).upper)
  {
    if i == 0 { WidenAllKeeps(es[0], es, 1); } else { WidenAllBounds(es[0], es, 1, i); }
  }

  lemma HullOrdered(es: seq<Key>)
    requires es != [] && forall e :: e in es ==> Ordered(e)
    ensures Ordered(Hull(es))
  {
    HullBounds(es, 0);
    assert es[0] in es;
    LeTransitive(Hull(es).lower, es[0].lower, es[0].upper);
    LeTransitive(Hull(es).lower, es[0].upper, Hull(es).upper);
  }

  /** gbt_var_union: the hull, truncated to its common prefix plus two bytes. */
  function UnionKey(es: seq<Key>): Key
    requires es != []
  {
    var h := Hull(es);
    Truncate(h, Cp(h.lower, h.upper) + 1)
  }

  /** The union loop. */
  method Union(es: seq<Key>) returns (out: Key)
    requires es != []
    ensures out == UnionKey(es)
  {
    out := es[0];
    var i := 1;
    while i < |es|
      invariant 1 <= i <= |es| && WidenAll(out, es, i) == Hull(es)
    {
      out := Widen(out, es[i]);
      i := i + 1;
    }
    var plen := NodeCpLen(out);
    out := Truncate(out, plen + 1);
  }

  // ---------------------------------------------------------------------
  // What a truncated key stands for
  // ---------------------------------------------------------------------

  /** The upper end may have been cut, so longer strings with this prefix can lie below the key. */
  predicate Open(k: Key) {
    |k.upper| >= Cp(k.lower, k.upper) + 2
  }

  /** Value `v` may be stored below key `k`. */
  predicate Covers(k: Key, v: Bytes) {
    Le(k.lower, v) && (Le(v, k.upper) || (k.upper <= v && Open(k)))
  }

  /** Truncation at or beyond common prefix plus two keeps everything up to the upper end. */
  lemma TruncateCoversBelow(h: Key, m: nat, v: Bytes)
    requires Ordered(h) && m >= Cp(h.lower, h.upper)
    requires Le(h.lower, v) && Le(v, h.upper)
    ensures Covers(Truncate(h, m + 1), v)
  {
    var t := Truncate(h, m + 1);
    PrefixIsLess(t.lower, h.lower);
    LeTransitive(t.lower, h.lower, v);
    LeTotal(v, t.upper);
    if !Le(v, t.upper) {
      Squeeze(t.upper, v, h.upper);
      CutKeepsCp(h.lower, h.upper, m + 2);
    }
  }

  lemma TruncateOrdered(h: Key, m: nat)
    requires Ordered(h)
    ensures Ordered(Truncate(h, m))
  {
    CutIsMonotone(h.lower, h.upper, m + 1);
  }

  /** A string that extends an open upper end, compared with a larger hull end. */
  lemma OpenEntryInHull(e: Key, h: Key, v: Bytes)
    requires Ordered(e) && Open(e) && Le(h.lower, e.lower) && Le(e.upper, h.upper)
    requires e.upper <= v
    ensures Le(v, h.upper) || (e.upper <= h.upper && Cp(h.lower, h.upper) <= Cp(e.lower, e.upper))
  {
    var p := Cp(e.upper, h.upper);
    CpIs(e.upper, h.upper);
    if p < |e.upper| {
      assert p < |h.upper| && e.upper[p] < h.upper[p];
      assert v[..p] == e.upper[..p] == h.upper[..p] && v[p] == e.upper[p];
      LeWitness(v, h.upper, p);
    } else {
      assert e.upper == e.upper[..p];
      var c := Cp(e.lower, e.upper);
      CpIs(e.lower, e.upper);
      LeTransitive(e.lower, e.upper, h.upper);
      assert Cp(e.lower, h.upper) == c by {
        assert h.upper[..c] == e.upper[..c] && h.upper[c] == e.upper[c];
        CpUnique(e.lower, h.upper, c);
      }
      CpBetween(h.lower, e.lower, h.upper);
    }
  }

  /** Truncation to common prefix plus two turns what extends an open entry into what extends the hull. */
  lemma TruncateCoversBeyond(e: Key, h: Key, v: Bytes)
    requires Open(e) && e.upper <= v && e.upper <= h.upper
    requires Cp(h.lower, h.upper) <= Cp(e.lower, e.upper) && Le(h.lower, v)
    ensures Covers(Truncate(h, Cp(h.lower, h.upper) + 1), v)
  {
    var p := Cp(h.lower, h.upper);
    var t := Truncate(h, p + 1);
    CutKeepsCp(h.lower, h.upper, p + 2);
    PrefixIsLess(t.lower, h.lower);
    LeTransitive(t.lower, h.lower, v);
    PrefixesAgree(e.upper, h.upper, p + 2);
    PrefixesAgree(e.upper, v, p + 2);
  }

  lemma PrefixesAgree(u: Bytes, w: Bytes, n: nat)
    requires u <= w && n <= |u|
    ensures Cut(w, n) == Cut(u, n) && |Cut(w, n)| == n && Cut(w, n) <= w
  {
  }

  /** A hull's truncation covers what one of its entries covers. */
  lemma TruncatedHullCovers(h: Key, e: Key, v: Bytes)
    requires Ordered(h) && Ordered(e) && Le(h.lower, e.lower) && Le(e.upper, h.upper) && Covers(e, v)
    ensures Covers(Truncate(h, Cp(h.lower, h.upper) + 1), v)
  {
    var p := Cp(h.lower, h.upper);
    LeTransitive(h.lower, e.lower, v);
    if Le(v, e.upper) {
      LeTransitive(v, e.upper, h.upper);
      TruncateCoversBelow(h, p, v);
    } else {
      OpenEntryInHull(e, h, v);
      if Le(v, h.upper) {
        TruncateCoversBelow(h, p, v);
      } else {
        TruncateCoversBeyond(e, h, v);
      }
    }
  }

  /** The union of entry keys covers whatever any of them covers. */
  lemma UnionCovers(es: seq<Key>, i: nat, v: Bytes)
    requires i < |es| && (forall e :: e in es ==> Ordered(e)) && Covers(es[i], v)
    ensures Ordered(UnionKey(es)) && Covers(UnionKey(es), v)
  {
    var h := Hull(es);
    assert es[i] in es;
    HullOrdered(es);
    HullBounds(es, i);
    TruncateOrdered(h, Cp(h.lower, h.upper) + 1);
    TruncatedHullCovers(h, es[i], v);
  }

  /** Truncating a half of a leaf split at the larger of the two prefix lengths covers its leaves. */
  lemma SplitCoversLeaves(es: seq<Key>, m: nat, i: nat)
    requires i < |es| && forall e :: e in es ==> e.lower == e.upper
    requires m >= Cp(Hull(es).lower, Hull(es).upper)
    ensures Ordered(Truncate(Hull(es), m + 1)) && Covers(Truncate(Hull(es), m + 1), es[i].lower)
  {
    forall e | e in es ensures Ordered(e) {
      CmpAntisymmetric(e.lower, e.upper);
    }
    assert es[i] in es;
    HullOrdered(es);
    HullBounds(es, i);
    TruncateOrdered(Hull(es), m + 1);
    TruncateCoversBelow(Hull(es), m, es[i].lower);
  }

  // ---------------------------------------------------------------------
  // gbt_var_consistent
  // ---------------------------------------------------------------------

  datatype Strategy = LessEqual | Less | Equal | Greater | GreaterEqual | NotEqual

  /** gbt_var_node_pf_match, with truncation on. */
  predicate PrefixMatch(k: Key, q: Bytes) {
    k.lower <= q || k.upper <= q
  }

  predicate Consistent(k: Key, q: Bytes, s: Strategy, isLeaf: bool) {
    match s
    case LessEqual =>
      if isLeaf then Cmp(q, k.lower) >= 0 else Cmp(q, k.lower) >= 0 || PrefixMatch(k, q)
    case Less =>
      if isLeaf then Cmp(q, k.lower) > 0 else Cmp(q, k.lower) >= 0 || PrefixMatch(k, q)
    case Equal =>
      if isLeaf then q == k.lower
      else (Cmp(k.lower, q) <= 0 && Cmp(q, k.upper) <= 0) || PrefixMatch(k, q)
    case Greater =>
      if isLeaf then Cmp(q, k.upper) < 0 else Cmp(q, k.upper) <= 0 || PrefixMatch(k, q)
    case GreaterEqual =>
      if isLeaf then Cmp(q, k.upper) <= 0 else Cmp(q, k.upper) <= 0 || PrefixMatch(k, q)
    case NotEqual =>
      !(q == k.lower && q == k.upper)
  }

  /** What the operators mean for a stored value. */
  predicate Satisfies(v: Bytes, q: Bytes, s: Strategy) {
    match s
    case LessEqual => Le(v, q)
    case Less => Le(v, q) && v != q
    case Equal => v == q
    case Greater => Le(q, v) && v != q
    case GreaterEqual => Le(q, v)
    case NotEqual => v != q
  }

  lemma LeafIsExact(v: Bytes, q: Bytes, s: Strategy)
    ensures Consistent(Key(v, v), q, s, true) <==> Satisfies(v, q, s)
  {
    CmpAntisymmetric(q, v);
  }

  /** A key that covers a matching value is never pruned. */
  lemma CoveredIsConsistent(k: Key, v: Bytes, q: Bytes, s: Strategy)
    requires Covers(k, v) && Satisfies(v, q, s)
    ensures Consistent(k, q, s, false)
  {
    CmpAntisymmetric(q, k.lower);
    match s
    case LessEqual => LeTransitive(k.lower, v, q);
    case Less => LeTransitive(k.lower, v, q);
    case Equal =>
    case Greater => UpperConsistent(k, v, q);
    case GreaterEqual => UpperConsistent(k, v, q);
    case NotEqual =>
      CmpAntisymmetric(q, v);
      CmpAntisymmetric(v, q);
      CpUnique(k.lower, k.lower, |k.lower|);
  }

  lemma UpperConsistent(k: Key, v: Bytes, q: Bytes)
    requires Covers(k, v) && Le(q, v)
    ensures Le(q, k.upper) || k.upper <= q
  {
    if Le(v, k.upper) {
      LeTransitive(q, v, k.upper);
    } else {
      LeTotal(q, k.upper);
      if Le(k.upper, q) { Squeeze(k.upper, q, v); }
    }
  }

  // ---------------------------------------------------------------------
  // gbt_var_picksplit
  // ---------------------------------------------------------------------

  /** gbt_vsrt_cmp: by lower end, then by upper end. */
  predicate KeyLe(a: Key, b: Key) {
    Cmp(a.lower, b.lower) < 0 || (Cmp(a.lower, b.lower) == 0 && Cmp(a.upper, b.upper) <= 0)
  }

  /** The offsets are in the order of their keys, as the source's sort leaves them. */
  predicate Sorted(es: seq<Key>, order: seq<nat>)
    requires forall i :: 0 <= i < |order| ==> 1 <= order[i] <= |es|
  {
    forall i, j :: 0 <= i < j < |order| ==> KeyLe(es[order[i] - 1], es[order[j] - 1])
  }

  /** `order` lists the offsets 1..n, each once. */
  ghost predicate Offsets(es: seq<Key>, order: seq<nat>) {
    && |order| == |es|
    && (forall i :: 0 <= i < |order| ==> 1 <= order[i] <= |es|)
    && (forall i, j :: 0 <= i < j < |order| ==> order[i] != order[j])
  }

  /** The entries at the given offsets, which count from one. */
  function At(es: seq<Key>, offsets: seq<nat>): (r: seq<Key>)
    requires forall i :: 0 <= i < |offsets| ==> 1 <= offsets[i] <= |es|
    ensures |r| == |offsets| && forall i :: 0 <= i < |r| ==> r[i] == es[offsets[i] - 1]
  {
    seq(|offsets|, i requires 0 <= i < |offsets| => es[offsets[i] - 1])
  }

  function Max(a: nat, b: nat): nat { if a < b then b else a }

  /** The prefix length both halves are truncated with: the larger of the two. */
  function SplitLen(l: Key, r: Key): nat {
    Max(Cp(l.lower, l.upper), Cp(r.lower, r.upper))
  }

  /** The key of one half: its first entry, widened by the others in turn. */
  method HalfKey(es: seq<Key>, half: seq<nat>) returns (datum: Key)
    requires half != [] && forall i :: 0 <= i < |half| ==> 1 <= half[i] <= |es|
    ensures datum == Hull(At(es, half))
  {
    datum := es[half[0] - 1];
    ghost var ks := At(es, half);
    var i := 1;
    while i < |half|
      invariant 1 <= i <= |half| && WidenAll(datum, ks, i) == Hull(ks)
    {
      datum := Widen(datum, es[half[i] - 1]);
      i := i + 1;
    }
  }

  method TruncateBoth(l: Key, r: Key) returns (l': Key, r': Key)
    ensures l' == Truncate(l, SplitLen(l, r) + 1) && r' == Truncate(r, SplitLen(l, r) + 1)
  {
    var ll := NodeCpLen(l);
    var lr := NodeCpLen(r);
    ll := Max(ll, lr);
    ll := ll + 1;
    l', r' := Truncate(l, ll), Truncate(r, ll);
  }

  /** No key of the first list comes after one of the second. */
  predicate NoneAbove(l: seq<Key>, r: seq<Key>) {
    forall i, j :: 0 <= i < |l| && 0 <= j < |r| ==> KeyLe(l[i], r[j])
  }

  lemma SortedHalves(es: seq<Key>, order: seq<nat>, h: nat)
    requires (forall i :: 0 <= i < |order| ==> 1 <= order[i] <= |es|) && h <= |order|
    ensures Sorted(es, order) ==> NoneAbove(At(es, order[..h]), At(es, order[h..]))
  {
    if Sorted(es, order) {
      forall i, j | 0 <= i < h && 0 <= j < |order| - h ensures KeyLe(At(es, order[..h])[i], At(es, order[h..])[j]) {
        assert order[h..][j] == order[h + j] && order[..h][i] == order[i];
      }
    }
  }

  /** The first half of the sorted entries goes left; both keys are truncated with the larger prefix length. */
  method PickSplit(es: seq<Key>, order: seq<nat>) returns (left: seq<nat>, right: seq<nat>, ldatum: Key, rdatum: Key)
    requires |es| >= 2 && Offsets(es, order)
    ensures left == order[..|es| / 2] && right == order[|es| / 2..]
    ensures Sorted(es, order) ==> NoneAbove(At(es, left), At(es, right))
    ensures left != [] && right != []
    ensures var l, r := Hull(At(es, left)), Hull(At(es, right));
      && ldatum == Truncate(l, SplitLen(l, r) + 1)
      && rdatum == Truncate(r, SplitLen(l, r) + 1)
  {
    var h := |es| / 2;
    left, right := order[..h], order[h..];
    SortedHalves(es, order, h);
    ldatum := HalfKey(es, left);
    rdatum := HalfKey(es, right);
    ldatum, rdatum := TruncateBoth(ldatum, rdatum);
  }
}
