/**
 Code that works on one locked page or one signature: signing values in place,
 appending a tuple, compacting a page during vacuum, testing a page in a scan.
 */
module BloomPages {
  import opened BloomSignatures

  type TID = (nat, nat)

  datatype BloomTuple = BloomTuple(tid: TID, sign: Sign)

  // ---------------------------------------------------------------------
  // Signing
  // ---------------------------------------------------------------------

  /** The signature after setting the next n positions drawn from state x. */
  function Drawn(s: Sign, x: int, n: nat): Sign
    requires Seedable(x) && |s| > 0
  {
    PositionsInRange(x, n, |s| * SIGNWORDBITS);
    SetBits(s, Positions(x, n, |s| * SIGNWORDBITS))
  }

  lemma DrawStep(s: Sign, x: int, n: nat)
    requires Seedable(x) && |s| > 0 && n > 0
    ensures Seedable(Advance(x)) && 0 <= TMod(Advance(x) - 1, |s| * SIGNWORDBITS) < |s| * SIGNWORDBITS
    ensures Drawn(s, x, n) == Drawn(SetBit(s, TMod(Advance(x) - 1, |s| * SIGNWORDBITS)), Advance(x), n - 1)
  {
    var m := |s| * SIGNWORDBITS;
    AdvanceIsParkMiller(x);
    TModBounds(Advance(x) - 1, m);
    PositionsInRange(x, n, m);
    PositionsInRange(Advance(x), n - 1, m);
    assert Positions(x, n, m)[1..] == Positions(Advance(x), n - 1, m);
  }

  lemma Sign1IsDrawn(o: Options, s: Sign, attno: nat, h: bv32)
    requires ValidOptions(o) && |s| == o.words && Signable(o, attno, h)
    ensures Seedable(Seeded(ValueSeed(h, attno)))
    ensures Sign1(o, s, attno, h) == Drawn(s, Seeded(ValueSeed(h, attno)), o.bitSize[attno])
  {
    SeededIsUsable(ValueSeed(h, attno));
  }

  lemma SignableStep(o: Options, row: seq<Column>, i: nat)
    requires i < |row| && SignableTo(o, row, i) && (row[i].Hash? ==> Signable(o, i, row[i].h))
    ensures SignableTo(o, row, i + 1)
  {
  }

  /** The generator state, a global variable in the source. */
  class Generator {
    var next: int

    method Srand(seed: int)
      requires 0 <= seed < 0x1_0000_0000
      modifies this
      ensures next == Seeded(seed)
    {
      next := if seed <= INT32_MAX then seed else seed - 0x1_0000_0000;
      next := TMod(next, 0x7fff_fffe) + 1;
    }

    method Rand() returns (r: int)
      modifies this
      ensures next == Advance(old(next)) && r == next - 1
    {
      var hi, lo := TDiv(next, 127773), TMod(next, 127773);
      var x := 16807 * lo - 2836 * hi;
      if x < 0 { x := x + 0x7fff_ffff; }
      next := x;
      r := x - 1;
    }

    /** The loop that draws n positions and sets their bits. */
    method DrawBits(sign: array<bv16>, n: nat)
      requires Seedable(next) && sign.Length > 0
      modifies this, sign
      ensures sign[..] == Drawn(old(sign[..]), old(next), n)
    {
      var m := sign.Length * SIGNWORDBITS;
      var j := 0;
      while j < n
        invariant 0 <= j <= n && Seedable(next)
        invariant Drawn(sign[..], next, n - j) == Drawn(old(sign[..]), old(next), n)
      {
        ghost var was, x := sign[..], next;
        DrawStep(was, x, n - j);
        var nBit := Rand();
        nBit := TMod(nBit, m);
        sign[nBit / SIGNWORDBITS] := sign[nBit / SIGNWORDBITS] | Mask(nBit);
        assert sign[..] == SetBit(was, nBit);
        j := j + 1;
      }
    }

    /**
     Sets the value's bits in `sign`.  The result does not depend on the state the
     generator was in.  `ok` is false where the source would shift by a negative
     amount, which is exactly for the two bad seeds.
     */
    method SignValue(o: Options, sign: array<bv16>, hash: bv32, attno: nat) returns (ok: bool)
      requires ValidOptions(o) && attno < |o.bitSize| && sign.Length == o.words
      modifies this, sign
      ensures ok <==> Signable(o, attno, hash)
      ensures sign[..] == if ok then Sign1(o, old(sign[..]), attno, hash) else old(sign[..])
    {
      ColumnRand(attno);
      Srand(attno);
      var r := Rand();
      SeededIsUsable(ValueSeed(hash, attno));
      Srand(Xor32(hash, r));
      ok := next != 0;
      if ok {
        Sign1IsDrawn(o, sign[..], attno, hash);
        DrawBits(sign, o.bitSize[attno]);
      }
    }

    method SignColumn(o: Options, row: seq<Column>, i: nat, data: array<bv16>) returns (ok: bool)
      requires ValidOptions(o) && i < |row| && SignableTo(o, row, i) && data[..] == RowSign(o, row, i)
      modifies this, data
      ensures ok <==> SignableTo(o, row, i + 1)
      ensures ok ==> data[..] == RowSign(o, row, i + 1)
    {
      ok := true;
      if row[i].Hash? {
        ok := SignValue(o, data, row[i].h, i);
      }
      if ok { SignableStep(o, row, i); }
    }

    /** BloomFormTuple: one signature for all columns of a row, nulls skipped. */
    method FormTuple(o: Options, row: seq<Column>) returns (ok: bool, sign: Sign)
      requires ValidOptions(o) && |row| == |o.bitSize|
      modifies this
      ensures ok <==> SignableRow(o, row)
      ensures ok ==> sign == RowSign(o, row, |row|)
    {
      var data := new bv16[o.words](_ => 0);
      assert data[..] == Zero(o.words);
      var i := 0;
      while i < |row|
        invariant 0 <= i <= |row| && SignableTo(o, row, i)
        invariant fresh(data) && data[..] == RowSign(o, row, i)
      {
        ok := SignColumn(o, row, i, data);
        if !ok { return false, []; }
        i := i + 1;
      }
      return true, data[..];
    }
  }

  /** The word loop of the scan, which stops at the first word that fails. */
  method TestSign(s: Sign, q: Sign) returns (res: bool)
    requires |s| == |q|
    ensures res <==> Matches(s, q)
  {
    var i := 0;
    while i < |q|
      invariant 0 <= i <= |q| && forall k :: 0 <= k < i ==> s[k] & q[k] == q[k]
    {
      if s[i] & q[i] != q[i] { return false; }
      i := i + 1;
    }
    return true;
  }

  // ---------------------------------------------------------------------
  // Page capacity
  // ---------------------------------------------------------------------

  const BLCKSZ := 8192
  const HEADER := 24
  const SPECIAL := 8

  /** BloomPageGetFreeSpace, with a tuple of `size` bytes. */
  function FreeSpace(size: nat, maxoff: nat): int {
    BLCKSZ - HEADER - maxoff * size - SPECIAL
  }

  function Capacity(size: nat): nat
    requires size > 0
  {
    (BLCKSZ - HEADER - SPECIAL) / size
  }

  /** The free-space test is a test against the page's capacity. */
  lemma FitsIffBelowCapacity(size: nat, maxoff: nat)
    requires size > 0
    ensures FreeSpace(size, maxoff) >= size <==> maxoff < Capacity(size)
  {
    var total := BLCKSZ - HEADER - SPECIAL;
    var c := total / size;
    assert total == c * size + total % size;
    if maxoff < c {
      assert (maxoff + 1) * size <= c * size by { MulMono(maxoff + 1, c, size); }
      assert (maxoff + 1) * size == maxoff * size + size;
    } else {
      assert c * size <= maxoff * size by { MulMono(c, maxoff, size); }
    }
  }

  lemma MulMono(a: nat, b: nat, c: nat)
    requires a <= b
    ensures a * c <= b * c
  {
  }

  // ---------------------------------------------------------------------
  // One page
  // ---------------------------------------------------------------------

  /** The tuples vacuum keeps: those it is not told to remove, in order. */
  function Survivors(items: seq<BloomTuple>, dead: set<TID>): seq<BloomTuple> {
    if items == [] then []
    else
      var last := items[|items| - 1];
      Survivors(items[..|items| - 1], dead) + (if last.tid in dead then [] else [last])
  }

  lemma SurvivorsShorter(items: seq<BloomTuple>, dead: set<TID>)
    ensures |Survivors(items, dead)| <= |items|
  {
  }

  lemma {:induction false} SurvivorsCount(items: seq<BloomTuple>, dead: set<TID>, t: BloomTuple)
    ensures |Survivors(items, dead)| <= |items|
    ensures multiset(Survivors(items, dead))[t] == if t.tid in dead then 0 else multiset(items)[t]
  {
    if items != [] {
      var rest, last := items[..|items| - 1], items[|items| - 1];
      SurvivorsCount(rest, dead, t);
      assert items == rest + [last];
    }
  }

  class BloomPage {
    var deleted: bool
    var maxoff: nat
    var data: array<BloomTuple>

    ghost predicate Valid()
      reads this
    {
      maxoff <= data.Length && (deleted ==> maxoff == 0)
    }

    ghost function Items(): seq<BloomTuple>
      requires Valid()
      reads this, data
    {
      data[..maxoff]
    }

    /** BloomInitPage on a page with room for `capacity` tuples. */
    constructor (capacity: nat, filler: BloomTuple)
      ensures Valid() && fresh(data) && data.Length == capacity && !deleted && Items() == []
    {
      deleted, maxoff := false, 0;
      data := new BloomTuple[capacity](_ => filler);
    }

    method AddItem(t: BloomTuple) returns (ok: bool)
      requires Valid() && !deleted
      modifies this`maxoff, data
      ensures Valid() && ok == (old(maxoff) < data.Length) && maxoff == old(maxoff) + (if ok then 1 else 0)
      ensures Items() == if ok then old(Items()) + [t] else old(Items())
    {
      ok := maxoff < data.Length;
      if ok {
        data[maxoff] := t;
        maxoff := maxoff + 1;
      }
    }

    /** Compaction with two moving pointers; an emptied page is marked deleted. */
    method BulkDelete(dead: set<TID>) returns (removed: nat, notFull: bool)
      requires Valid() && !deleted
      modifies this`maxoff, this`deleted, data
      ensures Valid() && Items() == Survivors(old(Items()), dead)
      ensures removed == |old(Items())| - |Items()|
      ensures deleted <==> removed > 0 && maxoff == 0
      ensures notFull <==> maxoff != 0 && maxoff < data.Length
    {
      ghost var before := data[..maxoff];
      var end := maxoff;
      var src, dst := 0, 0;
      removed := 0;
      while src < end
        invariant 0 <= dst <= src <= end == |before| <= data.Length
        invariant maxoff == end - removed && dst == src - removed
        invariant data[..dst] == Survivors(before[..src], dead)
        invariant forall k :: src <= k < end ==> data[k] == before[k]
        invariant !deleted
      {
        assert before[..src + 1][..src] == before[..src];
        if data[src].tid in dead {
          maxoff, removed := maxoff - 1, removed + 1;
        } else {
          if dst != src { data[dst] := data[src]; }
          assert data[..dst + 1] == Survivors(before[..src], dead) + [before[src]];
          dst := dst + 1;
        }
        src := src + 1;
      }
      assert before[..src] == before;
      notFull := maxoff != 0 && maxoff < data.Length;
      if dst != src {
        if maxoff == 0 { deleted := true; }
      }
    }

    /** The scan of one page: the row pointers of all tuples whose signature matches. */
    method Collect(q: Sign) returns (found: set<TID>)
      requires Valid() && forall t :: t in Items() ==> |t.sign| == |q|
      ensures found == set t | t in Items() && Matches(t.sign, q) :: t.tid
    {
      found := {};
      var off := 0;
      while off < maxoff
        invariant 0 <= off <= maxoff
        invariant found == set t | t in data[..off] && Matches(t.sign, q) :: t.tid
      {
        assert data[off] in data[..maxoff];
        var res := TestSign(data[off].sign, q);
        assert data[..off + 1] == data[..off] + [data[off]];
        if res { found := found + {data[off].tid}; }
        off := off + 1;
      }
    }
  }

  // ---------------------------------------------------------------------
  // Building
  // ---------------------------------------------------------------------

  function Flat(pages: seq<seq<BloomTuple>>): seq<BloomTuple> {
    if pages == [] then [] else Flat(pages[..|pages| - 1]) + pages[|pages| - 1]
  }

  predicate AllFull(pages: seq<seq<BloomTuple>>, cap: nat) {
    forall i :: 0 <= i < |pages| ==> |pages[i]| == cap
  }

  /**
   The build: tuples gather on a cached page that is written out when the next one
   does not fit.
   */
  class Builder {
    const cap: nat
    var cached: BloomPage
    var pages: seq<seq<BloomTuple>>

    ghost predicate Valid()
      reads this, cached
    {
      && cached.Valid() && !cached.deleted && cached.data.Length == cap > 0
      && AllFull(pages, cap) && (pages != [] ==> cached.maxoff > 0)
    }

    ghost function Contents(): seq<BloomTuple>
      requires Valid()
      reads this, cached, cached.data
    {
      Flat(pages) + cached.Items()
    }

    constructor (cap: nat, filler: BloomTuple)
      requires cap > 0
      ensures Valid() && Contents() == [] && this.cap == cap && fresh(cached) && fresh(cached.data)
    {
      this.cap, pages := cap, [];
      cached := new BloomPage(cap, filler);
    }

    method FlushCachedPage()
      requires cached.Valid() && cached.maxoff == cached.data.Length == cap && AllFull(pages, cap)
      modifies this`pages
      ensures AllFull(pages, cap) && Flat(pages) == old(Flat(pages) + cached.Items())
    {
      ghost var before := pages;
      pages := pages + [cached.data[..cached.maxoff]];
      assert pages[..|pages| - 1] == before;
    }

    /** Adds the next heap tuple. */
    method Add(t: BloomTuple)
      requires Valid()
      modifies this, cached, cached.data
      ensures Valid() && Contents() == old(Contents()) + [t]
      ensures (cached == old(cached) && cached.data == old(cached.data)) || (fresh(cached) && fresh(cached.data))
    {
      var ok := cached.AddItem(t);
      if !ok {
        FlushCachedPage();
        cached := new BloomPage(cap, t);
        ok := cached.AddItem(t);
      }
    }

    /** The pages written in the end: the heap's tuples in order, all pages but the last full. */
    method Finish() returns (written: seq<seq<BloomTuple>>)
      requires Valid()
      ensures Flat(written) == Contents()
      ensures written != [] ==> AllFull(written[..|written| - 1], cap) && 0 < |written[|written| - 1]| <= cap
    {
      written := pages;
      if cached.maxoff > 0 {
        written := pages + [cached.data[..cached.maxoff]];
        assert written[..|written| - 1] == pages;
      }
    }
  }

  /** Builds an index over all of a heap's tuples. */
  method Build(tuples: seq<BloomTuple>, cap: nat, filler: BloomTuple) returns (pages: seq<seq<BloomTuple>>)
    requires cap > 0
    ensures Flat(pages) == tuples
    ensures pages != [] ==> AllFull(pages[..|pages| - 1], cap) && 0 < |pages[|pages| - 1]| <= cap
  {
    var b := new Builder(cap, filler);
    var i := 0;
    while i < |tuples|
      invariant 0 <= i <= |tuples| && fresh(b) && fresh(b.cached) && fresh(b.cached.data)
      invariant b.Valid() && b.Contents() == tuples[..i]
    {
      b.Add(tuples[i]);
      assert tuples[..i + 1] == tuples[..i] + [tuples[i]];
      i := i + 1;
    }
    assert tuples[..i] == tuples;
    pages := b.Finish();
  }
}
