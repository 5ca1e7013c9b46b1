/**
 Convolution by unfolding: the matrix of windows that im2col writes, the product
 with the kernel matrix, and the direct zero-padded, strided convolution.
 */
module Convolution {

  /** Square images: `c` channels of `w` by `w`, a `k` by `k` kernel, padding `p`, stride `s`. */
  datatype Geometry = Geometry(c: nat, w: nat, k: nat, p: nat, s: nat)

  predicate Valid(g: Geometry) { g.k >= 1 && g.s >= 1 && g.w + 2 * g.p >= g.k }

  /** Windows per row and per column. */
  function Out(g: Geometry): nat
    requires Valid(g)
  {
    (g.w + 2 * g.p - g.k) / g.s + 1
  }

  /** Cells per window. */
  function Len(g: Geometry): nat { g.c * g.k * g.k }

  predicate IsImage(input: seq<real>, g: Geometry) { |input| == g.c * g.w * g.w }

  /** The image extended with zeros. */
  function Padded(input: seq<real>, g: Geometry, c: int, y: int, x: int): real
    requires IsImage(input, g) && 0 <= c < g.c
  {
    if 0 <= y < g.w && 0 <= x < g.w then ReadInRange(g, c, y, x); input[c * g.w * g.w + y * g.w + x] else 0.0
  }

  lemma ReadInRange(g: Geometry, c: int, y: int, x: int)
    requires 0 <= c < g.c && 0 <= y < g.w && 0 <= x < g.w
    ensures 0 <= c * g.w * g.w + y * g.w + x < g.c * g.w * g.w
  {
    MulMono(y, g.w - 1, g.w);
    MulMono(c, g.c - 1, g.w * g.w);
    assert c * g.w * g.w == c * (g.w * g.w);
    assert (g.c - 1) * (g.w * g.w) == g.c * (g.w * g.w) - g.w * g.w;
    assert g.c * g.w * g.w == g.c * (g.w * g.w);
    assert (g.w - 1) * g.w == g.w * g.w - g.w;
    assert c * (g.w * g.w) >= 0 && y * g.w >= 0;
  }

  lemma MulMono(a: int, b: int, n: int)
    requires a <= b && n >= 0
    ensures a * n <= b * n
  {
  }

  // ---------------------------------------------------------------------
  // Positions
  // ---------------------------------------------------------------------

  /** The position of channel c, kernel row ky, kernel column kx in a window. */
  function Pos(k: nat, c: nat, ky: nat, kx: nat): nat { (c * k + ky) * k + kx }

  lemma DivMod(a: int, q: int, r: int, n: int)
    requires n > 0 && a == q * n + r && 0 <= r < n
    ensures a / n == q && a % n == r
  {
    var q', r' := a / n, a % n;
    assert a == q' * n + r';
    if q' > q { MulMono(q + 1, q', n); }
    if q' < q { MulMono(q' + 1, q, n); }
  }

  /** A position determines the channel, row and column it stands for. */
  lemma PosDecodes(k: nat, c: nat, ky: nat, kx: nat)
    requires ky < k && kx < k
    ensures var m := Pos(k, c, ky, kx); m / k % k == ky && m % k == kx && m / k / k == c
  {
    DivMod(Pos(k, c, ky, kx), c * k + ky, kx, k);
    DivMod(c * k + ky, c, ky, k);
  }

  lemma PosInRange(g: Geometry, c: nat, ky: nat, kx: nat)
    requires c < g.c && ky < g.k && kx < g.k
    ensures Pos(g.k, c, ky, kx) < Len(g)
  {
    MulMono(c, g.c - 1, g.k);
    MulMono(c * g.k + ky, g.c * g.k - 1, g.k);
    assert (g.c - 1) * g.k == g.c * g.k - g.k;
    assert (g.c * g.k - 1) * g.k == g.c * g.k * g.k - g.k;
  }

  lemma LenIsZero(g: Geometry)
    requires g.k == 0
    ensures Len(g) == 0
  {
  }

  lemma DivBound(a: int, b: int, n: int)
    requires n > 0 && 0 <= a < b * n
    ensures 0 <= a / n < b && a == a / n * n + a % n
  {
    if a / n >= b { MulMono(b, a / n, n); }
  }

  lemma DecodeInRange(g: Geometry, m: nat)
    requires m < Len(g)
    ensures g.k > 0 && 0 <= m / g.k / g.k < g.c && 0 <= m / g.k % g.k < g.k && 0 <= m % g.k < g.k
    ensures Pos(g.k, m / g.k / g.k, m / g.k % g.k, m % g.k) == m
  {
    if g.k == 0 { LenIsZero(g); }
    DivBound(m, g.c * g.k, g.k);
    DivBound(m / g.k, g.c, g.k);
  }

  /** Cell m of the window in row i, column j. */
  function Cell(input: seq<real>, g: Geometry, i: nat, j: nat, m: nat): real
    requires IsImage(input, g) && m < Len(g)
  {
    DecodeInRange(g, m);
    Padded(input, g, m / g.k / g.k, g.s * i - g.p + m / g.k % g.k, g.s * j - g.p + m % g.k)
  }

  lemma CellAt(input: seq<real>, g: Geometry, i: nat, j: nat, c: nat, ky: nat, kx: nat)
    requires IsImage(input, g) && c < g.c && ky < g.k && kx < g.k
    ensures Pos(g.k, c, ky, kx) < Len(g)
    ensures Cell(input, g, i, j, Pos(g.k, c, ky, kx)) == Padded(input, g, c, g.s * i - g.p + ky, g.s * j - g.p + kx)
  {
    PosInRange(g, c, ky, kx);
    PosDecodes(g.k, c, ky, kx);
  }

  // ---------------------------------------------------------------------
  // One window
  // ---------------------------------------------------------------------

  /** The cells written so far in the window that starts at `base`. */
  ghost predicate Filled(input: seq<real>, g: Geometry, i: nat, j: nat, f: seq<real>, base: nat, n: nat) {
    IsImage(input, g) && n <= Len(g) && base + Len(g) <= |f| &&
    forall m :: 0 <= m < n ==> f[base + m] == Cell(input, g, i, j, m)
  }

  /** Equal outside [lo, hi). */
  ghost predicate SameElsewhere(a: seq<real>, b: seq<real>, lo: int, hi: int) {
    |a| == |b| && forall n :: 0 <= n < |a| && !(lo <= n < hi) ==> a[n] == b[n]
  }

  /** The innermost loop: one kernel row of one channel. */
  method FillRow(input: seq<real>, g: Geometry, f: array<real>, ghost i: nat, ghost j: nat, rn: int, cn: int,
                 c: nat, ky: nat, ghost base: nat, at: nat) returns (next: nat)
    requires Valid(g) && c < g.c && ky < g.k && rn == g.s * i - g.p && cn == g.s * j - g.p
    requires g.p == 0 ==> 0 <= rn <= g.w - g.k && 0 <= cn <= g.w - g.k
    requires at == base + Pos(g.k, c, ky, 0) && Filled(input, g, i, j, f[..], base, Pos(g.k, c, ky, 0))
    modifies f
    ensures next == base + Pos(g.k, c, ky, 0) + g.k && Pos(g.k, c, ky, 0) + g.k <= Len(g)
    ensures Filled(input, g, i, j, f[..], base, Pos(g.k, c, ky, 0) + g.k)
    ensures SameElsewhere(f[..], old(f[..]), base, base + Len(g))
  {
    next := at;
    PosInRange(g, c, ky, g.k - 1);
    var kx := 0;
    while kx < g.k
      invariant 0 <= kx <= g.k && next == base + Pos(g.k, c, ky, kx)
      invariant Filled(input, g, i, j, f[..], base, Pos(g.k, c, ky, kx))
      invariant SameElsewhere(f[..], old(f[..]), base, base + Len(g))
    {
      CellAt(input, g, i, j, c, ky, kx);
      if g.p != 0 && (ky + rn < 0 || ky + rn >= g.w || kx + cn < 0 || kx + cn >= g.w) {
        f[next] := 0.0;
      } else {
        ReadInRange(g, c, rn + ky, cn + kx);
        HeadIndex(g, rn, cn, c, ky, kx);
        f[next] := input[rn * g.w + cn + g.w * g.w * c + g.w * ky + kx];
      }
      next, kx := next + 1, kx + 1;
    }
  }

  /** The index built from the window's head is the pixel's index. */
  lemma HeadIndex(g: Geometry, rn: int, cn: int, c: int, ky: int, kx: int)
    ensures rn * g.w + cn + g.w * g.w * c + g.w * ky + kx == c * g.w * g.w + (rn + ky) * g.w + (cn + kx)
  {
    assert (rn + ky) * g.w == rn * g.w + g.w * ky;
    assert g.w * g.w * c == c * g.w * g.w;
  }

  /** The loop over the kernel rows of one channel. */
  method FillChannel(input: seq<real>, g: Geometry, f: array<real>, ghost i: nat, ghost j: nat, rn: int, cn: int,
                     c: nat, ghost base: nat, at: nat) returns (next: nat)
    requires Valid(g) && c < g.c && rn == g.s * i - g.p && cn == g.s * j - g.p
    requires g.p == 0 ==> 0 <= rn <= g.w - g.k && 0 <= cn <= g.w - g.k
    requires at == base + Pos(g.k, c, 0, 0) && Filled(input, g, i, j, f[..], base, Pos(g.k, c, 0, 0))
    modifies f
    ensures next == base + Pos(g.k, c + 1, 0, 0) && Filled(input, g, i, j, f[..], base, Pos(g.k, c + 1, 0, 0))
    ensures SameElsewhere(f[..], old(f[..]), base, base + Len(g))
  {
    next := at;
    var ky := 0;
    while ky < g.k
      invariant 0 <= ky <= g.k && next == base + Pos(g.k, c, ky, 0)
      invariant Filled(input, g, i, j, f[..], base, Pos(g.k, c, ky, 0))
      invariant SameElsewhere(f[..], old(f[..]), base, base + Len(g))
    {
      next := FillRow(input, g, f, i, j, rn, cn, c, ky, base, next);
      NextRow(g.k, c, ky);
      ky := ky + 1;
    }
    NextChannel(g.k, c);
  }

  lemma NextRow(k: nat, c: nat, ky: nat)
    ensures Pos(k, c, ky, 0) + k == Pos(k, c, ky + 1, 0) == Pos(k, c, ky, k)
  {
    assert (c * k + ky + 1) * k == (c * k + ky) * k + k;
  }

  lemma NextChannel(k: nat, c: nat)
    ensures Pos(k, c, k, 0) == Pos(k, c + 1, 0, 0)
  {
    assert (c + 1) * k == c * k + k;
  }

  /** The loops over channels and kernel cells for one window. */
  method FillWindow(input: seq<real>, g: Geometry, f: array<real>, ghost i: nat, ghost j: nat, rn: int, cn: int, base: nat)
    returns (next: nat)
    requires Valid(g) && IsImage(input, g) && rn == g.s * i - g.p && cn == g.s * j - g.p
    requires g.p == 0 ==> 0 <= rn <= g.w - g.k && 0 <= cn <= g.w - g.k
    requires base + Len(g) <= f.Length
    modifies f
    ensures next == base + Len(g) && Filled(input, g, i, j, f[..], base, Len(g))
    ensures SameElsewhere(f[..], old(f[..]), base, base + Len(g))
  {
    next := base;
    var c := 0;
    while c < g.c
      invariant 0 <= c <= g.c && next == base + Pos(g.k, c, 0, 0)
      invariant Filled(input, g, i, j, f[..], base, Pos(g.k, c, 0, 0))
      invariant SameElsewhere(f[..], old(f[..]), base, base + Len(g))
    {
      next := FillChannel(input, g, f, i, j, rn, cn, c, base, next);
      c := c + 1;
    }
  }

  // ---------------------------------------------------------------------
  // The whole matrix
  // ---------------------------------------------------------------------

  /** Windows 0 to n, excluded, are written; window q is the one in row q / Out, column q % Out. */
  ghost predicate WindowsFilled(input: seq<real>, g: Geometry, f: seq<real>, n: nat)
    requires Valid(g)
  {
    forall q {:trigger WindowFilled(input, g, f, q)} :: 0 <= q < n ==> WindowFilled(input, g, f, q)
  }

  ghost predicate WindowFilled(input: seq<real>, g: Geometry, f: seq<real>, q: nat)
    requires Valid(g)
  {
    Filled(input, g, q / Out(g), q % Out(g), f, q * Len(g), Len(g))
  }

  /** The number of the window in row i, column j. */
  function Win(g: Geometry, i: nat, j: nat): nat
    requires Valid(g)
  {
    i * Out(g) + j
  }

  lemma NextBand(g: Geometry, i: nat)
    requires Valid(g)
    ensures Win(g, i, Out(g)) == Win(g, i + 1, 0)
  {
    assert (i + 1) * Out(g) == i * Out(g) + Out(g);
  }

  lemma WindowEnd(g: Geometry, q: nat, n: nat)
    requires q < n
    ensures q * Len(g) + Len(g) <= n * Len(g)
  {
    MulMono(q + 1, n, Len(g));
  }

  /** Writing window n keeps the windows before it: their cells do not overlap. */
  lemma WindowsKept(input: seq<real>, g: Geometry, f: seq<real>, f': seq<real>, n: nat)
    requires Valid(g) && WindowsFilled(input, g, f, n) && SameElsewhere(f', f, n * Len(g), n * Len(g) + Len(g))
    requires WindowFilled(input, g, f', n)
    ensures WindowsFilled(input, g, f', n + 1)
  {
    forall q | 0 <= q < n + 1 ensures WindowFilled(input, g, f', q) {
      if q < n {
        WindowEnd(g, q, n);
        assert WindowFilled(input, g, f, q);
      }
    }
  }

  /** A loop from -p in steps of s below w + p - k + 1 makes exactly Out turns. */
  lemma LoopCount(g: Geometry, i: nat)
    requires Valid(g)
    ensures g.s * i - g.p < g.w + g.p - g.k + 1 <==> i < Out(g)
  {
    var d := g.w + 2 * g.p - g.k;
    assert d == g.s * (d / g.s) + d % g.s;
    if i <= d / g.s { MulMono(i, d / g.s, g.s); } else { MulMono(d / g.s + 1, i, g.s); }
  }

  lemma WindowNumber(g: Geometry, i: nat, j: nat)
    requires Valid(g) && j < Out(g)
    ensures Win(g, i, j) / Out(g) == i && Win(g, i, j) % Out(g) == j
  {
    DivMod(Win(g, i, j), i, j, Out(g));
  }

  lemma StepNumber(s: nat, i: nat)
    requires s > 0
    ensures s * i / s == i
  {
    DivMod(s * i, i, 0, s);
  }

  lemma WindowFits(g: Geometry, i: nat, j: nat)
    requires Valid(g) && i < Out(g) && j < Out(g)
    ensures Win(g, i, j) * Len(g) + Len(g) <= Out(g) * Out(g) * Len(g)
  {
    MulMono(i + 1, Out(g), Out(g));
    NextBand(g, i);
    WindowEnd(g, Win(g, i, j), Out(g) * Out(g));
  }

  /** One turn of the two outer loops of im2col_core, with its own start in the output. */
  method WriteWindow(input: seq<real>, g: Geometry, f: array<real>, ghost i: nat, ghost j: nat, rn: int, cn: int)
    requires Valid(g) && IsImage(input, g) && i < Out(g) && j < Out(g) && rn == g.s * i - g.p && cn == g.s * j - g.p
    requires f.Length == Out(g) * Out(g) * Len(g)
    requires WindowsFilled(input, g, f[..], Win(g, i, j))
    modifies f
    ensures WindowsFilled(input, g, f[..], Win(g, i, j + 1))
  {
    ghost var q := Win(g, i, j);
    WindowNumber(g, i, j);
    StepNumber(g.s, i);
    StepNumber(g.s, j);
    assert (rn + g.p) / g.s == i && (cn + g.p) / g.s == j;
    var base := ((rn + g.p) / g.s * Out(g) + (cn + g.p) / g.s) * g.c * g.k * g.k;
    BaseIs(g, q);
    WindowFits(g, i, j);
    LoopCount(g, i);
    LoopCount(g, j);
    ghost var before := f[..];
    var _ := FillWindow(input, g, f, i, j, rn, cn, base);
    WindowsKept(input, g, before, f[..], q);
  }

  lemma BaseIs(g: Geometry, q: nat)
    ensures q * g.c * g.k * g.k == q * Len(g)
  {
    assert q * g.c * g.k == q * (g.c * g.k);
    assert q * (g.c * g.k) * g.k == q * (g.c * g.k * g.k);
  }

  /** The loop over one row of windows. */
  method FillBand(input: seq<real>, g: Geometry, f: array<real>, ghost i: nat, rn: int)
    requires Valid(g) && IsImage(input, g) && f.Length == Out(g) * Out(g) * Len(g)
    requires i < Out(g) && rn == g.s * i - g.p && WindowsFilled(input, g, f[..], Win(g, i, 0))
    modifies f
    ensures WindowsFilled(input, g, f[..], Win(g, i + 1, 0))
  {
    var cn: int := -(g.p as int);
    ghost var j := 0;
    while cn < g.w + g.p - g.k + 1
      invariant 0 <= j <= Out(g) && cn == g.s * j - g.p
      invariant WindowsFilled(input, g, f[..], Win(g, i, j))
      decreases Out(g) - j
    {
      LoopCount(g, j);
      WriteWindow(input, g, f, i, j, rn, cn);
      NextStep(g, j);
      cn, j := cn + g.s, j + 1;
    }
    LoopCount(g, j);
    NextBand(g, i);
  }

  lemma NextStep(g: Geometry, i: nat)
    ensures g.s * (i + 1) == g.s * i + g.s
  {
  }

  /** im2col_core: every cell of the matrix is written with its window's cell. */
  method Im2colCore(input: seq<real>, g: Geometry, f: array<real>)
    requires Valid(g) && IsImage(input, g) && f.Length == Out(g) * Out(g) * Len(g)
    modifies f
    ensures WindowsFilled(input, g, f[..], Win(g, Out(g), 0))
  {
    var rn: int := -(g.p as int);
    ghost var i := 0;
    while rn < g.w + g.p - g.k + 1
      invariant 0 <= i <= Out(g) && rn == g.s * i - g.p
      invariant WindowsFilled(input, g, f[..], Win(g, i, 0))
      decreases Out(g) - i
    {
      LoopCount(g, i);
      FillBand(input, g, f, i, rn);
      NextStep(g, i);
      rn, i := rn + g.s, i + 1;
    }
    LoopCount(g, i);
  }

  lemma ZeroFactor(a: nat, b: nat, n: nat)
    requires n < a * b
    ensures b > 0
  {
  }

  /** Every cell of the matrix belongs to a window, */
  lemma CellHasWindow(g: Geometry, n: nat)
    requires Valid(g) && n < Out(g) * Out(g) * Len(g)
    ensures Len(g) > 0 && n / Len(g) < Win(g, Out(g), 0) && n == n / Len(g) * Len(g) + n % Len(g)
  {
    ZeroFactor(Out(g) * Out(g), Len(g), n);
    DivBound(n, Out(g) * Out(g), Len(g));
  }

  /** and to no other, and to one place in it. */
  lemma CellHasOneWindow(g: Geometry, q: nat, m: nat, q': nat, m': nat)
    requires m < Len(g) && m' < Len(g) && q * Len(g) + m == q' * Len(g) + m'
    ensures q == q' && m == m'
  {
    DivMod(q * Len(g) + m, q, m, Len(g));
    DivMod(q' * Len(g) + m', q', m', Len(g));
  }
}
