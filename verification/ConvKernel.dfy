/**
 The two convolution entry points: the unfolding with a running output cursor, and
 unfolding followed by a matrix product, bias and rectifier.
 */
module ConvKernels {
  import opened Convolution
  import opened Maybes

  // ---------------------------------------------------------------------
  // The running cursor
  // ---------------------------------------------------------------------

  /** The window count as the cursor version computes it. */
  function OutFloor(g: Geometry): nat
    requires Valid(g)
  {
    (g.w + 2 * g.p - g.k + 1) / g.s
  }

  predicate StrideDivides(g: Geometry)
    requires Valid(g)
  {
    (g.w + 2 * g.p - g.k + 1) % g.s == 0
  }

  /** The two counts agree exactly when the stride divides; otherwise the cursor version allocates one too few. */
  lemma OutFloorIs(g: Geometry)
    requires Valid(g)
    ensures OutFloor(g) == if StrideDivides(g) then Out(g) else Out(g) - 1
  {
    var d := g.w + 2 * g.p - g.k;
    var q, r := d / g.s, d % g.s;
    assert d == q * g.s + r;
    if r + 1 == g.s {
      assert (q + 1) * g.s == q * g.s + g.s;
      DivMod(d + 1, q + 1, 0, g.s);
    } else {
      DivMod(d + 1, q, r + 1, g.s);
    }
  }

  /** One row of windows; stops before the first cell that would fall outside the array. */
  method CursorBand(input: seq<real>, g: Geometry, f: array<real>, ghost i: nat, rn: int, at: nat) returns (ok: bool, next: nat)
    requires Valid(g) && IsImage(input, g) && i < Out(g) && rn == g.s * i - g.p
    requires at == Win(g, i, 0) * Len(g) <= f.Length && WindowsFilled(input, g, f[..], Win(g, i, 0))
    modifies f
    ensures ok ==> next == Win(g, i + 1, 0) * Len(g) <= f.Length && WindowsFilled(input, g, f[..], Win(g, i + 1, 0))
    ensures f.Length >= Win(g, i + 1, 0) * Len(g) ==> ok
  {
    next := at;
    var cn: int := -(g.p as int);
    ghost var j := 0;
    while cn < g.w + g.p - g.k + 1
      invariant 0 <= j <= Out(g) && cn == g.s * j - g.p
      invariant next == Win(g, i, j) * Len(g) <= f.Length && WindowsFilled(input, g, f[..], Win(g, i, j))
      decreases Out(g) - j
    {
      LoopCount(g, j);
      LoopCount(g, i);
      NextBand(g, i);
      WindowEnd(g, Win(g, i, j), Win(g, i + 1, 0));
      WindowNumber(g, i, j);
      if next + Len(g) > f.Length { return false, next; }
      ghost var before := f[..];
      next := FillWindow(input, g, f, i, j, rn, cn, next);
      WindowsKept(input, g, before, f[..], Win(g, i, j));
      NextCell(g, Win(g, i, j));
      NextStep(g, j);
      cn, j := cn + g.s, j + 1;
    }
    LoopCount(g, j);
    NextBand(g, i);
    ok := true;
  }

  lemma NextCell(g: Geometry, q: nat)
    ensures (q + 1) * Len(g) == q * Len(g) + Len(g)
  {
  }

  lemma BandFits(g: Geometry, i: nat)
    requires Valid(g) && i < Out(g)
    ensures Win(g, i + 1, 0) * Len(g) <= Out(g) * Out(g) * Len(g)
  {
    MulMono(i + 1, Out(g), Out(g));
    MulMono(Win(g, i + 1, 0), Out(g) * Out(g), Len(g));
  }

  /**
   im2col: writes the same matrix as im2col_core when the stride divides.  Where it does
   not, and there is anything to write, the cursor runs past the end: `ok` is false.
   */
  method Im2col(input: seq<real>, g: Geometry) returns (ok: bool, f: array<real>)
    requires Valid(g) && IsImage(input, g)
    ensures ok <==> StrideDivides(g) || Len(g) == 0
    ensures ok ==> WindowsFilled(input, g, f[..], Win(g, Out(g), 0))
    ensures f.Length == OutFloor(g) * OutFloor(g) * Len(g)
  {
    f := new real[OutFloor(g) * OutFloor(g) * Len(g)];
    SizesAgree(g);
    var rn: int := -(g.p as int);
    ghost var i := 0;
    var at := 0;
    while rn < g.w + g.p - g.k + 1
      invariant 0 <= i <= Out(g) && rn == g.s * i - g.p && fresh(f)
      invariant at == Win(g, i, 0) * Len(g) <= f.Length && WindowsFilled(input, g, f[..], Win(g, i, 0))
      decreases Out(g) - i
    {
      LoopCount(g, i);
      BandFits(g, i);
      ok, at := CursorBand(input, g, f, i, rn, at);
      if !ok { return; }
      NextStep(g, i);
      rn, i := rn + g.s, i + 1;
    }
    LoopCount(g, i);
    ok := true;
  }

  /** The array is as long as the matrix, or, with a stride that does not divide, shorter. */
  lemma SizesAgree(g: Geometry)
    requires Valid(g)
    ensures StrideDivides(g) || Len(g) == 0 ==>
      OutFloor(g) * OutFloor(g) * Len(g) == Out(g) * Out(g) * Len(g)
    ensures !(StrideDivides(g) || Len(g) == 0) ==>
      OutFloor(g) * OutFloor(g) * Len(g) < Win(g, Out(g), 0) * Len(g)
  {
    OutFloorIs(g);
    if !StrideDivides(g) && Len(g) > 0 {
      MulMono(OutFloor(g), Out(g), OutFloor(g));
      MulMono(OutFloor(g), Out(g), Out(g));
      assert Out(g) * Out(g) == Out(g) * OutFloor(g) + Out(g);
      MulMono(OutFloor(g) * OutFloor(g) + 1, Out(g) * Out(g), Len(g));
      NextCell(g, OutFloor(g) * OutFloor(g));
    }
  }

  /** A 5 by 5 image, a 2 by 2 kernel and stride 3: one window is allocated where four are written. */
  lemma StrideThreeOverruns()
    ensures var g := Geometry(1, 5, 2, 0, 3);
      && Valid(g) && !StrideDivides(g) && Len(g) == 4
      && OutFloor(g) * OutFloor(g) * Len(g) == 4 && Win(g, Out(g), 0) * Len(g) == 16
  {
    var g := Geometry(1, 5, 2, 0, 3);
    assert Out(g) == 2 && OutFloor(g) == 1;
  }

  // ---------------------------------------------------------------------
  // The product is a convolution
  // ---------------------------------------------------------------------

  /** The dot product of the kernel row that starts at `ko` with a window, first n cells. */
  function DotTo(kern: seq<real>, ko: nat, input: seq<real>, g: Geometry, i: nat, j: nat, n: nat): real
    requires IsImage(input, g) && n <= Len(g) && ko + Len(g) <= |kern|
  {
    if n == 0 then 0.0
    else DotTo(kern, ko, input, g, i, j, n - 1) + kern[ko + n - 1] * Cell(input, g, i, j, n - 1)
  }

  /** Weight of the kernel row at `ko` for input channel c, kernel row ky, kernel column kx. */
  function Weight(kern: seq<real>, g: Geometry, ko: nat, c: nat, ky: nat, kx: nat): real
    requires c < g.c && ky < g.k && kx < g.k && ko + Len(g) <= |kern|
  {
    PosInRange(g, c, ky, kx);
    kern[ko + Pos(g.k, c, ky, kx)]
  }

  predicate Operands(kern: seq<real>, ko: nat, input: seq<real>, g: Geometry) {
    IsImage(input, g) && ko + Len(g) <= |kern|
  }

  function SumCols(kern: seq<real>, ko: nat, input: seq<real>, g: Geometry, rn: int, cn: int, c: nat, ky: nat, n: nat): real
    requires Operands(kern, ko, input, g) && c < g.c && ky < g.k && n <= g.k
  {
    if n == 0 then 0.0
    else SumCols(kern, ko, input, g, rn, cn, c, ky, n - 1)
         + Weight(kern, g, ko, c, ky, n - 1) * Padded(input, g, c, rn + ky, cn + n - 1)
  }

  function SumRows(kern: seq<real>, ko: nat, input: seq<real>, g: Geometry, rn: int, cn: int, c: nat, n: nat): real
    requires Operands(kern, ko, input, g) && c < g.c && n <= g.k
  {
    if n == 0 then 0.0
    else SumRows(kern, ko, input, g, rn, cn, c, n - 1) + SumCols(kern, ko, input, g, rn, cn, c, n - 1, g.k)
  }

  function SumChannels(kern: seq<real>, ko: nat, input: seq<real>, g: Geometry, rn: int, cn: int, n: nat): real
    requires Operands(kern, ko, input, g) && n <= g.c
  {
    if n == 0 then 0.0
    else SumChannels(kern, ko, input, g, rn, cn, n - 1) + SumRows(kern, ko, input, g, rn, cn, n - 1, g.k)
  }

  /** Direct convolution with the kernel row at `ko`, at row i, column j. */
  function Conv(kern: seq<real>, ko: nat, input: seq<real>, g: Geometry, i: nat, j: nat): real
    requires Operands(kern, ko, input, g)
  {
    SumChannels(kern, ko, input, g, g.s * i - g.p, g.s * j - g.p, g.c)
  }

  lemma {:induction false} ColsAreDot(kern: seq<real>, ko: nat, input: seq<real>, g: Geometry, i: nat, j: nat, c: nat, ky: nat, n: nat)
    requires Operands(kern, ko, input, g) && c < g.c && ky < g.k && n <= g.k
    ensures Pos(g.k, c, ky, n) <= Len(g)
    ensures DotTo(kern, ko, input, g, i, j, Pos(g.k, c, ky, n))
      == DotTo(kern, ko, input, g, i, j, Pos(g.k, c, ky, 0)) + SumCols(kern, ko, input, g, g.s * i - g.p, g.s * j - g.p, c, ky, n)
  {
    PosInRange(g, c, ky, g.k - 1);
    if n > 0 {
      ColsAreDot(kern, ko, input, g, i, j, c, ky, n - 1);
      CellAt(input, g, i, j, c, ky, n - 1);
      PosNext(g.k, c, ky, n - 1);
      SameTerm(kern, ko, input, g, i, j, Pos(g.k, c, ky, n - 1), g.s * i - g.p, g.s * j - g.p, c, ky, n - 1);
    }
  }

  lemma DotStep(kern: seq<real>, ko: nat, input: seq<real>, g: Geometry, i: nat, j: nat, m: nat, w: real, x: real)
    requires Operands(kern, ko, input, g) && m < Len(g) && kern[ko + m] == w && Cell(input, g, i, j, m) == x
    ensures DotTo(kern, ko, input, g, i, j, m + 1) == DotTo(kern, ko, input, g, i, j, m) + w * x
  {
  }

  lemma ColStep(kern: seq<real>, ko: nat, input: seq<real>, g: Geometry, rn: int, cn: int, c: nat, ky: nat, kx: nat, w: real, x: real)
    requires Operands(kern, ko, input, g) && c < g.c && ky < g.k && kx < g.k
    requires Weight(kern, g, ko, c, ky, kx) == w && Padded(input, g, c, rn + ky, cn + kx) == x
    ensures SumCols(kern, ko, input, g, rn, cn, c, ky, kx + 1) == SumCols(kern, ko, input, g, rn, cn, c, ky, kx) + w * x
  {
  }

  lemma PosNext(k: nat, c: nat, ky: nat, kx: nat)
    ensures Pos(k, c, ky, kx + 1) == Pos(k, c, ky, kx) + 1
  {
  }

  /** One more cell adds the same term to either sum. */
  lemma SameTerm(kern: seq<real>, ko: nat, input: seq<real>, g: Geometry, i: nat, j: nat, m: nat,
                 rn: int, cn: int, c: nat, ky: nat, kx: nat)
    requires Operands(kern, ko, input, g) && m < Len(g) && c < g.c && ky < g.k && kx < g.k
    requires Weight(kern, g, ko, c, ky, kx) == kern[ko + m]
    requires Cell(input, g, i, j, m) == Padded(input, g, c, rn + ky, cn + kx)
    ensures DotTo(kern, ko, input, g, i, j, m + 1) - DotTo(kern, ko, input, g, i, j, m)
      == SumCols(kern, ko, input, g, rn, cn, c, ky, kx + 1) - SumCols(kern, ko, input, g, rn, cn, c, ky, kx)
  {
    DotStep(kern, ko, input, g, i, j, m, kern[ko + m], Cell(input, g, i, j, m));
    ColStep(kern, ko, input, g, rn, cn, c, ky, kx, kern[ko + m], Cell(input, g, i, j, m));
  }

  lemma {:induction false} RowsAreDot(kern: seq<real>, ko: nat, input: seq<real>, g: Geometry, i: nat, j: nat, c: nat, n: nat)
    requires Operands(kern, ko, input, g) && c < g.c && n <= g.k && g.k > 0
    ensures Pos(g.k, c, n, 0) <= Len(g)
    ensures DotTo(kern, ko, input, g, i, j, Pos(g.k, c, n, 0))
      == DotTo(kern, ko, input, g, i, j, Pos(g.k, c, 0, 0)) + SumRows(kern, ko, input, g, g.s * i - g.p, g.s * j - g.p, c, n)
  {
    PosInRange(g, c, 0, 0);
    if n > 0 {
      RowsAreDot(kern, ko, input, g, i, j, c, n - 1);
      ColsAreDot(kern, ko, input, g, i, j, c, n - 1, g.k);
      NextRow(g.k, c, n - 1);
    }
  }

  lemma {:induction false} ChannelsAreDot(kern: seq<real>, ko: nat, input: seq<real>, g: Geometry, i: nat, j: nat, n: nat)
    requires Operands(kern, ko, input, g) && n <= g.c && g.k > 0
    ensures Pos(g.k, n, 0, 0) <= Len(g)
    ensures DotTo(kern, ko, input, g, i, j, Pos(g.k, n, 0, 0)) == SumChannels(kern, ko, input, g, g.s * i - g.p, g.s * j - g.p, n)
  {
    if n > 0 {
      ChannelsAreDot(kern, ko, input, g, i, j, n - 1);
      RowsAreDot(kern, ko, input, g, i, j, n - 1, g.k);
      NextChannel(g.k, n - 1);
    }
  }

  /** The product of a kernel row with an unfolded window is the convolution there. */
  lemma DotIsConv(kern: seq<real>, ko: nat, input: seq<real>, g: Geometry, i: nat, j: nat)
    requires Operands(kern, ko, input, g) && g.k > 0
    ensures DotTo(kern, ko, input, g, i, j, Len(g)) == Conv(kern, ko, input, g, i, j)
  {
    ChannelsAreDot(kern, ko, input, g, i, j, g.c);
  }

  // ---------------------------------------------------------------------
  // kfm_im2col
  // ---------------------------------------------------------------------

  /** A named weight: a matrix, or for a bias a vector of `rows` numbers. */
  datatype Matrix = Matrix(rows: nat, cols: nat, data: seq<real>)

  datatype Outcome = Error | Done(rows: nat, cols: nat, data: seq<real>)

  function Relu(x: real): real { if x < 0.0 then 0.0 else x }

  /** Where row o begins in a matrix with rows of this length. */
  function Start(len: nat, o: nat): nat { o * len }

  lemma RowFits(len: nat, o: nat, rows: nat)
    requires o < rows
    ensures Start(len, o) + len == Start(len, o + 1) <= Start(len, rows)
  {
    MulMono(o + 1, rows, len);
  }

  /** One entry of the matrix product A * B^T, first n terms. */
  function GemmTo(a: seq<real>, ao: nat, b: seq<real>, bo: nat, n: nat): real
    requires ao + n <= |a| && bo + n <= |b|
  {
    if n == 0 then 0.0 else GemmTo(a, ao, b, bo, n - 1) + a[ao + n - 1] * b[bo + n - 1]
  }

  /** Entries 0 to n, excluded, of a row of the result come from one row of A and the first rows of B. */
  ghost predicate ProductRow(a: seq<real>, ao: nat, b: seq<real>, len: nat, res: seq<real>, at: nat, n: nat) {
    && ao + len <= |a| && at + n <= |res| && Start(len, n) <= |b|
    && forall q {:trigger Start(len, q)} :: 0 <= q < n ==>
         Start(len, q) + len <= |b| && res[at + q] == GemmTo(a, ao, b, Start(len, q), len)
  }

  ghost predicate Product(a: seq<real>, b: seq<real>, len: nat, cols: nat, res: seq<real>, n: nat) {
    forall o {:trigger Start(len, o)} :: 0 <= o < n ==> ProductRow(a, Start(len, o), b, len, res, Start(cols, o), cols)
  }

  /** One row of the product. */
  method GemmRow(a: seq<real>, ao: nat, b: seq<real>, cols: nat, len: nat, res: array<real>, at: nat)
    requires ao + len <= |a| && |b| == Start(len, cols) && at + cols <= res.Length
    modifies res
    ensures ProductRow(a, ao, b, len, res[..], at, cols)
    ensures SameElsewhere(res[..], old(res[..]), at, at + cols)
  {
    var q := 0;
    while q < cols
      invariant 0 <= q <= cols
      invariant q < cols ==> Start(len, q) <= |b|
      invariant ProductRow(a, ao, b, len, res[..], at, q)
      invariant SameElsewhere(res[..], old(res[..]), at, at + cols)
    {
      RowFits(len, q, cols);
      res[at + q] := GemmTo(a, ao, b, Start(len, q), len);
      q := q + 1;
    }
  }

  lemma ProductKept(a: seq<real>, b: seq<real>, len: nat, cols: nat, res: seq<real>, res': seq<real>, n: nat)
    requires Product(a, b, len, cols, res, n) && SameElsewhere(res', res, Start(cols, n), Start(cols, n) + cols)
    requires ProductRow(a, Start(len, n), b, len, res', Start(cols, n), cols)
    ensures Product(a, b, len, cols, res', n + 1)
  {
    forall o | 0 <= o < n + 1 ensures ProductRow(a, Start(len, o), b, len, res', Start(cols, o), cols) {
      if o < n {
        RowFits(cols, o, n);
        assert ProductRow(a, Start(len, o), b, len, res, Start(cols, o), cols);
      }
    }
  }

  /** Stands for the library's matrix product. */
  method Gemm(a: seq<real>, rows: nat, b: seq<real>, cols: nat, len: nat) returns (res: array<real>)
    requires |a| == Start(len, rows) && |b| == Start(len, cols)
    ensures fresh(res) && res.Length == Start(cols, rows) && Product(a, b, len, cols, res[..], rows)
  {
    res := new real[Start(cols, rows)];
    var o := 0;
    while o < rows
      invariant 0 <= o <= rows && fresh(res) && Product(a, b, len, cols, res[..], o)
    {
      RowFits(len, o, rows);
      RowFits(cols, o, rows);
      ghost var before := res[..];
      GemmRow(a, Start(len, o), b, cols, len, res, Start(cols, o));
      ProductKept(a, b, len, cols, before, res[..], o);
      o := o + 1;
    }
  }

  /** Row o of the result is row o of the product with the bias added and clamped at zero. */
  ghost predicate BiasedRow(res: seq<real>, before: seq<real>, bias: real, at: nat, cols: nat) {
    at + cols <= |res| == |before| && forall x :: at <= x < at + cols ==> res[x] == Relu(before[x] + bias)
  }

  ghost predicate Biased(res: seq<real>, before: seq<real>, bias: seq<real>, cols: nat, n: nat) {
    forall o {:trigger Start(cols, o)} :: 0 <= o < n && o < |bias| ==> BiasedRow(res, before, bias[o], Start(cols, o), cols)
  }

  method BiasRow(res: array<real>, bias: real, offset: nat, cols: nat)
    requires offset + cols <= res.Length
    modifies res
    ensures BiasedRow(res[..], old(res[..]), bias, offset, cols)
    ensures SameElsewhere(res[..], old(res[..]), offset, offset + cols)
  {
    var i := offset;
    while i < offset + cols
      invariant offset <= i <= offset + cols
      invariant forall x :: offset <= x < i ==> res[x] == Relu(old(res[x]) + bias)
      invariant forall x :: 0 <= x < res.Length && !(offset <= x < i) ==> res[x] == old(res[x])
    {
      res[i] := res[i] + bias;
      res[i] := Relu(res[i]);
      i := i + 1;
    }
  }

  lemma BiasedKept(res: seq<real>, res': seq<real>, before: seq<real>, bias: seq<real>, cols: nat, n: nat)
    requires n < |bias| && Biased(res, before, bias, cols, n) && |res'| == |res| == |before|
    requires SameElsewhere(res', res, Start(cols, n), Start(cols, n) + cols)
    requires BiasedRow(res', res, bias[n], Start(cols, n), cols)
    requires forall x :: Start(cols, n) <= x < |res| ==> res[x] == before[x]
    ensures Biased(res', before, bias, cols, n + 1)
  {
    forall o | 0 <= o < n + 1 ensures BiasedRow(res', before, bias[o], Start(cols, o), cols) {
      if o < n {
        RowFits(cols, o, n);
        assert BiasedRow(res, before, bias[o], Start(cols, o), cols);
      }
    }
  }

  /** The in-place loops that add each channel's bias and clamp at zero. */
  method AddBias(res: array<real>, bias: seq<real>, rows: nat, cols: nat)
    requires res.Length == Start(cols, rows) && |bias| == rows
    modifies res
    ensures Biased(res[..], old(res[..]), bias, cols, rows)
  {
    ghost var first := res[..];
    var c, offset := 0, 0;
    while c < rows
      invariant 0 <= c <= rows && offset == Start(cols, c)
      invariant Biased(res[..], first, bias, cols, c)
      invariant forall x :: offset <= x < res.Length ==> res[x] == first[x]
    {
      RowFits(cols, c, rows);
      ghost var before := res[..];
      BiasRow(res, bias[c], offset, cols);
      BiasedKept(before, res[..], first, bias, cols, c);
      c, offset := c + 1, offset + cols;
    }
  }

  lemma {:induction false} GemmIsDot(kern: seq<real>, ko: nat, input: seq<real>, g: Geometry, f: seq<real>, i: nat, j: nat, base: nat, n: nat)
    requires Operands(kern, ko, input, g) && n <= Len(g) && Filled(input, g, i, j, f, base, Len(g))
    ensures GemmTo(kern, ko, f, base, n) == DotTo(kern, ko, input, g, i, j, n)
  {
    if n > 0 {
      GemmIsDot(kern, ko, input, g, f, i, j, base, n - 1);
      DotStep(kern, ko, input, g, i, j, n - 1, kern[ko + n - 1], f[base + (n - 1)]);
    }
  }

  /** What the caller must supply: both weights, a kernel row per window cell, and a channel range inside the image. */
  predicate Acceptable(kernel: Maybe<Matrix>, bias: Maybe<Matrix>, g: Geometry, offset: Maybe<(int, int)>) {
    && (offset.Just? ==> 1 <= offset.value.0 <= offset.value.1 <= g.c)
    && kernel.Just? && bias.Just? && kernel.value.cols == Len(Selected(g, offset))
  }

  /** The geometry of the selected channels. */
  function Selected(g: Geometry, offset: Maybe<(int, int)>): Geometry {
    if offset.Just? && 1 <= offset.value.0 <= offset.value.1 <= g.c
    then g.(c := offset.value.1 - offset.value.0 + 1) else g
  }

  lemma SliceFits(g: Geometry, lo: nat, hi: nat)
    requires lo <= hi <= g.c
    ensures lo * (g.w * g.w) <= hi * (g.w * g.w) <= g.c * g.w * g.w
    ensures hi * (g.w * g.w) - lo * (g.w * g.w) == (hi - lo) * g.w * g.w
  {
    MulMono(lo, hi, g.w * g.w);
    MulMono(hi, g.c, g.w * g.w);
    assert g.c * g.w * g.w == g.c * (g.w * g.w);
    assert (hi - lo) * g.w * g.w == (hi - lo) * (g.w * g.w);
  }

  /** The selected channels of the image. */
  function Slice(input: seq<real>, g: Geometry, offset: Maybe<(int, int)>): (s: seq<real>)
    requires IsImage(input, g)
    ensures IsImage(s, Selected(g, offset))
  {
    if offset.Just? && 1 <= offset.value.0 <= offset.value.1 <= g.c then
      var lo, hi := offset.value.0 - 1, offset.value.1;
      SliceFits(g, lo, hi);
      input[lo * (g.w * g.w)..hi * (g.w * g.w)]
    else input
  }

  /** The number of windows. */
  function Windows(g: Geometry): nat
    requires Valid(g)
  {
    Win(g, Out(g), 0)
  }

  /** The entry of output channel o at row i, column j is the convolution, with bias and rectifier if there is a bias. */
  ghost predicate Convolved(kern: seq<real>, bias: Maybe<seq<real>>, input: seq<real>, g: Geometry, data: seq<real>, o: nat, i: nat, j: nat)
    requires Valid(g)
  {
    && Operands(kern, Start(Len(g), o), input, g) && Start(Windows(g), o) + Win(g, i, j) < |data|
    && (bias.Just? ==> o < |bias.value|)
    && var y := Conv(kern, Start(Len(g), o), input, g, i, j);
       data[Start(Windows(g), o) + Win(g, i, j)] == if bias.Just? then Relu(y + bias.value[o]) else y
  }

  ghost predicate AllConvolved(kern: seq<real>, bias: Maybe<seq<real>>, input: seq<real>, g: Geometry, data: seq<real>, rows: nat)
    requires Valid(g)
  {
    forall o, i, j :: 0 <= o < rows && 0 <= i < Out(g) && 0 <= j < Out(g) ==> Convolved(kern, bias, input, g, data, o, i, j)
  }

  /** The bias counts only if it has an entry for each output channel. */
  function BiasFor(bias: Matrix, rows: nat): Maybe<seq<real>> {
    if bias.rows == rows then Just(bias.data) else Nothing
  }

  lemma WindowInside(g: Geometry, i: nat, j: nat)
    requires Valid(g) && i < Out(g) && j < Out(g)
    ensures Win(g, i, j) < Windows(g)
  {
    MulMono(i + 1, Out(g), Out(g));
    NextBand(g, i);
  }

  lemma ProductIsConv(kern: seq<real>, rows: nat, input: seq<real>, g: Geometry, f: seq<real>, res: seq<real>, o: nat, i: nat, j: nat)
    requires Valid(g) && IsImage(input, g) && WindowsFilled(input, g, f, Windows(g)) && |kern| == Start(Len(g), rows)
    requires Product(kern, f, Len(g), Windows(g), res, rows) && o < rows && i < Out(g) && j < Out(g)
    ensures Convolved(kern, Nothing, input, g, res, o, i, j)
  {
    var q := Win(g, i, j);
    WindowInside(g, i, j);
    WindowNumber(g, i, j);
    RowFits(Len(g), o, rows);
    assert WindowFilled(input, g, f, q);
    assert ProductRow(kern, Start(Len(g), o), f, Len(g), res, Start(Windows(g), o), Windows(g));
    assert Start(Len(g), q) == q * Len(g);
    GemmIsDot(kern, Start(Len(g), o), input, g, f, i, j, q * Len(g), Len(g));
    DotIsConv(kern, Start(Len(g), o), input, g, i, j);
  }

  lemma BiasedIsConv(kern: seq<real>, bias: seq<real>, rows: nat, input: seq<real>, g: Geometry, before: seq<real>, res: seq<real>, o: nat, i: nat, j: nat)
    requires Valid(g) && Convolved(kern, Nothing, input, g, before, o, i, j) && o < rows == |bias| && i < Out(g) && j < Out(g)
    requires Biased(res, before, bias, Windows(g), rows)
    ensures Convolved(kern, Just(bias), input, g, res, o, i, j)
  {
    WindowInside(g, i, j);
    assert BiasedRow(res, before, bias[o], Start(Windows(g), o), Windows(g));
  }

  /**
   kfm_im2col on a square image: direct zero-padded, strided convolution of the selected
   channels, with bias and rectifier exactly when the bias has an entry per output channel.
   */
  method KfmIm2col(kernel: Maybe<Matrix>, bias: Maybe<Matrix>, input: seq<real>, g: Geometry, offset: Maybe<(int, int)>)
    returns (r: Outcome)
    requires Valid(g) && IsImage(input, g)
    requires kernel.Just? ==> |kernel.value.data| == Start(kernel.value.cols, kernel.value.rows)
    requires bias.Just? ==> |bias.value.data| == bias.value.rows
    ensures r.Done? <==> Acceptable(kernel, bias, g, offset)
    ensures r.Done? ==> r.rows == kernel.value.rows && r.cols == Windows(Selected(g, offset)) && |r.data| == Start(r.cols, r.rows)
    ensures r.Done? ==>
      AllConvolved(kernel.value.data, BiasFor(bias.value, r.rows), Slice(input, g, offset), Selected(g, offset), r.data, r.rows)
  {
    if offset.Just? && (offset.value.0 - 1 < 0 || offset.value.1 > g.c || offset.value.0 - 1 >= offset.value.1) { return Error; }
    var h, image := Selected(g, offset), Slice(input, g, offset);
    var f := new real[Out(h) * Out(h) * Len(h)];
    Im2colCore(image, h, f);
    if kernel.Nothing? { return Error; }
    var kern, rows := kernel.value.data, kernel.value.rows;
    if kernel.value.cols != Len(h) { return Error; }
    var res := Gemm(kern, rows, f[..], Windows(h), Len(h));
    if bias.Nothing? { return Error; }
    ghost var products := res[..];
    forall o, i, j | 0 <= o < rows && 0 <= i < Out(h) && 0 <= j < Out(h) ensures Convolved(kern, Nothing, image, h, products, o, i, j) {
      ProductIsConv(kern, rows, image, h, f[..], products, o, i, j);
    }
    if bias.value.rows == rows {
      AddBias(res, bias.value.data, rows, Windows(h));
      forall o, i, j | 0 <= o < rows && 0 <= i < Out(h) && 0 <= j < Out(h)
        ensures Convolved(kern, Just(bias.value.data), image, h, res[..], o, i, j)
      {
        BiasedIsConv(kern, bias.value.data, rows, image, h, products, res[..], o, i, j);
      }
    }
    r := Done(rows, Windows(h), res[..]);
  }
}
