/**
 SAME padding: the amount the code generator emits against the output size the
 operator declares and the number of windows the kernel computes.
 */
module Padding {
  import opened Convolution

  function Max(a: int, b: int): int { if a < b then b else a }

  /** get_operator_attr: total padding of one axis, before rounding up to even. */
  function RawPad(h: nat, k: nat, s: nat): nat
    requires s > 0
  {
    if h % s == 0 then Max(k - s, 0) else Max(k - h % s, 0)
  }

  /** The padding emitted for one side. */
  function SamePad(h: nat, k: nat, s: nat): nat
    requires s > 0
  {
    var pad := RawPad(h, k, s);
    (if pad % 2 == 1 then pad + 1 else pad) / 2
  }

  /** Conv2D's declared output size under SAME. */
  function Declared(h: nat, s: nat): nat
    requires s > 0
  {
    (h + s - 1) / s
  }

  /** The smallest total padding that gives the declared number of windows. */
  lemma RawPadIsExact(h: nat, k: nat, s: nat)
    requires s > 0 && k > 0 && h > 0
    ensures Declared(h, s) >= 1
    ensures RawPad(h, k, s) == Max((Declared(h, s) - 1) * s + k - h, 0)
  {
    var q, r := h / s, h % s;
    assert h == q * s + r;
    if r == 0 {
      DivMod(h + s - 1, q, s - 1, s);
      assert (q - 1) * s == q * s - s;
    } else {
      assert (q + 1) * s == q * s + s;
      DivMod(h + s - 1, q + 1, r - 1, s);
    }
  }

  /** Rounding up to even adds one to the total when it is odd. */
  lemma SamePadTwice(h: nat, k: nat, s: nat)
    requires s > 0
    ensures 2 * SamePad(h, k, s) == RawPad(h, k, s) + RawPad(h, k, s) % 2
  {
  }

  lemma WindowsFrom(d: int, n: int, s: int)
    requires s > 0 && n >= 1 && (n - 1) * s <= d < n * s
    ensures d >= 0 && d / s + 1 == n
  {
    assert (n - 1) * s >= 0;
    assert n * s == (n - 1) * s + s;
    DivMod(d, n - 1, d - (n - 1) * s, s);
  }

  /** The kernel's window count is the declared size. */
  predicate Agrees(h: nat, k: nat, s: nat)
    requires s > 0 && k > 0
  {
    var g := Geometry(1, h, k, SamePad(h, k, s), s);
    Valid(g) && Out(g) == Declared(h, s)
  }

  /** How far the kernel's extent exceeds what the declared windows need. */
  function Excess(h: nat, k: nat, s: nat): int
    requires s > 0
  {
    h + 2 * SamePad(h, k, s) - k - (Declared(h, s) - 1) * s
  }

  lemma AgreesIff(h: nat, k: nat, s: nat)
    requires s > 0 && k > 0 && h > 0
    ensures Agrees(h, k, s) <==> 0 <= Excess(h, k, s) < s
  {
    var n := Declared(h, s);
    var p := SamePad(h, k, s);
    var d := h + 2 * p - k;
    RawPadIsExact(h, k, s);
    assert n * s == (n - 1) * s + s;
    if 0 <= Excess(h, k, s) < s {
      WindowsFrom(d, n, s);
    } else if d >= 0 {
      assert d == d / s * s + d % s;
    }
  }

  /**
   The generator and the kernel agree exactly when the stride is at least two, or the
   kernel size is odd.
   */
  lemma SamePaddingAgrees(h: nat, k: nat, s: nat)
    requires s > 0 && k > 0 && h > 0
    ensures Agrees(h, k, s) <==> s >= 2 || k % 2 == 1
  {
    AgreesIff(h, k, s);
    RawPadIsExact(h, k, s);
    SamePadTwice(h, k, s);
  }

  /** Four cells, a kernel of two, stride one: five windows where four are declared. */
  lemma EvenKernelDisagrees()
    ensures Declared(4, 1) == 4 && SamePad(4, 2, 1) == 1 && Out(Geometry(1, 4, 2, 1, 1)) == 5 && !Agrees(4, 2, 1)
  {
    SamePaddingAgrees(4, 2, 1);
  }
}
