/** `calculateGridOffset` (src/utils/CanvasUtils.ts): where the first grid line is drawn,
    relative to an origin offset `n`, for a grid with spacing `gridSpacing`. JavaScript's `%`
    on numbers truncates toward zero, so the remainder takes the sign of the dividend; that is
    modelled explicitly. The drawing helpers of the same file are canvas output and are not
    modelled. */
module CanvasUtils {

  /** `x` rounded toward zero, as JavaScript's `%` uses it. */
  function Trunc(x: real): int {
    if x >= 0.0 then x.Floor else -((-x).Floor)
  }

  /** JavaScript's `a % b` on numbers: `a - b * trunc(a / b)`. */
  function JsRem(a: real, b: real): real
    requires b != 0.0
  {
    a - b * (Trunc(a / b) as real)
  }

  /** A product kept as a term of its own, so that the sign lemmas below compose. */
  function Mul(a: real, b: real): real {
    a * b
  }

  /** A whole multiple of `s`. */
  function Multiple(k: int, s: real): real {
    (k as real) * s
  }

  lemma DivTimes(a: real, b: real)
    requires b != 0.0
    ensures Mul(a / b, b) == a
  {
  }

  lemma MulLe(lo: real, hi: real, b: real)
    requires lo <= hi && b > 0.0
    ensures Mul(lo, b) <= Mul(hi, b)
  {
  }

  lemma MulLt(lo: real, hi: real, b: real)
    requires lo < hi && b > 0.0
    ensures Mul(lo, b) < Mul(hi, b)
  {
  }

  lemma MulShift(t: real, d: real, b: real)
    ensures Mul(t + d, b) == Mul(t, b) + Mul(d, b)
    ensures Mul(1.0, b) == b && Mul(0.0, b) == 0.0 && Mul(-1.0, b) == -b
  {
  }

  /** Truncation is within one of its argument, on the side of zero. */
  lemma TruncBounds(x: real)
    ensures x >= 0.0 ==> Trunc(x) as real <= x < Trunc(x) as real + 1.0
    ensures x < 0.0 ==> Trunc(x) as real - 1.0 < x <= Trunc(x) as real
  {
  }

  /** For a positive divisor the remainder has the sign of the dividend and is smaller than
      the divisor in magnitude. */
  lemma JsRemRange(a: real, b: real)
    requires b > 0.0
    ensures a >= 0.0 ==> 0.0 <= JsRem(a, b) < b
    ensures a < 0.0 ==> -b < JsRem(a, b) <= 0.0
  {
    var q := a / b;
    var t := Trunc(q) as real;
    DivTimes(a, b);
    TruncBounds(q);
    assert JsRem(a, b) == a - Mul(t, b);
    MulShift(t, 1.0, b);
    MulShift(t, -1.0, b);
    if q >= 0.0 {
      MulLe(0.0, q, b);
      MulLe(t, q, b);
      MulLt(q, t + 1.0, b);
    } else {
      MulLt(q, 0.0, b);
      MulLt(t - 1.0, q, b);
      MulLe(q, t, b);
    }
  }

  /** `calculateGridOffset(config, n)` with `config.gridSpacing` as `gridSpacing`. A zero
      spacing makes JavaScript divide by zero (the result is NaN), so it is excluded. */
  function CalculateGridOffset(gridSpacing: real, n: real): real
    requires gridSpacing != 0.0
  {
    if n >= 0.0 then JsRem(n + gridSpacing / 2.0, gridSpacing) - gridSpacing / 2.0
    else JsRem(n - gridSpacing / 2.0, gridSpacing) + gridSpacing / 2.0
  }

  /** The offset differs from `n` by a whole number of grid spacings. */
  lemma GridOffsetCongruent(gridSpacing: real, n: real)
    requires gridSpacing != 0.0
    ensures exists k: int :: CalculateGridOffset(gridSpacing, n) == n + Multiple(k, gridSpacing)
  {
    var s := gridSpacing;
    var a := if n >= 0.0 then n + s / 2.0 else n - s / 2.0;
    var k := -Trunc(a / s);
    assert CalculateGridOffset(s, n) == n + Multiple(k, s);
  }

  /** The range the code meets: `[-s/2, s/2)` for `n >= 0`, `(-s/2, s/2]` for `n < 0`. */
  lemma GridOffsetRange(gridSpacing: real, n: real)
    requires gridSpacing > 0.0
    ensures var r := CalculateGridOffset(gridSpacing, n);
      n >= 0.0 ==> -gridSpacing / 2.0 <= r < gridSpacing / 2.0
    ensures var r := CalculateGridOffset(gridSpacing, n);
      n < 0.0 ==> -gridSpacing / 2.0 < r <= gridSpacing / 2.0
  {
    var s := gridSpacing;
    if n >= 0.0 {
      JsRemRange(n + s / 2.0, s);
    } else {
      JsRemRange(n - s / 2.0, s);
    }
  }

  /** A zero offset stays zero. */
  lemma GridOffsetZero(gridSpacing: real)
    requires gridSpacing > 0.0
    ensures CalculateGridOffset(gridSpacing, 0.0) == 0.0
  {
    var s := gridSpacing;
    assert (s / 2.0) / s == 0.5;
    assert Trunc(0.5) == 0;
  }

  /** The doc comment promises `-s/2 < result <= s/2`, but `n = s/2` gives `-s/2`. */
  lemma GridOffsetMissesDocumentedRange(gridSpacing: real)
    requires gridSpacing > 0.0
    ensures CalculateGridOffset(gridSpacing, gridSpacing / 2.0) == -gridSpacing / 2.0
  {
    var s := gridSpacing;
    assert (s / 2.0 + s / 2.0) / s == 1.0;
    assert Trunc(1.0) == 1;
  }

  /** `x` rounded up. */
  function Ceil(x: real): int {
    -((-x).Floor)
  }

  /** The documented behaviour: the representative of `n` modulo the spacing in
      `(-s/2, s/2]`, for either sign of `n`. */
  function GridOffsetAsDocumented(gridSpacing: real, n: real): real
    requires gridSpacing > 0.0
  {
    n - gridSpacing * (Ceil((n - gridSpacing / 2.0) / gridSpacing) as real)
  }

  /** The documented version meets the documented range and the same congruence. */
  lemma GridOffsetAsDocumentedRange(gridSpacing: real, n: real)
    requires gridSpacing > 0.0
    ensures var r := GridOffsetAsDocumented(gridSpacing, n);
      -gridSpacing / 2.0 < r <= gridSpacing / 2.0
    ensures exists k: int :: GridOffsetAsDocumented(gridSpacing, n) == n + Multiple(k, gridSpacing)
  {
    var s := gridSpacing;
    var q := (n - s / 2.0) / s;
    DivTimes(n - s / 2.0, s);
    var c := Ceil(q) as real;
    assert q <= c < q + 1.0;
    assert GridOffsetAsDocumented(s, n) == n - Mul(c, s);
    MulLe(q, c, s);
    MulShift(q, 1.0, s);
    MulLt(c, q + 1.0, s);
    var k := -Ceil(q);
    assert Multiple(k, s) == -Mul(c, s);
  }

  lemma MultipleDifference(k1: int, k2: int, s: real)
    ensures Multiple(k1, s) - Multiple(k2, s) == Multiple(k1 - k2, s)
  {
  }

  /** The only whole multiple of a positive `s` strictly between `-s` and `s` is zero. */
  lemma SmallMultipleIsZero(d: int, s: real)
    requires s > 0.0 && -s < Multiple(d, s) < s
    ensures d == 0
  {
    assert Multiple(d, s) == Mul(d as real, s);
    MulShift(0.0, 0.0, s);
    if d >= 1 {
      MulLe(1.0, d as real, s);
    } else if d <= -1 {
      MulLe(d as real, -1.0, s);
    }
  }

  /** The two versions agree everywhere except where the code returns `-s/2`; in particular
      they agree on every negative `n`. */
  lemma GridOffsetAgreesOffBoundary(gridSpacing: real, n: real)
    requires gridSpacing > 0.0
    requires CalculateGridOffset(gridSpacing, n) != -gridSpacing / 2.0
    ensures GridOffsetAsDocumented(gridSpacing, n) == CalculateGridOffset(gridSpacing, n)
  {
    var s := gridSpacing;
    GridOffsetRange(s, n);
    GridOffsetCongruent(s, n);
    GridOffsetAsDocumentedRange(s, n);
    var r1, r2 := CalculateGridOffset(s, n), GridOffsetAsDocumented(s, n);
    var k1: int :| r1 == n + Multiple(k1, s);
    var k2: int :| r2 == n + Multiple(k2, s);
    // r1 - r2 is a whole multiple of s strictly between -s and s, so it is zero
    MultipleDifference(k1, k2, s);
    SmallMultipleIsZero(k1 - k2, s);
    assert Multiple(0, s) == 0.0;
  }
}
