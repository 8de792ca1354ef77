/**
 png_XYZ_from_xy and png_reciprocal of external/libpng/png.c over the integer png_muldiv:
 from the chromaticities of a cHRM chunk back to end points, in 32-bit fixed point.

 The source divides its 2x2 determinants by 7 and claims that they then cannot overflow.  The
 claim rests on `DeterminantBound`: three points of the chromaticity triangle span a
 determinant of at most one square unit.
 */
module Chromaticity {
  import opened FixedMath

  /** 1.0 in fixed point. */
  const FP_1: int := 100000

  datatype Xy = Xy(redx: int, redy: int, greenx: int, greeny: int, bluex: int, bluey: int, whitex: int, whitey: int)

  datatype Xyz = Xyz(redX: int, redY: int, redZ: int, greenX: int, greenY: int, greenZ: int,
                     blueX: int, blueY: int, blueZ: int)

  datatype Result = Success(xyz: Xyz) | Invalid | InternalError

  /** A point of the triangle x, y >= 0, x + y <= 1. */
  predicate InTriangle(x: int, y: int) {
    0 <= x <= FP_1 && 0 <= y <= FP_1 - x
  }

  /** The range checks at the top of the function. */
  predicate Plausible(c: Xy) {
    && InTriangle(c.redx, c.redy) && InTriangle(c.greenx, c.greeny) && InTriangle(c.bluex, c.bluey)
    && InTriangle(c.whitex, c.whitey) && 5 <= c.whitey
  }

  /** Twice the signed area of the triangle o, p, q. */
  function Det(ox: int, oy: int, px: int, py: int, qx: int, qy: int): int {
    (px - ox) * (qy - oy) - (py - oy) * (qx - ox)
  }

  /** The same as the code computes it: both products divided by 7, then subtracted. */
  function Det7(ox: int, oy: int, px: int, py: int, qx: int, qy: int): int {
    Outcome(px - ox, qy - oy, 7) - Outcome(py - oy, qx - ox, 7)
  }

  function Denominator(c: Xy): int {
    Det7(c.bluex, c.bluey, c.greenx, c.greeny, c.redx, c.redy)
  }

  function RedNumerator(c: Xy): int {
    Det7(c.bluex, c.bluey, c.greenx, c.greeny, c.whitex, c.whitey)
  }

  function GreenNumerator(c: Xy): int {
    Outcome(c.redy - c.bluey, c.whitex - c.bluex, 7) - Outcome(c.redx - c.bluex, c.whitey - c.bluey, 7)
  }

  // ---- The determinant bound ----------------------------------------------------------------------

  lemma VertexBounds(n: int, rx: int, ry: int, sx: int, sy: int)
    requires n > 0
    requires 0 <= rx && 0 <= ry && rx + ry <= n
    requires 0 <= sx && 0 <= sy && sx + sy <= n
    ensures 0 <= sy * rx <= n * n
    ensures n * ry + sy * rx <= n * n
    ensures n * sx + sy * rx <= n * n
  {
    Weighted(rx, sy, n);
    Weighted(sy, rx, n);
    Weighted(n, rx, n);
    Weighted(n, rx + ry, n);
    Weighted(n, sx + sy, n);
  }

  lemma Spread(n: int, gx: int, gy: int, gz: int, ry: int, sx: int, k: int)
    requires n == gx + gy + gz
    ensures n * (gx * ry + gy * sx + k) == gx * (n * ry + k) + gy * (n * sx + k) + gz * k
  {
    assert gx * (n * ry + k) == n * (gx * ry) + gx * k;
    assert gy * (n * sx + k) == n * (gy * sx) + gy * k;
    assert n * k == gx * k + gy * k + gz * k;
  }

  /** The positive part of a determinant: a convex combination of vertex values, each at most n * n. */
  lemma TermsBound(n: int, gx: int, gy: int, rx: int, ry: int, sx: int, sy: int)
    requires n > 0
    requires 0 <= gx && 0 <= gy && gx + gy <= n
    requires 0 <= rx && 0 <= ry && rx + ry <= n
    requires 0 <= sx && 0 <= sy && sx + sy <= n
    ensures 0 <= gx * ry + gy * sx + sy * rx <= n * n
  {
    var gz, k := n - gx - gy, sy * rx;
    VertexBounds(n, rx, ry, sx, sy);
    Spread(n, gx, gy, gz, ry, sx, k);
    Average(n, gx, gy, gz, n * ry + k, n * sx + k, k, gx * ry + gy * sx + k, n * n);
    MulMono(0, gx, ry);
    MulMono(0, gy, sx);
  }

  /** A weighted average of values below a bound is below the bound. */
  lemma Average(n: int, x: int, y: int, z: int, a: int, b: int, c: int, avg: int, bound: int)
    requires n > 0 && 0 <= x && 0 <= y && 0 <= z && n == x + y + z
    requires a <= bound && b <= bound && c <= bound && n * avg == x * a + y * b + z * c
    ensures avg <= bound
  {
    Weighted(x, a, bound);
    Weighted(y, b, bound);
    Weighted(z, c, bound);
    assert n * bound == x * bound + y * bound + z * bound;
    Cancel(n, avg, bound);
  }

  lemma Weighted(w: int, x: int, bound: int)
    requires w >= 0 && x <= bound
    ensures w * x <= w * bound
  {
  }

  lemma Cancel(n: int, x: int, bound: int)
    requires n > 0 && n * x <= n * bound
    ensures x <= bound
  {
    MulMono(bound + 1, x, n);
  }

  /** Three points of the triangle span a determinant of at most one square unit. */
  lemma DeterminantBound(ox: int, oy: int, px: int, py: int, qx: int, qy: int)
    requires InTriangle(ox, oy) && InTriangle(px, py) && InTriangle(qx, qy)
    ensures -FP_1 * FP_1 <= Det(ox, oy, px, py, qx, qy) <= FP_1 * FP_1
  {
    TermsBound(FP_1, px, py, qx, qy, ox, oy);
    TermsBound(FP_1, qx, qy, px, py, ox, oy);
    assert Det(ox, oy, px, py, qx, qy) == (px * qy + py * ox + oy * qx) - (qx * py + qy * ox + oy * px);
  }

  lemma SmallProduct(a: int, b: int)
    requires -FP_1 <= a <= FP_1 && -FP_1 <= b <= FP_1
    ensures Representable(a, b, 7)
    ensures Abs(7 * Outcome(a, b, 7) - a * b) <= 4
  {
    assert Abs(a) * Abs(b) <= FP_1 * FP_1 by {
      Weighted(Abs(a), Abs(b), FP_1);
      Weighted(FP_1, Abs(a), FP_1);
    }
    Accuracy(a, b, 7);
  }

  /** The scaled determinant is accurate to 8/7 units and never leaves 32 bits. */
  lemma Det7Fits(ox: int, oy: int, px: int, py: int, qx: int, qy: int)
    requires InTriangle(ox, oy) && InTriangle(px, py) && InTriangle(qx, qy)
    ensures Abs(7 * Det7(ox, oy, px, py, qx, qy) - Det(ox, oy, px, py, qx, qy)) <= 8
    ensures IsInt32(Det7(ox, oy, px, py, qx, qy))
  {
    DeterminantBound(ox, oy, px, py, qx, qy);
    SmallProduct(px - ox, qy - oy);
    SmallProduct(py - oy, qx - ox);
  }

  /** Cramer's rule: with these numerators over this denominator the end points add up to the white point. */
  lemma Cramer(c: Xy)
    ensures var d := Det(c.bluex, c.bluey, c.greenx, c.greeny, c.redx, c.redy);
            var r := Det(c.bluex, c.bluey, c.greenx, c.greeny, c.whitex, c.whitey);
            var g := Det(c.bluex, c.bluey, c.whitex, c.whitey, c.redx, c.redy);
            && (c.redx - c.bluex) * r + (c.greenx - c.bluex) * g == (c.whitex - c.bluex) * d
            && (c.redy - c.bluey) * r + (c.greeny - c.bluey) * g == (c.whitey - c.bluey) * d
  {
    CramerIdentity(c.redx - c.bluex, c.redy - c.bluey, c.greenx - c.bluex, c.greeny - c.bluey,
                   c.whitex - c.bluex, c.whitey - c.bluey);
  }

  lemma CramerIdentity(a: int, b: int, c: int, d: int, u: int, v: int)
    ensures a * (c * v - d * u) + c * (u * b - v * a) == u * (c * b - d * a)
    ensures b * (c * v - d * u) + d * (u * b - v * a) == v * (c * b - d * a)
  {
    calc {
      a * (c * v - d * u) + c * (u * b - v * a);
      a * c * v - a * d * u + c * u * b - c * v * a;
      u * (c * b - d * a);
    }
    calc {
      b * (c * v - d * u) + d * (u * b - v * a);
      b * c * v - b * d * u + d * u * b - d * v * a;
      v * (c * b - d * a);
    }
  }

  // ---- The inversion --------------------------------------------------------------------------------

  /** png_reciprocal: 1/a in fixed point, or 0 when that does not fit. */
  function Reciprocal(a: int): int {
    if Succeeds(FP_1, FP_1, a) then Outcome(FP_1, FP_1, a) else 0
  }

  /** The reciprocal is 1/a to half a unit, rounded up, if that fits into 32 bits, which it does unless |a| < 5. */
  lemma ReciprocalMeans(a: int)
    requires IsInt32(a)
    ensures Abs(a) < 5 ==> Reciprocal(a) == 0
    ensures Abs(a) >= 5 ==> Abs(Reciprocal(a) * a - FP_1 * FP_1) <= (Abs(a) + 1) / 2
  {
    if Abs(a) >= 5 {
      Accuracy(FP_1, FP_1, a);
    } else if a != 0 {
      assert Magnitude(FP_1, FP_1, a) == Rounded(FP_1 * FP_1, Abs(a));
      assert Abs(a) == 1 || Abs(a) == 2 || Abs(a) == 3 || Abs(a) == 4;
    }
  }

  /** png_reciprocal */
  method ComputeReciprocal(a: int) returns (r: int)
    requires IsInt32(a)
    ensures r == Reciprocal(a)
    ensures Abs(a) < 5 ==> r == 0
    ensures Abs(a) >= 5 ==> Abs(r * a - FP_1 * FP_1) <= (Abs(a) + 1) / 2
  {
    ReciprocalMeans(a);
    var ok, res := MulDiv(FP_1, FP_1, a);
    if ok {
      return res;
    }
    return 0;
  }

  lemma ReciprocalBounds(a: int)
    requires 5 <= a < TWO_31
    ensures FP_1 * FP_1 / a <= Reciprocal(a) <= FP_1 * FP_1 / a + 1
    ensures 0 <= Reciprocal(a) <= 2_000_000_000
    ensures a > 5 ==> Reciprocal(a) <= 1_666_666_667
  {
    var n := FP_1 * FP_1;
    assert Representable(FP_1, FP_1, a);
    RepresentableSucceeds(FP_1, FP_1, a);
    if a > 5 {
      QuotientAtMost(n, a, 6, 1_666_666_666);
    } else {
      assert n / 5 == 2_000_000_000 && n % 5 == 0;
    }
  }

  lemma QuotientAtMost(n: nat, d: nat, e: nat, q: nat)
    requires 0 < e <= d && n < e * (q + 1)
    ensures 0 <= n / d <= q
  {
    var k := n / d;
    assert n == k * d + n % d;
    MulMono(q + 1, k, d);
    MulMono(e, d, q + 1);
    MulMono(k, -1, d);
  }

  lemma QuotientFalls(n: nat, a: nat, b: nat)
    requires 0 < a <= b
    ensures n / b <= n / a
  {
    assert n == n / a * a + n % a && n / a >= 0 by {
      MulMono(n / a, -1, a);
    }
    assert a * (n / a + 1) == n / a * a + a;
    QuotientAtMost(n, b, a, n / a);
  }

  /** A larger argument has a smaller reciprocal, up to one unit of rounding. */
  lemma ReciprocalFalls(a: int, b: int)
    requires 5 <= a < b < TWO_31
    ensures Reciprocal(b) <= Reciprocal(a) + 1
  {
    ReciprocalBounds(a);
    ReciprocalBounds(b);
    QuotientFalls(FP_1 * FP_1, a, b);
  }

  /** The scales of the three end points add up to that of the white point; blue takes what is left. */
  function BlueScale(white: int, redInverse: int, greenInverse: int): int {
    Reciprocal(white) - Reciprocal(redInverse) - Reciprocal(greenInverse)
  }

  lemma BlueScaleFits(white: int, redInverse: int, greenInverse: int)
    requires 5 <= white < redInverse < TWO_31 && white < greenInverse < TWO_31
    ensures IsInt32(Reciprocal(white) - Reciprocal(redInverse))
    ensures -TWO_31 <= BlueScale(white, redInverse, greenInverse) <= 2_000_000_000
  {
    ReciprocalBounds(white);
    ReciprocalBounds(redInverse);
    ReciprocalBounds(greenInverse);
    ReciprocalFalls(white, redInverse);
  }

  lemma GreenFits(c: Xy)
    requires Plausible(c)
    ensures IsInt32(GreenNumerator(c))
    ensures Abs(7 * GreenNumerator(c) - Det(c.bluex, c.bluey, c.whitex, c.whitey, c.redx, c.redy)) <= 8
  {
    Det7Fits(c.bluex, c.bluey, c.whitex, c.whitey, c.redx, c.redy);
    Commutes(c.redy - c.bluey, c.whitex - c.bluex);
    Commutes(c.redx - c.bluex, c.whitey - c.bluey);
  }

  /** The three scaled determinants fit in 32 bits and are those of Cramer's rule, to 8/7 units. */
  lemma NumeratorsFit(c: Xy)
    requires Plausible(c)
    ensures IsInt32(Denominator(c)) && IsInt32(RedNumerator(c)) && IsInt32(GreenNumerator(c))
    ensures Abs(7 * Denominator(c) - Det(c.bluex, c.bluey, c.greenx, c.greeny, c.redx, c.redy)) <= 8
    ensures Abs(7 * RedNumerator(c) - Det(c.bluex, c.bluey, c.greenx, c.greeny, c.whitex, c.whitey)) <= 8
    ensures Abs(7 * GreenNumerator(c) - Det(c.bluex, c.bluey, c.whitex, c.whitey, c.redx, c.redy)) <= 8
  {
    Det7Fits(c.bluex, c.bluey, c.greenx, c.greeny, c.redx, c.redy);
    Det7Fits(c.bluex, c.bluey, c.greenx, c.greeny, c.whitex, c.whitey);
    GreenFits(c);
  }

  lemma Commutes(a: int, b: int)
    ensures Outcome(a, b, 7) == Outcome(b, a, 7)
  {
    assert Abs(a) * Abs(b) == Abs(b) * Abs(a);
  }

  /** The six products over 7 that the function treats as an internal error when they overflow. */
  predicate ProductsFit(c: Xy) {
    && Succeeds(c.greenx - c.bluex, c.redy - c.bluey, 7) && Succeeds(c.greeny - c.bluey, c.redx - c.bluex, 7)
    && Succeeds(c.greenx - c.bluex, c.whitey - c.bluey, 7) && Succeeds(c.greeny - c.bluey, c.whitex - c.bluex, 7)
    && Succeeds(c.redy - c.bluey, c.whitex - c.bluex, 7) && Succeeds(c.redx - c.bluex, c.whitey - c.bluey, 7)
  }

  lemma ProductsAlwaysFit(c: Xy)
    requires Plausible(c)
    ensures ProductsFit(c)
  {
    SmallSucceeds(c.greenx - c.bluex, c.redy - c.bluey);
    SmallSucceeds(c.greeny - c.bluey, c.redx - c.bluex);
    SmallSucceeds(c.greenx - c.bluex, c.whitey - c.bluey);
    SmallSucceeds(c.greeny - c.bluey, c.whitex - c.bluex);
    SmallSucceeds(c.redy - c.bluey, c.whitex - c.bluex);
    SmallSucceeds(c.redx - c.bluex, c.whitey - c.bluey);
  }

  lemma SmallSucceeds(a: int, b: int)
    requires -FP_1 <= a <= FP_1 && -FP_1 <= b <= FP_1
    ensures Succeeds(a, b, 7)
  {
    SmallProduct(a, b);
    RepresentableSucceeds(a, b, 7);
  }

  /** An inverse scale exists and exceeds the white y. */
  predicate HasInverse(white: int, denominator: int, numerator: int) {
    Succeeds(white, denominator, numerator) && Outcome(white, denominator, numerator) > white
  }

  function Inverse(white: int, denominator: int, numerator: int): int
    requires HasInverse(white, denominator, numerator)
  {
    Outcome(white, denominator, numerator)
  }

  /** When the function succeeds. */
  predicate Solvable(c: Xy) {
    && Plausible(c)
    && HasInverse(c.whitey, Denominator(c), RedNumerator(c)) && HasInverse(c.whitey, Denominator(c), GreenNumerator(c))
    && BlueScale(c.whitey, Inverse(c.whitey, Denominator(c), RedNumerator(c)),
                 Inverse(c.whitey, Denominator(c), GreenNumerator(c))) > 0
  }

  // ---- What success says about the colors --------------------------------------------------------------

  /** An inverse scale is the rounded quotient of magnitudes: denominator and numerator have the same sign. */
  lemma InverseIs(white: int, denominator: int, numerator: int)
    requires 5 <= white && HasInverse(white, denominator, numerator)
    ensures denominator != 0 && numerator != 0 && (denominator < 0 <==> numerator < 0)
    ensures && white * Abs(denominator) >= 0
            && Inverse(white, denominator, numerator) == Rounded(white * Abs(denominator), Abs(numerator))
  {
    MulMono(0, Abs(denominator), white);
    assert Abs(white) == white;
  }

  lemma RoundedUp(n: nat, d: nat)
    requires d > 0
    ensures Rounded(n, d) * d <= n + (d + 1) / 2
  {
    RoundingError(n, d);
  }

  /** The scale of an end point is at most that of the white point ... */
  lemma NumeratorBelow(white: int, d: nat, n: nat)
    requires 5 <= white && n > 0 && white * d >= 0 && Rounded(white * d, n) > white
    ensures n <= d && Rounded(white * d, n) * n <= (white + 1) * d
  {
    var q := Rounded(white * d, n);
    RoundedUp(white * d, n);
    MulMono(white + 1, q, n);
    assert (white + 1) * n == white * n + n;
    MulMono(d + 1, n, white);
    assert (d + 1) * white == white * d + white;
    assert (white + 1) * d == white * d + d;
  }

  /** ... and its reciprocal is at least the share of the white point that the numerator stands for. */
  lemma ShareBelow(inverse: int, n: nat, y: int)
    requires 5 <= inverse < TWO_31 && inverse * n <= y
    ensures FP_1 * FP_1 * n <= (Reciprocal(inverse) + 1) * y
  {
    var k, r := FP_1 * FP_1, Reciprocal(inverse);
    ReciprocalBounds(inverse);
    NextMultiple(k, inverse);
    Shares(k, r, k / inverse, inverse, n, y);
  }

  lemma NextMultiple(k: nat, d: nat)
    requires d > 0
    ensures k <= (k / d + 1) * d
  {
    assert k == k / d * d + k % d;
    assert (k / d + 1) * d == k / d * d + d;
  }

  lemma Shares(k: nat, r: nat, q: int, inverse: nat, n: nat, y: int)
    requires k <= (q + 1) * inverse && q <= r && inverse * n <= y
    ensures k * n <= (r + 1) * y
  {
    MulMono(q + 1, r + 1, inverse);
    MulMono(k, (r + 1) * inverse, n);
    MulMono(inverse * n, y, r + 1);
    assert (r + 1) * inverse * n == inverse * n * (r + 1);
  }

  /** The shares of red and green leave something for blue, up to an error of 4 in white y. */
  lemma SharesAdd(white: int, d: nat, red: nat, green: nat, rw: int, rr: int, rg: int)
    requires 5 <= white <= FP_1 && rw - rr - rg > 0
    requires rw <= FP_1 * FP_1 / white + 1
    requires FP_1 * FP_1 * red <= (rr + 1) * ((white + 1) * d) && FP_1 * FP_1 * green <= (rg + 1) * ((white + 1) * d)
    ensures white * (red + green) <= (white + 4) * d
  {
    var k, y := FP_1 * FP_1, (white + 1) * d;
    var q := k / white;
    assert y >= 0 by {
      MulMono(0, d, white + 1);
    }
    assert k * (red + green) <= (rr + rg + 2) * y by {
      assert (rr + 1) * y + (rg + 1) * y == (rr + rg + 2) * y;
    }
    MulMono(rr + rg + 2, q + 2, y);
    assert k * (red + green) <= (q + 2) * y;
    Scaled(white, d, red + green, q);
  }

  lemma Scaled(white: int, d: nat, n: nat, q: int)
    requires 5 <= white <= FP_1 && q == FP_1 * FP_1 / white && FP_1 * FP_1 * n <= (q + 2) * ((white + 1) * d)
    ensures white * n <= (white + 4) * d
  {
    var k, y := FP_1 * FP_1, (white + 1) * d;
    assert (q + 2) * white <= k + 2 * white by {
      assert q * white <= k;
      assert (q + 2) * white == q * white + 2 * white;
    }
    MulMono(0, d, white + 1);
    Chain(k * n, q + 2, y, white, k + 2 * white);
    Slack(k, white, d);
    assert k * n * white == k * (white * n);
    Cancel(k, white * n, (white + 4) * d);
  }

  lemma Chain(x: int, q: int, y: int, w: int, bound: int)
    requires x <= q * y && q * w <= bound && y >= 0 && w >= 0
    ensures x * w <= bound * y
  {
    MulMono(x, q * y, w);
    MulMono(q * w, bound, y);
    assert q * y * w == q * w * y;
  }

  lemma Slack(k: int, white: int, d: nat)
    requires k == FP_1 * FP_1 && 5 <= white <= FP_1
    ensures (k + 2 * white) * ((white + 1) * d) <= k * ((white + 4) * d)
  {
    var v := 2 * white * (white + 1);
    MulMono(white, FP_1, white + 1);
    assert v <= 3 * k;
    MulMono(v, 3 * k, d);
    assert (k + 2 * white) * ((white + 1) * d) == k * ((white + 1) * d) + v * d;
    assert (white + 4) * d == (white + 1) * d + 3 * d;
  }

  /**
   Success means that the white point lies inside the triangle of the three colors: the numerators
   of red and green have the sign of the denominator and do not exceed it, and they leave a
   numerator for blue that is not negative, up to an error of 4 in white y.  `NumeratorsFit` says
   how closely these are the determinants of the white point with two of the colors.
   */
  lemma SolvableInside(c: Xy)
    requires Solvable(c)
    ensures var d, r, g := Denominator(c), RedNumerator(c), GreenNumerator(c);
            && d != 0 && r != 0 && g != 0 && (d < 0 <==> r < 0) && (d < 0 <==> g < 0)
            && Abs(r) <= Abs(d) && Abs(g) <= Abs(d)
            && c.whitey * (Abs(r) + Abs(g)) <= (c.whitey + 4) * Abs(d)
  {
    hide Denominator, RedNumerator, GreenNumerator, Reciprocal, Succeeds, Outcome;
    var w, d, r, g := c.whitey, Denominator(c), RedNumerator(c), GreenNumerator(c);
    NumeratorsFit(c);
    InverseIs(w, d, r);
    InverseIs(w, d, g);
    NumeratorBelow(w, Abs(d), Abs(r));
    NumeratorBelow(w, Abs(d), Abs(g));
    InverseFits(w, d, r);
    InverseFits(w, d, g);
    ShareBelow(Inverse(w, d, r), Abs(r), (w + 1) * Abs(d));
    ShareBelow(Inverse(w, d, g), Abs(g), (w + 1) * Abs(d));
    ReciprocalBounds(w);
    SharesAdd(w, Abs(d), Abs(r), Abs(g), Reciprocal(w), Reciprocal(Inverse(w, d, r)), Reciprocal(Inverse(w, d, g)));
  }

  lemma InverseFits(white: int, denominator: int, numerator: int)
    requires HasInverse(white, denominator, numerator)
    ensures white < Inverse(white, denominator, numerator) < TWO_31
  {
  }

  /** `v` is `x` times `scale` over `unit`, to the nearest half unit rounded up, and not negative. */
  predicate Near(v: int, x: int, scale: int, unit: int) {
    v >= 0 && Abs(v * unit - x * scale) <= (unit + 1) / 2
  }

  predicate Scalable(x: int, scale: int, unit: int) {
    0 <= x <= FP_1 && 0 <= scale < TWO_31 - 1 && 6 <= unit < TWO_31 && (scale <= FP_1 || unit == FP_1)
  }

  lemma ScalesNear(x: int, scale: int, unit: int)
    requires Scalable(x, scale, unit)
    ensures Succeeds(x, scale, unit) && Near(Outcome(x, scale, unit), x, scale, unit)
  {
    assert x * scale < unit * (TWO_31 - 1) by {
      MulMono(x, FP_1, scale);
      MulMono(6, unit, TWO_31 - 1);
      if scale > FP_1 {
        MulMono(scale, TWO_31 - 2, FP_1);
      }
    }
    Accuracy(x, scale, unit);
    RepresentableSucceeds(x, scale, unit);
  }

  /** All nine components agree with the chromaticities and the three scales. */
  predicate Faithful(c: Xy, p: Xyz, r: int, g: int, b: int) {
    && Near(p.redX, c.redx, FP_1, r) && Near(p.redY, c.redy, FP_1, r) && Near(p.redZ, FP_1 - c.redx - c.redy, FP_1, r)
    && Near(p.greenX, c.greenx, FP_1, g) && Near(p.greenY, c.greeny, FP_1, g)
    && Near(p.greenZ, FP_1 - c.greenx - c.greeny, FP_1, g)
    && Near(p.blueX, c.bluex, b, FP_1) && Near(p.blueY, c.bluey, b, FP_1)
    && Near(p.blueZ, FP_1 - c.bluex - c.bluey, b, FP_1)
  }
}
