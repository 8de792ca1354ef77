/**
 What png_XYZ_from_xy of external/libpng/png.c computes, in terms of the chromaticities.

 The white point has a share of each color: the determinants of the white point with two of the
 colors, over that of the three colors.  `InsideSolvable` says that the function succeeds if the
 shares have the right sign, are not too small for their inverses, and leave more than 4 in white y
 for blue; `SolvableNotOutside` says that it fails if the white point lies outside the triangle by
 more than rounding can hide, which is 4 in white y too.  `EndPointsAddUp` says that the three end
 points then add up to the white point, scaled to Y = 1, within a stated error.
 */
module WhitePoint {
  import opened FixedMath
  import opened Chromaticity

  /** 1.0 in fixed point, squared. */
  const UNIT: int := 10_000_000_000

  // ---- The shares -----------------------------------------------------------------------------------

  function Whole(c: Xy): int {
    Det(c.bluex, c.bluey, c.greenx, c.greeny, c.redx, c.redy)
  }

  function RedShare(c: Xy): int {
    Det(c.bluex, c.bluey, c.greenx, c.greeny, c.whitex, c.whitey)
  }

  function GreenShare(c: Xy): int {
    Det(c.bluex, c.bluey, c.whitex, c.whitey, c.redx, c.redy)
  }

  predicate SameSign(x: int, y: int) {
    (x > 0 && y > 0) || (x < 0 && y < 0)
  }

  /** The share has the sign of the whole and is large enough for its inverse to fit into 32 bits. */
  predicate Invertible(white: int, whole: int, share: int) {
    SameSign(whole, share) && Abs(share) > 8 && white * (Abs(whole) + 8) < (Abs(share) - 8) * 0x7fff_ffff
  }

  /** The white point lies inside the triangle of the colors, with some distance from its sides. */
  predicate Inside(c: Xy) {
    && Plausible(c)
    && Invertible(c.whitey, Whole(c), RedShare(c)) && Invertible(c.whitey, Whole(c), GreenShare(c))
    && c.whitey * (Abs(RedShare(c)) + Abs(GreenShare(c)) + 16) <= (c.whitey - 4) * (Abs(Whole(c)) - 8)
  }

  // ---- Enough for success ---------------------------------------------------------------------------

  /** A seventh of a number has its sign, and its size to 8/7. */
  lemma Seventh(x: int, y: int)
    requires Abs(7 * y - x) <= 8 && Abs(x) > 8
    ensures SameSign(x, y) && Abs(x) - 8 <= 7 * Abs(y) <= Abs(x) + 8
  {
  }

  lemma RoundedAbove(n: nat, m: nat, white: int)
    requires m > 0 && (white + 1) * m <= n
    ensures Rounded(n, m) > white
  {
    assert n == n / m * m + n % m;
    assert n < (n / m + 1) * m by {
      assert (n / m + 1) * m == n / m * m + m;
    }
    MulMono(n / m + 1, white + 1, m);
  }

  lemma InverseExists(white: int, d: int, r: int)
    requires 5 <= white <= FP_1 && IsInt32(d) && IsInt32(r) && SameSign(d, r)
    requires white * Abs(d) < Abs(r) * (TWO_31 - 1) && (white + 1) * Abs(r) <= white * Abs(d)
    ensures HasInverse(white, d, r)
    ensures white * Abs(d) >= 0 && Inverse(white, d, r) == Rounded(white * Abs(d), Abs(r))
  {
    hide Outcome, Succeeds, Rounded;
    MulMono(0, Abs(d), white);
    assert Abs(white) == white;
    RepresentableSucceeds(white, d, r);
    RoundedAbove(white * Abs(d), Abs(r), white);
  }

  /** The sum of the reciprocals of two inverse scales, less 2, is at most the shares allow. */
  lemma ReciprocalShare(white: int, d: int, r: int, rho: int, a: int)
    requires 5 <= white && 0 < r <= d && a >= 0 && a * rho <= UNIT && 2 * (rho * r) >= 2 * (white * d) - r
    ensures a * ((2 * white - 1) * d) <= 2 * (UNIT * r)
  {
    assert (2 * white - 1) * d <= 2 * (white * d) - r;
    assert (2 * white - 1) * d <= 2 * (rho * r);
    MulMono((2 * white - 1) * d, 2 * (rho * r), a);
    MulMono(a * rho, UNIT, r);
    assert 2 * (rho * r) * a == 2 * (a * rho * r);
  }

  lemma LeavesBlue(white: int, d: int, r: int, g: int, a: int, b: int, rw: int)
    requires 5 <= white <= FP_1 && 0 < d && a >= 0 && b >= 0 && (rw + 1) * white > UNIT
    requires a * ((2 * white - 1) * d) <= 2 * (UNIT * r) && b * ((2 * white - 1) * d) <= 2 * (UNIT * g)
    requires white * (r + g) <= (white - 4) * d
    ensures a + b + 2 < rw
  {
    var s := a + b;
    assert s * (2 * white - 1) * d <= 2 * UNIT * (r + g) by {
      assert s * (2 * white - 1) * d == a * ((2 * white - 1) * d) + b * ((2 * white - 1) * d);
    }
    LeavesMore(white, d, r + g, s);
    NotBelow(white, s, rw);
  }

  lemma LeavesMore(white: int, d: int, n: int, s: int)
    requires 5 <= white && 0 < d && s * (2 * white - 1) * d <= 2 * UNIT * n && white * n <= (white - 4) * d
    ensures s * (2 * white - 1) * white <= 2 * UNIT * (white - 4)
  {
    var x := s * (2 * white - 1);
    MulMono(x * d, 2 * UNIT * n, white);
    MulMono(white * n, (white - 4) * d, 2 * UNIT);
    assert x * d * white == d * (x * white) && 2 * UNIT * n * white == white * n * (2 * UNIT);
    assert (white - 4) * d * (2 * UNIT) == d * (2 * UNIT * (white - 4));
    Cancel(d, x * white, 2 * UNIT * (white - 4));
  }

  lemma NotBelow(white: int, s: int, rw: int)
    requires 5 <= white <= FP_1 && s >= 0 && (rw + 1) * white > UNIT
    requires s * (2 * white - 1) * white <= 2 * UNIT * (white - 4)
    ensures s + 2 < rw
  {
    if s + 2 >= rw {
      MulMono(rw + 1, s + 3, white);
      assert s * white > UNIT - 3 * white by {
        assert (s + 3) * white == s * white + 3 * white;
      }
      MulMono(UNIT - 3 * white, s * white, 2 * white - 1);
      assert s * (2 * white - 1) * white == s * white * (2 * white - 1);
      MulMono(white, FP_1, white);
      MulMono(white, FP_1, FP_1);
    }
  }

  /** What the inverse scale of a share says, and its reciprocal. */
  lemma ShareInverse(white: int, whole: int, share: int, d: int, r: int)
    requires 5 <= white <= FP_1 && Invertible(white, whole, share) && Abs(whole) > 8 && IsInt32(d) && IsInt32(r)
    requires Abs(7 * d - whole) <= 8 && Abs(7 * r - share) <= 8
    requires white * Abs(r) <= (white - 4) * Abs(d)
    ensures SameSign(d, r) && HasInverse(white, d, r)
    ensures white * Abs(d) >= 0 && Inverse(white, d, r) == Rounded(white * Abs(d), Abs(r))
  {
    Seventh(whole, d);
    Seventh(share, r);
    FitsSeventh(white, Abs(whole), Abs(share), Abs(d), Abs(r));
    Smaller(white, Abs(d), Abs(r));
    InverseExists(white, d, r);
  }

  lemma FitsSeventh(white: int, whole: int, share: int, d: int, r: int)
    requires 5 <= white && white * (whole + 8) < (share - 8) * 0x7fff_ffff && 7 * d <= whole + 8 && share - 8 <= 7 * r
    ensures white * d < r * (TWO_31 - 1)
  {
    MulMono(7 * d, whole + 8, white);
  }

  lemma Smaller(white: int, d: int, r: int)
    requires 5 <= white && 0 <= d && white * r <= (white - 4) * d
    ensures r <= d && (white + 1) * r <= white * d
  {
    MulMono(d + 1, r, white);
    assert (white - 4) * d == white * d - 4 * d;
    assert (white + 1) * r == white * r + r;
  }

  /** The reciprocal of the inverse scale of a share, less 1. */
  lemma ShareReciprocal(white: int, d: int, r: int, rho: int)
    requires 5 <= white < rho < TWO_31 && 0 < r <= d && white * d >= 0 && rho == Rounded(white * d, r)
    ensures Reciprocal(rho) >= 1 && (Reciprocal(rho) - 1) * ((2 * white - 1) * d) <= 2 * (UNIT * r)
  {
    RoundingError(white * d, r);
    ReciprocalBounds(rho);
    var a := Reciprocal(rho) - 1;
    assert a * rho <= UNIT by {
      MulMono(a, UNIT / rho, rho);
      assert UNIT / rho * rho <= UNIT;
    }
    if a >= 0 {
      ReciprocalShare(white, d, r, rho, a);
    }
  }

  lemma WhiteReciprocal(white: int)
    requires 5 <= white < TWO_31
    ensures (Reciprocal(white) + 1) * white > UNIT
  {
    hide Reciprocal;
    ReciprocalBounds(white);
    assert (UNIT / white + 1) * white > UNIT by {
      assert UNIT == UNIT / white * white + UNIT % white;
      assert (UNIT / white + 1) * white == UNIT / white * white + white;
    }
    MulMono(UNIT / white + 1, Reciprocal(white) + 1, white);
  }

  /** Both shares together leave blue something, on the scaled determinants too. */
  lemma ScaledMargin(white: int, whole: int, red: int, green: int, d: int, r: int, g: int)
    requires 5 <= white && white * (red + green + 16) <= (white - 4) * (whole - 8)
    requires whole - 8 <= 7 * d && 7 * r <= red + 8 && 7 * g <= green + 8 && 0 <= r && 0 <= g
    ensures white * (r + g) <= (white - 4) * d && white * r <= (white - 4) * d && white * g <= (white - 4) * d
  {
    MulMono(7 * (r + g), red + green + 16, white);
    MulMono(whole - 8, 7 * d, white - 4);
    assert 7 * (white * (r + g)) <= 7 * ((white - 4) * d);
    MulMono(0, r, white);
    MulMono(0, g, white);
    assert white * (r + g) == white * r + white * g;
  }

  /** The whole is not small if it has room for two shares. */
  lemma WholeLarge(white: int, whole: int, red: int, green: int)
    requires 5 <= white && red > 8 && green > 8 && white * (red + green + 16) <= (white - 4) * (whole - 8)
    ensures whole > 8
  {
    MulMono(0, red + green + 16, white);
    if whole <= 8 {
      MulMono(whole - 8, 0, white - 4);
    }
  }

  lemma BlueLeft(white: int, d: int, r: int, g: int, rho: int, gamma: int)
    requires 5 <= white <= FP_1 && white < rho < TWO_31 && white < gamma < TWO_31 && white * d >= 0
    requires 0 < r <= d && rho == Rounded(white * d, r) && 0 < g <= d && gamma == Rounded(white * d, g)
    requires white * (r + g) <= (white - 4) * d
    ensures BlueScale(white, rho, gamma) > 0
  {
    hide Reciprocal, Rounded;
    ShareReciprocal(white, d, r, rho);
    ShareReciprocal(white, d, g, gamma);
    WhiteReciprocal(white);
    LeavesBlue(white, d, r, g, Reciprocal(rho) - 1, Reciprocal(gamma) - 1, Reciprocal(white));
  }

  /** The same on numbers: `d`, `r` and `g` are the sevenths of the whole and of the shares. */
  lemma InsideScales(white: int, whole: int, red: int, green: int, d: int, r: int, g: int)
    requires 5 <= white <= FP_1 && IsInt32(d) && IsInt32(r) && IsInt32(g)
    requires Abs(7 * d - whole) <= 8 && Abs(7 * r - red) <= 8 && Abs(7 * g - green) <= 8
    requires Invertible(white, whole, red) && Invertible(white, whole, green)
    requires white * (Abs(red) + Abs(green) + 16) <= (white - 4) * (Abs(whole) - 8)
    ensures HasInverse(white, d, r) && HasInverse(white, d, g)
    ensures BlueScale(white, Inverse(white, d, r), Inverse(white, d, g)) > 0
  {
    hide Invertible, HasInverse, Inverse, BlueScale, Rounded;
    ShareLarge(white, whole, red);
    ShareLarge(white, whole, green);
    WholeLarge(white, Abs(whole), Abs(red), Abs(green));
    Seventh(whole, d);
    Seventh(red, r);
    Seventh(green, g);
    ScaledMargin(white, Abs(whole), Abs(red), Abs(green), Abs(d), Abs(r), Abs(g));
    ShareInverse(white, whole, red, d, r);
    ShareInverse(white, whole, green, d, g);
    Smaller(white, Abs(d), Abs(r));
    Smaller(white, Abs(d), Abs(g));
    InverseFits(white, d, r);
    InverseFits(white, d, g);
    MulMono(0, Abs(d), white);
    BlueLeft(white, Abs(d), Abs(r), Abs(g), Inverse(white, d, r), Inverse(white, d, g));
  }

  lemma ShareLarge(white: int, whole: int, share: int)
    requires Invertible(white, whole, share)
    ensures Abs(share) > 8
  {
  }

  /** The function succeeds if the white point lies inside the triangle with that much distance from its sides. */
  lemma InsideSolvable(c: Xy)
    requires Inside(c)
    ensures Solvable(c)
  {
    hide Det, Denominator, RedNumerator, GreenNumerator, Invertible, HasInverse, Inverse, BlueScale;
    NumeratorsFit(c);
    InsideScales(c.whitey, Whole(c), RedShare(c), GreenShare(c), Denominator(c), RedNumerator(c), GreenNumerator(c));
  }

  lemma InsideSucceeds(c: Xy)
    ensures Inside(c) ==> Solvable(c)
  {
    hide Inside, Solvable;
    if Inside(c) {
      InsideSolvable(c);
    }
  }

  /** The sRGB chromaticities are well inside. */
  lemma SrgbInside()
    ensures Inside(Xy(64000, 33000, 30000, 60000, 15000, 6000, 31270, 32900))
  {
  }

  /** The white point does not lie outside the triangle of the colors by more than rounding can hide. */
  predicate NotOutside(c: Xy) {
    && Plausible(c)
    && (Abs(Whole(c)) > 8 && Abs(RedShare(c)) > 8 ==> SameSign(Whole(c), RedShare(c)))
    && (Abs(Whole(c)) > 8 && Abs(GreenShare(c)) > 8 ==> SameSign(Whole(c), GreenShare(c)))
    && c.whitey * (Abs(RedShare(c)) + Abs(GreenShare(c)) - 16) <= (c.whitey + 4) * (Abs(Whole(c)) + 8)
  }

  lemma ScaledExcess(white: int, whole: int, red: int, green: int, d: int, r: int, g: int)
    requires 5 <= white && white * (r + g) <= (white + 4) * d
    requires 7 * d <= whole + 8 && red - 8 <= 7 * r && green - 8 <= 7 * g
    ensures white * (red + green - 16) <= (white + 4) * (whole + 8)
  {
    MulMono(red + green - 16, 7 * (r + g), white);
    MulMono(7 * d, whole + 8, white + 4);
  }

  /** The function fails if the white point lies outside by more than that. */
  lemma SolvableNotOutside(c: Xy)
    requires Solvable(c)
    ensures NotOutside(c)
  {
    hide Det, Denominator, RedNumerator, GreenNumerator, HasInverse, Inverse, BlueScale;
    var d, r, g := Denominator(c), RedNumerator(c), GreenNumerator(c);
    NumeratorsFit(c);
    SolvableInside(c);
    ScaledExcess(c.whitey, Abs(Whole(c)), Abs(RedShare(c)), Abs(GreenShare(c)), Abs(d), Abs(r), Abs(g));
  }

  // ---- The end points add up to the white point --------------------------------------------------------

  lemma AbsProduct(a: int, b: int, x: int, y: int)
    requires Abs(a) <= x && Abs(b) <= y
    ensures Abs(a * b) <= x * y
  {
    MulSigned(a, b);
    MulMono(Abs(a), x, Abs(b));
    MulMono(Abs(b), y, x);
  }

  lemma CancelAbs(t: int, m: int, bound: int)
    requires m > 0 && Abs(t * m) <= bound * m
    ensures Abs(t) <= bound
  {
    if t > bound {
      MulMono(bound + 1, t, m);
    }
    if -t > bound {
      MulMono(bound + 1, -t, m);
    }
  }

  lemma PartIdentity(v: int, x: int, rr: int, rho: int)
    ensures (FP_1 * v - x * rr) * rho == FP_1 * (v * rho - x * FP_1) - x * (rr * rho - UNIT)
  {
    assert x * (rr * rho) == x * rr * rho;
  }

  /** A component that was divided by the inverse scale is the coordinate times the scale, to two units. */
  lemma PartNear(v: int, x: int, rr: int, rho: int)
    requires rho >= 1 && 0 <= x <= FP_1
    requires Abs(v * rho - x * FP_1) <= (rho + 1) / 2 && Abs(rr * rho - UNIT) <= (rho + 1) / 2
    ensures Abs(FP_1 * v - x * rr) <= 2 * FP_1
  {
    PartIdentity(v, x, rr, rho);
    AbsProduct(x, rr * rho - UNIT, FP_1, (rho + 1) / 2);
    PartBound(FP_1 * v - x * rr, v * rho - x * FP_1, x * (rr * rho - UNIT), rho);
  }

  lemma PartBound(s: int, e: int, f: int, rho: int)
    requires rho >= 1 && s * rho == FP_1 * e - f && Abs(e) <= (rho + 1) / 2 && Abs(f) <= FP_1 * ((rho + 1) / 2)
    ensures Abs(s) <= 2 * FP_1
  {
    CancelAbs(s, rho, 2 * FP_1);
  }

  lemma FirstError(white: int, d: int, r: int, rho: int, x: int)
    requires 5 <= white && 0 < r <= d && rho >= 1 && Abs(rho * r - white * d) <= (r + 1) / 2
    requires x <= (rho + 1) / 2 * r
    ensures x <= (white + 1) * d
  {
    MulMono((rho + 1) / 2, rho, r);
    assert (white + 1) * d == white * d + d;
  }

  lemma SecondError(white: int, d: int, r: int, rr: int, rw: int, x: int)
    requires 5 <= white && 0 < r <= d && 0 <= rr <= rw + 1 && rw * white <= UNIT + white && x <= rr * ((r + 1) / 2)
    ensures white * x <= (UNIT + 2 * white) * d
  {
    var h := (r + 1) / 2;
    MulMono(h, d, rr);
    assert rr * h == h * rr && rr * d == d * rr;
    MulMono(x, d * rr, white);
    assert rr * white <= UNIT + 2 * white by {
      MulMono(rr, rw + 1, white);
      assert (rw + 1) * white == rw * white + white;
    }
    MulMono(rr * white, UNIT + 2 * white, d);
    assert d * rr * white == rr * white * d;
  }

  lemma BoundSum(white: int, d: int)
    requires 5 <= white <= FP_1 && d > 0
    ensures white * ((white + 1) * d) + (UNIT + 2 * white) * d <= 3 * UNIT * d
  {
    MulMono(white, FP_1, white);
    MulMono(white, FP_1, FP_1);
    assert white * ((white + 1) * d) == (white * white + white) * d;
    assert (white * white + white) * d + (UNIT + 2 * white) * d == (white * white + UNIT + 3 * white) * d;
    MulMono(white * white + UNIT + 3 * white, 3 * UNIT, d);
  }

  lemma ScaleIdentity(white: int, d: int, r: int, rho: int, rr: int)
    ensures rr * white * d - UNIT * r == (rr * rho - UNIT) * r - rr * (rho * r - white * d)
  {
    assert rr * (rho * r) == rr * rho * r && rr * (white * d) == rr * white * d;
  }

  lemma AddErrors(white: int, d: int, s: int, x: int, y: int)
    requires && 5 <= white <= FP_1 && d > 0 && Abs(s) <= x + y && x <= (white + 1) * d
             && white * y <= (UNIT + 2 * white) * d
    ensures white * Abs(s) <= 3 * UNIT * d
  {
    MulMono(Abs(s), x + y, white);
    MulMono(x, (white + 1) * d, white);
    BoundSum(white, d);
  }

  /** The scale of an end point is its share of the scale of the white point, as far as white y is accurate. */
  lemma ScaleNear(white: int, d: int, r: int, rho: int, rr: int, rw: int)
    requires 5 <= white <= FP_1 && 0 < r <= d && rho >= 1 && 0 <= rr <= rw + 1 && rw * white <= UNIT + white
    requires Abs(rho * r - white * d) <= (r + 1) / 2 && Abs(rr * rho - UNIT) <= (rho + 1) / 2
    ensures white * Abs(rr * white * d - UNIT * r) <= 3 * UNIT * d
  {
    var e, f := rr * rho - UNIT, rho * r - white * d;
    ScaleIdentity(white, d, r, rho, rr);
    AbsProduct(e, r, (rho + 1) / 2, r);
    AbsProduct(rr, f, rr, (r + 1) / 2);
    FirstError(white, d, r, rho, Abs(e * r));
    SecondError(white, d, r, rr, rw, Abs(rr * f));
    AddErrors(white, d, e * r - rr * f, Abs(e * r), Abs(rr * f));
  }

  /** One coordinate of the four points, from 0 to 1. */
  datatype Coordinate = Coordinate(red: int, green: int, blue: int, white: int)

  predicate IsCoordinate(x: Coordinate) {
    0 <= x.red <= FP_1 && 0 <= x.green <= FP_1 && 0 <= x.blue <= FP_1 && 0 <= x.white <= FP_1
  }

  /** What the scales make of a coordinate, in units of 1.0 squared. */
  function Combined(x: Coordinate, rr: int, rg: int, rw: int): int {
    (x.red - x.blue) * rr + (x.green - x.blue) * rg + x.blue * rw
  }

  /** How far Cramer's rule is off on the scaled determinants. */
  function CramerError(x: Coordinate, d: int, r: int, g: int): int {
    (x.red - x.blue) * r + (x.green - x.blue) * g - (x.white - x.blue) * d
  }

  lemma Distributed(p: int, q: int, b: int, white: int, d: int, rr: int, rg: int, rw: int)
    ensures (p * rr + q * rg + b * rw) * white * d == p * (rr * white * d) + q * (rg * white * d) + b * d * (rw * white)
  {
    Thrice(p, rr, white, d);
    Thrice(q, rg, white, d);
    Thrice(b, rw, white, d);
    assert b * (rw * white * d) == b * d * (rw * white);
  }

  lemma Thrice(p: int, x: int, y: int, z: int)
    ensures p * x * y * z == p * (x * y * z)
  {
  }

  lemma Expanded(x: Coordinate, white: int, d: int, r: int, g: int, rr: int, rg: int, rw: int)
    ensures Combined(x, rr, rg, rw) * white * d - UNIT * x.white * d
         == (x.red - x.blue) * (rr * white * d - UNIT * r) + (x.green - x.blue) * (rg * white * d - UNIT * g)
            + x.blue * d * (rw * white - UNIT) + UNIT * CramerError(x, d, r, g)
  {
    var p, q := x.red - x.blue, x.green - x.blue;
    Distributed(p, q, x.blue, white, d, rr, rg, rw);
    Gathered(p, q, x.blue, x.white, d, r, g, rr * white * d, rg * white * d, rw * white);
  }

  lemma Gathered(p: int, q: int, b: int, v: int, d: int, r: int, g: int, k: int, l: int, m: int)
    ensures p * k + q * l + b * d * m - UNIT * v * d
         == p * (k - UNIT * r) + q * (l - UNIT * g) + b * d * (m - UNIT) + UNIT * (p * r + q * g - (v - b) * d)
  {
    assert UNIT * (p * r + q * g - (v - b) * d) == p * (UNIT * r) + q * (UNIT * g) - UNIT * v * d + b * d * UNIT;
  }

  /**
   The error bounds, in terms of these three products: 1.0 squared times the determinant, white y
   squared times the determinant, and 1.0 squared times white y.
   */
  datatype Products = Products(unitDet: int, whiteDet: int, unitWhite: int)

  function ProductsOf(white: int, d: int): Products {
    Products(UNIT * d, white * white * d, UNIT * white)
  }

  /** A bound on seven times white y times the error of `Combined`. */
  function ErrorBound(m: Products): int {
    4_200_000 * m.unitDet + 700_000 * m.whiteDet + 2_400_000 * m.unitWhite
  }

  lemma ScaleError(white: int, d: int, x: int, e: int, p: int)
    requires 5 <= white && Abs(p) <= FP_1 && Abs(e) == x && white * x <= 3 * UNIT * d
    ensures white * Abs(p * e) <= 300_000 * (UNIT * d)
  {
    AbsProduct(p, e, 100_000, x);
    MulMono(Abs(p * e), 100_000 * x, white);
    assert white * (100_000 * x) == 100_000 * (white * x);
    assert 3 * UNIT * d == 3 * (UNIT * d);
  }

  lemma WhiteError(white: int, d: int, b: int, m: int)
    requires 5 <= white && d > 0 && 0 <= b <= FP_1 && Abs(m) <= white
    ensures white * Abs(b * d * m) <= 100_000 * (white * white * d)
  {
    MulMono(b, 100_000, d);
    MulMono(0, b, d);
    AbsProduct(b * d, m, 100_000 * d, white);
    MulMono(Abs(b * d * m), 100_000 * d * white, white);
    assert 100_000 * d * white * white == 100_000 * (white * white * d);
  }

  lemma DetError(white: int, n: int)
    requires 5 <= white && 7 * Abs(n) <= 24 * FP_1
    ensures 7 * (white * Abs(UNIT * n)) <= 2_400_000 * (UNIT * white)
  {
    MulSigned(UNIT, n);
    assert Abs(UNIT * n) == UNIT * Abs(n);
    MulMono(7 * Abs(n), 2_400_000, UNIT * white);
    assert white * (UNIT * Abs(n)) == Abs(n) * (UNIT * white);
    assert 7 * Abs(n) * (UNIT * white) == 7 * (Abs(n) * (UNIT * white));
  }

  lemma FourTimes(white: int, a: int, b: int, c: int, d: int)
    requires white >= 0
    ensures white * Abs(a + b + c + d) <= white * Abs(a) + white * Abs(b) + white * Abs(c) + white * Abs(d)
  {
    hide Abs;
    AbsSums(a, b, c, d);
    MulMono(Abs(a + b + c + d), Abs(a) + Abs(b) + Abs(c) + Abs(d), white);
    Multiplied(white, Abs(a), Abs(b), Abs(c), Abs(d));
  }

  lemma AbsSums(a: int, b: int, c: int, d: int)
    ensures Abs(a + b + c + d) <= Abs(a) + Abs(b) + Abs(c) + Abs(d)
  {
  }

  lemma Multiplied(w: int, a: int, b: int, c: int, d: int)
    ensures (a + b + c + d) * w == w * a + w * b + w * c + w * d
  {
  }

  /** The four errors of `Expanded`, each times white y. */
  lemma CombinedNear(x: Coordinate, white: int, d: int, r: int, g: int, rr: int, rg: int, rw: int)
    requires IsCoordinate(x) && 5 <= white <= FP_1 && d > 0
    requires && white * Abs(rr * white * d - UNIT * r) <= 3 * UNIT * d
             && white * Abs(rg * white * d - UNIT * g) <= 3 * UNIT * d
    requires Abs(rw * white - UNIT) <= white && 7 * Abs(CramerError(x, d, r, g)) <= 24 * FP_1
    ensures 7 * (white * Abs(Combined(x, rr, rg, rw) * white * d - UNIT * x.white * d))
         <= ErrorBound(ProductsOf(white, d))
  {
    hide Combined, CramerError;
    var e, f, m, n := rr * white * d - UNIT * r, rg * white * d - UNIT * g, rw * white - UNIT, CramerError(x, d, r, g);
    var p, q := x.red - x.blue, x.green - x.blue;
    Expanded(x, white, d, r, g, rr, rg, rw);
    ScaleError(white, d, Abs(e), e, p);
    ScaleError(white, d, Abs(f), f, q);
    WhiteError(white, d, x.blue, m);
    DetError(white, n);
    FourTimes(white, p * e, q * f, x.blue * d * m, UNIT * n);
  }

  /** The sum of three components, given how near each is. */
  lemma SumNear(x: Coordinate, rr: int, rg: int, rw: int, v1: int, v2: int, v3: int)
    requires Abs(FP_1 * v1 - x.red * rr) <= 2 * FP_1 && Abs(FP_1 * v2 - x.green * rg) <= 2 * FP_1
    requires Abs(FP_1 * v3 - x.blue * (rw - rr - rg)) <= FP_1
    ensures Abs(FP_1 * (v1 + v2 + v3) - Combined(x, rr, rg, rw)) <= 500_000
  {
    assert Combined(x, rr, rg, rw) == x.red * rr + x.green * rg + x.blue * (rw - rr - rg) by {
      assert (x.red - x.blue) * rr == x.red * rr - x.blue * rr;
      assert (x.green - x.blue) * rg == x.green * rg - x.blue * rg;
      assert x.blue * (rw - rr - rg) == x.blue * rw - x.blue * rr - x.blue * rg;
    }
    assert FP_1 * (v1 + v2 + v3) == FP_1 * v1 + FP_1 * v2 + FP_1 * v3;
  }

  lemma RoundingPart(white: int, d: int, e: int)
    requires 5 <= white && d > 0 && Abs(e) <= 500_000
    ensures white * Abs(e * white * d) <= 500_000 * (white * white * d)
  {
    MulMono(0, d, white);
    AbsProduct(e, white * d, 500_000, white * d);
    assert e * white * d == e * (white * d);
    MulMono(Abs(e * white * d), 500_000 * (white * d), white);
    assert 500_000 * (white * d) * white == 500_000 * (white * white * d);
  }

  lemma SumIdentity(v: int, white: int, d: int, s: int, c: int)
    ensures FP_1 * (d * (white * s - FP_1 * v)) == (FP_1 * s - c) * white * d + (c * white * d - UNIT * v * d)
  {
    assert (FP_1 * s - c) * white * d == FP_1 * s * white * d - c * white * d;
    assert FP_1 * (d * (white * s)) == FP_1 * s * white * d;
    assert FP_1 * (d * (FP_1 * v)) == UNIT * v * d;
  }

  /** From errors in units of 1.0 squared to errors of the components. */
  lemma SumsUp(white: int, d: int, y: int, e: int, t: int, m: Products)
    requires 5 <= white && d > 0 && FP_1 * (d * y) == e + t
    requires white * Abs(e) <= 500_000 * m.whiteDet && 7 * (white * Abs(t)) <= ErrorBound(m)
    ensures 7 * (white * (d * Abs(y))) <= 42 * (m.whiteDet + m.unitDet) + 24 * m.unitWhite
  {
    var z := white * (d * Abs(y));
    assert 100_000 * z == white * Abs(e + t) by {
      MulSigned(d, y);
      assert Abs(FP_1 * (d * y)) == 100_000 * (d * Abs(y));
      assert white * (100_000 * (d * Abs(y))) == 100_000 * (white * (d * Abs(y)));
    }
    MulMono(Abs(e + t), Abs(e) + Abs(t), white);
    assert white * (Abs(e) + Abs(t)) == white * Abs(e) + white * Abs(t);
  }

  lemma CramerNear(x: Coordinate, whole: int, red: int, green: int, d: int, r: int, g: int)
    requires IsCoordinate(x) && (x.red - x.blue) * red + (x.green - x.blue) * green == (x.white - x.blue) * whole
    requires Abs(7 * d - whole) <= 8 && Abs(7 * r - red) <= 8 && Abs(7 * g - green) <= 8
    ensures 7 * Abs(CramerError(x, d, r, g)) <= 24 * FP_1
  {
    var p, q, v := x.red - x.blue, x.green - x.blue, x.white - x.blue;
    assert 7 * CramerError(x, d, r, g) == p * (7 * r - red) + q * (7 * g - green) - v * (7 * d - whole) by {
      assert p * (7 * r - red) == 7 * (p * r) - p * red;
      assert q * (7 * g - green) == 7 * (q * g) - q * green;
      assert v * (7 * d - whole) == 7 * (v * d) - v * whole;
    }
    AbsProduct(p, 7 * r - red, FP_1, 8);
    AbsProduct(q, 7 * g - green, FP_1, 8);
    AbsProduct(v, 7 * d - whole, FP_1, 8);
  }

  lemma CramerSigned(x: Coordinate, d: int, r: int, g: int)
    requires SameSign(d, r) && SameSign(d, g)
    ensures Abs(CramerError(x, Abs(d), Abs(r), Abs(g))) == Abs(CramerError(x, d, r, g))
  {
    if d < 0 {
      assert (x.red - x.blue) * -r == -((x.red - x.blue) * r);
      assert (x.green - x.blue) * -g == -((x.green - x.blue) * g);
      assert (x.white - x.blue) * -d == -((x.white - x.blue) * d);
    }
  }

  /** `s` is the coordinate of the white point over white y; the error grows as white y or the whole shrink. */
  predicate WhiteWithin(s: int, x: int, white: int, d: int) {
    white * (d * Abs(white * s - FP_1 * x)) <= 6 * ((white * white + UNIT) * d) + 4 * (UNIT * white)
  }

  /** The inverse scale of an end point and its reciprocal, as the code rounds them. */
  predicate Scaling(white: int, d: int, r: int, rho: int, rr: int) {
    && 0 < r <= d && white < rho < TWO_31 && 0 <= rr <= Reciprocal(white) + 1
    && Abs(rho * r - white * d) <= (r + 1) / 2 && Abs(rr * rho - UNIT) <= (rho + 1) / 2
  }

  lemma ScalingIs(white: int, d: int, r: int, rho: int)
    requires 5 <= white < rho < TWO_31 && 0 < r <= d && white * d >= 0 && rho == Rounded(white * d, r)
    ensures Scaling(white, d, r, rho, Reciprocal(rho))
  {
    hide Reciprocal, Rounded;
    RoundingError(white * d, r);
    ReciprocalMeans(rho);
    ReciprocalBounds(rho);
    ReciprocalFalls(white, rho);
  }

  lemma WhiteScaling(white: int)
    requires 5 <= white < TWO_31
    ensures Abs(Reciprocal(white) * white - UNIT) <= white
  {
    hide Reciprocal;
    ReciprocalMeans(white);
  }

  /** One coordinate of the three end points adds up to that of the white point. */
  lemma CoordinateAdds(x: Coordinate, white: int, d: int, r: int, g: int, rho: int, gamma: int, v1: int, v2: int,
                       v3: int)
    requires IsCoordinate(x) && 5 <= white <= FP_1 && 7 * Abs(CramerError(x, d, r, g)) <= 24 * FP_1
    requires Scaling(white, d, r, rho, Reciprocal(rho)) && Scaling(white, d, g, gamma, Reciprocal(gamma))
    requires Near(v1, x.red, FP_1, rho) && Near(v2, x.green, FP_1, gamma)
    requires Near(v3, x.blue, BlueScale(white, rho, gamma), FP_1)
    ensures WhiteWithin(v1 + v2 + v3, x.white, white, d)
  {
    hide Reciprocal, Combined, CramerError;
    var rr, rg, rw, s := Reciprocal(rho), Reciprocal(gamma), Reciprocal(white), v1 + v2 + v3;
    WhiteScaling(white);
    ScaleNear(white, d, r, rho, rr, rw);
    ScaleNear(white, d, g, gamma, rg, rw);
    PartNear(v1, x.red, rr, rho);
    PartNear(v2, x.green, rg, gamma);
    SumNear(x, rr, rg, rw, v1, v2, v3);
    CombinedNear(x, white, d, r, g, rr, rg, rw);
    var c := Combined(x, rr, rg, rw);
    RoundingPart(white, d, FP_1 * s - c);
    SumIdentity(x.white, white, d, s, c);
    SumsUp(white, d, white * s - FP_1 * x.white, (FP_1 * s - c) * white * d, c * white * d - UNIT * x.white * d,
           ProductsOf(white, d));
    assert (white * white + UNIT) * d == white * white * d + UNIT * d;
  }

  /** The same error, in terms of the determinant of the three colors. */
  predicate WhiteNear(s: int, x: int, white: int, whole: int) {
    var m := Abs(whole) - 8;
    m > 0 ==> white * (m * Abs(white * s - FP_1 * x)) <= 6 * ((white * white + UNIT) * m) + 28 * (UNIT * white)
  }

  lemma Rescaled(y: int, d: int, m: int, k: int)
    requires d > 0 && 0 < m <= 7 * d && k >= 0 && y * d <= 4 * k
    ensures y * m <= 28 * k
  {
    if y >= 0 {
      MulMono(m, 7 * d, y);
      assert 7 * d * y == 7 * (y * d);
    } else {
      MulMono(y, 0, m);
    }
  }

  lemma TakenOut(white: int, m: int, e: int, b: int)
    ensures (white * e - 6 * b) * m == white * (m * e) - 6 * (b * m)
  {
    assert white * e * m == white * (m * e);
  }

  lemma FromScaled(s: int, x: int, white: int, d: int, whole: int)
    requires 5 <= white && 0 < d && Abs(whole) - 8 <= 7 * d && WhiteWithin(s, x, white, d)
    ensures WhiteNear(s, x, white, whole)
  {
    var m, e, b := Abs(whole) - 8, Abs(white * s - FP_1 * x), white * white + UNIT;
    TakenOut(white, d, e, b);
    TakenOut(white, m, e, b);
    if m > 0 {
      Rescaled(white * e - 6 * b, d, m, UNIT * white);
    }
  }

  function XOf(c: Xy): Coordinate {
    Coordinate(c.redx, c.greenx, c.bluex, c.whitex)
  }

  function YOf(c: Xy): Coordinate {
    Coordinate(c.redy, c.greeny, c.bluey, c.whitey)
  }

  function ZOf(c: Xy): Coordinate {
    Coordinate(FP_1 - c.redx - c.redy, FP_1 - c.greenx - c.greeny, FP_1 - c.bluex - c.bluey, FP_1 - c.whitex - c.whitey)
  }

  predicate Balanced(x: Coordinate, whole: int, red: int, green: int) {
    (x.red - x.blue) * red + (x.green - x.blue) * green == (x.white - x.blue) * whole
  }

  /** Cramer's rule holds of all three coordinates. */
  lemma AllBalanced(c: Xy)
    ensures Balanced(XOf(c), Whole(c), RedShare(c), GreenShare(c))
    ensures Balanced(YOf(c), Whole(c), RedShare(c), GreenShare(c))
    ensures Balanced(ZOf(c), Whole(c), RedShare(c), GreenShare(c))
  {
    hide Det;
    Cramer(c);
    var x, y, z := XOf(c), YOf(c), ZOf(c);
    var d, r, g := Whole(c), RedShare(c), GreenShare(c);
    assert (z.red - z.blue) * r == -((x.red - x.blue) * r) - (y.red - y.blue) * r;
    assert (z.green - z.blue) * g == -((x.green - x.blue) * g) - (y.green - y.blue) * g;
    assert (z.white - z.blue) * d == -((x.white - x.blue) * d) - (y.white - y.blue) * d;
  }

  /** The end points add up to the white point over white y: its own Y is then 1. */
  predicate AddsUp(c: Xy, p: Xyz) {
    && WhiteNear(p.redX + p.greenX + p.blueX, c.whitex, c.whitey, Whole(c))
    && WhiteNear(p.redY + p.greenY + p.blueY, c.whitey, c.whitey, Whole(c))
    && WhiteNear(p.redZ + p.greenZ + p.blueZ, FP_1 - c.whitex - c.whitey, c.whitey, Whole(c))
  }

  /** What is needed of the numbers that all three coordinates share. */
  predicate Scaled(white: int, whole: int, red: int, green: int, d: int, r: int, g: int, rho: int, gamma: int) {
    && 5 <= white <= FP_1 && SameSign(d, r) && SameSign(d, g)
    && Abs(7 * d - whole) <= 8 && Abs(7 * r - red) <= 8 && Abs(7 * g - green) <= 8
    && Scaling(white, Abs(d), Abs(r), rho, Reciprocal(rho)) && Scaling(white, Abs(d), Abs(g), gamma, Reciprocal(gamma))
  }

  lemma OneAdds(x: Coordinate, white: int, whole: int, red: int, green: int, d: int, r: int, g: int,
                rho: int, gamma: int, v1: int, v2: int, v3: int)
    requires IsCoordinate(x) && Balanced(x, whole, red, green)
    requires Scaled(white, whole, red, green, d, r, g, rho, gamma)
    requires Near(v1, x.red, FP_1, rho) && Near(v2, x.green, FP_1, gamma)
    requires Near(v3, x.blue, BlueScale(white, rho, gamma), FP_1)
    ensures WhiteNear(v1 + v2 + v3, x.white, white, whole)
  {
    hide Reciprocal, CramerError, Near, BlueScale, WhiteWithin, WhiteNear, Scaling;
    CramerNear(x, whole, red, green, d, r, g);
    CramerSigned(x, d, r, g);
    CoordinateAdds(x, white, Abs(d), Abs(r), Abs(g), rho, gamma, v1, v2, v3);
    FromScaled(v1 + v2 + v3, x.white, white, Abs(d), whole);
  }

  lemma SolvableScaled(c: Xy)
    requires Solvable(c)
    ensures var d, r, g := Denominator(c), RedNumerator(c), GreenNumerator(c);
            Scaled(c.whitey, Whole(c), RedShare(c), GreenShare(c), d, r, g,
                   Inverse(c.whitey, d, r), Inverse(c.whitey, d, g))
  {
    hide Denominator, RedNumerator, GreenNumerator, Reciprocal, Succeeds, Outcome, Rounded, Scaling, BlueScale;
    var w, d, r, g := c.whitey, Denominator(c), RedNumerator(c), GreenNumerator(c);
    NumeratorsFit(c);
    SolvableInside(c);
    InverseIs(w, d, r);
    InverseIs(w, d, g);
    InverseFits(w, d, r);
    InverseFits(w, d, g);
    ScalingIs(w, Abs(d), Abs(r), Inverse(w, d, r));
    ScalingIs(w, Abs(d), Abs(g), Inverse(w, d, g));
  }

  lemma EndPointsAddUp(c: Xy, p: Xyz)
    requires Solvable(c)
    requires var r := Inverse(c.whitey, Denominator(c), RedNumerator(c));
             var g := Inverse(c.whitey, Denominator(c), GreenNumerator(c));
             Faithful(c, p, r, g, BlueScale(c.whitey, r, g))
    ensures AddsUp(c, p)
  {
    hide Denominator, RedNumerator, GreenNumerator, Whole, RedShare, GreenShare, Scaled, Balanced, Near, BlueScale,
         WhiteNear, Inverse, HasInverse;
    var w, d, r, g := c.whitey, Denominator(c), RedNumerator(c), GreenNumerator(c);
    var whole, red, green, rho, gamma := Whole(c), RedShare(c), GreenShare(c), Inverse(w, d, r), Inverse(w, d, g);
    SolvableScaled(c);
    AllBalanced(c);
    OneAdds(XOf(c), w, whole, red, green, d, r, g, rho, gamma, p.redX, p.greenX, p.blueX);
    OneAdds(YOf(c), w, whole, red, green, d, r, g, rho, gamma, p.redY, p.greenY, p.blueY);
    OneAdds(ZOf(c), w, whole, red, green, d, r, g, rho, gamma, p.redZ, p.greenZ, p.blueZ);
  }
}
