/**
 png_XYZ_from_xy of external/libpng/png.c, step by step: every difference and every product of the
 code, proved to stay inside 32 bits, and the end points that they lead to.
 */
module EndPoints {
  import opened FixedMath
  import opened Chromaticity
  import opened WhitePoint

  /** The inverse scale of one end point. */
  method InverseScale(white: int, denominator: int, numerator: int) returns (ok: bool, inverse: int)
    requires IsInt32(white) && IsInt32(denominator) && IsInt32(numerator)
    ensures ok <==> HasInverse(white, denominator, numerator)
    ensures ok ==> inverse == Inverse(white, denominator, numerator) && white < inverse < TWO_31
  {
    ok, inverse := MulDiv(white, denominator, numerator);
    ok := ok && inverse > white;
  }

  /** The blue scale, with both subtractions inside 32 bits. */
  method BlueScaleOf(white: int, redInverse: int, greenInverse: int) returns (b: int)
    requires 5 <= white < redInverse < TWO_31 && white < greenInverse < TWO_31
    ensures b == BlueScale(white, redInverse, greenInverse) <= 2_000_000_000
  {
    BlueScaleFits(white, redInverse, greenInverse);
    var w := ComputeReciprocal(white);
    var r := ComputeReciprocal(redInverse);
    var g := ComputeReciprocal(greenInverse);
    assert IsInt32(w - r) && IsInt32(w - r - g);
    b := w - r - g;
  }

  /** One scaled determinant: two products over 7 and their difference, which stays in 32 bits. */
  method ScaledDifference(a: int, b: int, p: int, q: int) returns (ok: bool, difference: int)
    requires -FP_1 <= a <= FP_1 && -FP_1 <= b <= FP_1 && -FP_1 <= p <= FP_1 && -FP_1 <= q <= FP_1
    requires IsInt32(Outcome(a, b, 7) - Outcome(p, q, 7))
    ensures ok <==> Succeeds(a, b, 7) && Succeeds(p, q, 7)
    ensures ok ==> difference == Outcome(a, b, 7) - Outcome(p, q, 7) && IsInt32(difference)
  {
    difference := 0;
    var left, right;
    ok, left := MulDiv(a, b, 7);
    if !ok {
      return;
    }
    ok, right := MulDiv(p, q, 7);
    if !ok {
      return;
    }
    difference := left - right;
  }

  method DenominatorOf(c: Xy) returns (ok: bool, d: int)
    requires Plausible(c)
    ensures !ok ==> !ProductsFit(c)
    ensures ok ==> d == Denominator(c) && IsInt32(d)
  {
    Det7Fits(c.bluex, c.bluey, c.greenx, c.greeny, c.redx, c.redy);
    ok, d := ScaledDifference(c.greenx - c.bluex, c.redy - c.bluey, c.greeny - c.bluey, c.redx - c.bluex);
  }

  method RedNumeratorOf(c: Xy) returns (ok: bool, n: int)
    requires Plausible(c)
    ensures !ok ==> !ProductsFit(c)
    ensures ok ==> n == RedNumerator(c) && IsInt32(n)
  {
    Det7Fits(c.bluex, c.bluey, c.greenx, c.greeny, c.whitex, c.whitey);
    ok, n := ScaledDifference(c.greenx - c.bluex, c.whitey - c.bluey, c.greeny - c.bluey, c.whitex - c.bluex);
  }

  method GreenNumeratorOf(c: Xy) returns (ok: bool, n: int)
    requires Plausible(c)
    ensures !ok ==> !ProductsFit(c)
    ensures ok ==> n == GreenNumerator(c) && IsInt32(n)
  {
    GreenFits(c);
    ok, n := ScaledDifference(c.redy - c.bluey, c.whitex - c.bluex, c.redx - c.bluex, c.whitey - c.bluey);
  }

  /** png_XYZ_from_xy up to the three scales; 2 is the code of an internal error. */
  method Scales(c: Xy) returns (code: int, redInverse: int, greenInverse: int, blueScale: int)
    requires Plausible(c)
    ensures code == 0 || code == 1 || (code == 2 && !ProductsFit(c))
    ensures code == 0 ==> Solvable(c)
    ensures code == 1 ==> !Solvable(c)
    ensures code == 0 ==>
              && redInverse == Inverse(c.whitey, Denominator(c), RedNumerator(c)) < TWO_31
              && greenInverse == Inverse(c.whitey, Denominator(c), GreenNumerator(c)) < TWO_31
              && 0 < blueScale == BlueScale(c.whitey, redInverse, greenInverse) <= 2_000_000_000
  {
    code, redInverse, greenInverse, blueScale := 2, 0, 0, 0;
    var ok, denominator := DenominatorOf(c);
    if !ok {
      return;
    }
    var numerator;
    ok, numerator := RedNumeratorOf(c);
    if !ok {
      return;
    }
    ok, redInverse := InverseScale(c.whitey, denominator, numerator);
    if !ok {
      code := 1;
      return;
    }
    ok, numerator := GreenNumeratorOf(c);
    if !ok {
      return;
    }
    ok, greenInverse := InverseScale(c.whitey, denominator, numerator);
    if !ok {
      code := 1;
      return;
    }
    blueScale := BlueScaleOf(c.whitey, redInverse, greenInverse);
    code := if blueScale <= 0 then 1 else 0;
  }

  /** The three components of one end point. */
  method EndPoint(x: int, y: int, scale: int, unit: int) returns (ok: bool, X: int, Y: int, Z: int)
    requires InTriangle(x, y) && Scalable(FP_1, scale, unit)
    ensures ok && Near(X, x, scale, unit) && Near(Y, y, scale, unit) && Near(Z, FP_1 - x - y, scale, unit)
  {
    var okX, okY, okZ;
    okX, X := MulDiv(x, scale, unit);
    okY, Y := MulDiv(y, scale, unit);
    okZ, Z := MulDiv(FP_1 - x - y, scale, unit);
    ok := okX && okY && okZ;
    ScalesNear(x, scale, unit);
    ScalesNear(y, scale, unit);
    ScalesNear(FP_1 - x - y, scale, unit);
  }

  /** The nine components, given the three scales. */
  method Assemble(c: Xy, redInverse: int, greenInverse: int, blueScale: int) returns (res: Result)
    requires Plausible(c) && c.whitey < redInverse < TWO_31 && c.whitey < greenInverse < TWO_31
    requires 0 < blueScale <= 2_000_000_000
    ensures res.Success? && Faithful(c, res.xyz, redInverse, greenInverse, blueScale)
  {
    var okR, rX, rY, rZ := EndPoint(c.redx, c.redy, FP_1, redInverse);
    var okG, gX, gY, gZ := EndPoint(c.greenx, c.greeny, FP_1, greenInverse);
    var okB, bX, bY, bZ := EndPoint(c.bluex, c.bluey, blueScale, FP_1);
    res := if okR && okG && okB then Success(Xyz(rX, rY, rZ, gX, gY, gZ, bX, bY, bZ)) else Invalid;
  }

  /** The answer, exactly when the scales exist. */
  method Solve(c: Xy) returns (res: Result)
    ensures res != InternalError
    ensures res.Success? <==> Solvable(c)
    ensures res.Success? ==>
              var r := Inverse(c.whitey, Denominator(c), RedNumerator(c));
              var g := Inverse(c.whitey, Denominator(c), GreenNumerator(c));
              Faithful(c, res.xyz, r, g, BlueScale(c.whitey, r, g))
  {
    if !Plausible(c) {
      return Invalid;
    }
    ProductsAlwaysFit(c);
    var code, redInverse, greenInverse, blueScale := Scales(c);
    if code != 0 {
      return if code == 2 then InternalError else Invalid;
    }
    res := Assemble(c, redInverse, greenInverse, blueScale);
  }

  /**
   png_XYZ_from_xy: never an internal error; success if the white point lies well inside the triangle of
   the colors, and then nine components that agree with the colors and add up to the white point.
   */
  method XyzFromXy(c: Xy) returns (res: Result)
    ensures res != InternalError
    ensures Inside(c) ==> res.Success?
    ensures res.Success? ==> NotOutside(c) && AddsUp(c, res.xyz)
    ensures res.Success? <==> Solvable(c)
    ensures res.Success? ==>
              var r := Inverse(c.whitey, Denominator(c), RedNumerator(c));
              var g := Inverse(c.whitey, Denominator(c), GreenNumerator(c));
              Faithful(c, res.xyz, r, g, BlueScale(c.whitey, r, g))
  {
    hide Inside, NotOutside, AddsUp, Faithful, Denominator, RedNumerator, GreenNumerator, BlueScale;
    res := Solve(c);
    InsideSucceeds(c);
    if res.Success? {
      SolvableNotOutside(c);
      EndPointsAddUp(c, res.xyz);
    }
  }
}
