/**
 The integer branch of png_muldiv in external/libpng/png.c: a * times / divisor on 32-bit words.

 `MulDiv` follows the code word by word: a 32-by-32-bit product split over two words, then a
 shift-and-subtract division.  `Succeeds` and `Outcome` say, over unbounded integers, exactly when
 it reports success and with which value.  Signed overflow is read as two's complement wrap-around.
 */
module FixedMath {
  import opened Bytes

  const TWO_16: int := 0x1_0000
  const TWO_31: int := 0x8000_0000

  predicate IsInt32(x: int) {
    -TWO_31 <= x < TWO_31
  }

  function ToInt32(x: int): (r: int)
    ensures IsInt32(r)
    ensures IsInt32(x) ==> r == x
  {
    var u := x % TWO_32;
    if u < TWO_31 then u else u - TWO_32
  }

  function Abs(x: int): nat {
    if x < 0 then -x else x
  }

  function Pow2(n: nat): (p: nat)
    ensures p > 0
  {
    if n == 0 then 1 else 2 * Pow2(n - 1)
  }

  // ---- What the function computes ---------------------------------------------------------------

  predicate Negative(a: int, times: int, divisor: int) {
    ((a < 0) != (times < 0)) != (divisor < 0)
  }

  /** The code's rounding rule: up as soon as the remainder reaches half the divisor, rounded down. */
  function Rounded(n: nat, d: nat): nat
    requires d > 0
  {
    n / d + if n % d >= d / 2 then 1 else 0
  }

  function Signed(negative: bool, q: int): int {
    if negative then -q else q
  }

  function Magnitude(a: int, times: int, divisor: int): nat
    requires divisor != 0
  {
    if a == 0 || times == 0 then 0 else Rounded(Abs(a) * Abs(times), Abs(divisor))
  }

  /** When the code reports success. */
  predicate Succeeds(a: int, times: int, divisor: int) {
    && divisor != 0
    && var q := Magnitude(a, times, divisor);
       && Abs(a) * Abs(times) < Abs(divisor) * TWO_32
       && (q < TWO_31 || q == TWO_32 || (q == TWO_31 && Negative(a, times, divisor)))
  }

  /** The value it then stores. */
  function Outcome(a: int, times: int, divisor: int): int
    requires divisor != 0
  {
    ToInt32(Signed(Negative(a, times, divisor), Magnitude(a, times, divisor)))
  }

  // ---- Arithmetic facts -------------------------------------------------------------------------

  lemma MulMono(x: int, y: int, d: int)
    requires d >= 0
    ensures x <= y ==> x * d <= y * d
  {
  }

  lemma QuotientUnique(n: int, d: int, q: int, r: int)
    requires n == q * d + r && 0 <= r < d
    ensures q == n / d && r == n % d
  {
    var k := n / d - q;
    assert k * d == r - n % d;
    MulMono(1, k, d);
    MulMono(k, -1, d);
  }

  lemma WrapShift(x: int, k: int)
    ensures ToInt32(x + k * TWO_32) == ToInt32(x)
  {
    QuotientUnique(x + k * TWO_32, TWO_32, x / TWO_32 + k, x % TWO_32);
  }

  lemma WrapIs(x: int) returns (k: int)
    ensures ToInt32(x) == x + k * TWO_32
  {
    k := if x % TWO_32 < TWO_31 then -(x / TWO_32) else -(x / TWO_32) - 1;
  }

  lemma WrapAdds(x: int, y: int)
    ensures ToInt32(ToInt32(x) + y) == ToInt32(x + y)
  {
    var k := WrapIs(x);
    WrapShift(x + y, k);
  }

  lemma WrapNegates(x: int)
    ensures ToInt32(-ToInt32(x)) == ToInt32(-x)
  {
    var k := WrapIs(x);
    WrapShift(-x, -k);
  }

  /**
   The four partial products of two 32-bit numbers, none of which overflows when both have at most
   31 bits and a half.
   */
  lemma PartialProducts(a: nat, t: nat)
    requires a <= TWO_31 && t <= TWO_31
    ensures var ah, al, th, tl := a / TWO_16, a % TWO_16, t / TWO_16, t % TWO_16;
            && a * t == ah * th * TWO_32 + (ah * tl + al * th) * TWO_16 + al * tl
            && 0 <= ah * tl <= 0x7fff_8000 && 0 <= al * th <= 0x7fff_8000
            && 0 <= ah * th <= 0x4000_0000 && 0 <= al * tl <= 0xfffe_0001
  {
    var ah, al, th, tl := a / TWO_16, a % TWO_16, t / TWO_16, t % TWO_16;
    assert a == ah * TWO_16 + al && t == th * TWO_16 + tl;
    calc {
      a * t;
      (ah * TWO_16 + al) * (th * TWO_16 + tl);
      ah * TWO_16 * (th * TWO_16) + ah * TWO_16 * tl + al * (th * TWO_16) + al * tl;
      ah * th * TWO_32 + (ah * tl + al * th) * TWO_16 + al * tl;
    }
    MulBound(ah, 0x8000, tl, 0xffff);
    MulBound(al, 0xffff, th, 0x8000);
    MulBound(ah, 0x8000, th, 0x8000);
    MulBound(al, 0xffff, tl, 0xffff);
  }

  lemma MulBound(x: nat, xm: nat, y: nat, ym: nat)
    requires x <= xm && y <= ym
    ensures 0 <= x * y <= xm * ym
  {
    assert x * y <= xm * y <= xm * ym;
  }

  /** Adds the middle partial product into the two words, with its carry. */
  method Combine(top: nat, middle: nat, bottom: nat) returns (hi: nat, lo: nat)
    requires top <= 0x4000_0000 && middle < TWO_32 && bottom < TWO_32
    ensures hi * TWO_32 + lo == top * TWO_32 + middle * TWO_16 + bottom && lo < TWO_32 && hi < TWO_32
  {
    var s32, s00 := top + middle / TWO_16, bottom;
    assert s32 + 1 < TWO_32;
    var s16 := middle % TWO_16 * TWO_16;
    s00 := (s00 + s16) % TWO_32;
    if s00 < s16 {
      s32 := s32 + 1;
    }
    return s32, s00;
  }

  /** The 64-bit product in two words. */
  method Product(a: nat, t: nat) returns (hi: nat, lo: nat)
    requires a <= TWO_31 && t <= TWO_31
    ensures hi * TWO_32 + lo == a * t && lo < TWO_32 && hi < TWO_32
  {
    PartialProducts(a, t);
    var s16 := (a / TWO_16) * (t % TWO_16) + (a % TWO_16) * (t / TWO_16);
    assert s16 < TWO_32;
    hi, lo := Combine((a / TWO_16) * (t / TWO_16), s16, (a % TWO_16) * (t % TWO_16));
  }

  lemma Pow2Adds(m: nat, n: nat)
    ensures Pow2(m + n) == Pow2(m) * Pow2(n)
  {
    if m == 0 {
    } else {
      Pow2Adds(m - 1, n);
    }
  }

  lemma Pow2Of32()
    ensures Pow2(32) == TWO_32 && Pow2(31) == TWO_31
  {
    assert Pow2(8) == 0x100;
    Pow2Adds(8, 8);
    Pow2Adds(16, 16);
    assert Pow2(32) == 2 * Pow2(31);
  }

  lemma Pow2Pair(n: nat, b: nat)
    requires b <= n == 32
    ensures Pow2(n - b) * Pow2(b) == TWO_32
  {
    Pow2Of32();
    Pow2Adds(n - b, b);
  }

  /** Shifting `d` left by a factor `w` moves the part above `p` into the upper word. */
  lemma ShiftSplits(d: nat, p: nat, w: nat)
    requires p > 0 && w > 0 && p * w == TWO_32
    ensures d / p * TWO_32 + d * w % TWO_32 == d * w && d / p >= 0
  {
    var hi, r := d / p, d % p;
    assert d == hi * p + r;
    MulMono(hi, -1, p);
    assert d * w == hi * p * w + r * w == hi * TWO_32 + r * w by {
      assert hi * p * w == hi * (p * w);
    }
    assert r * w < TWO_32 by {
      assert r * w <= (p - 1) * w;
    }
    QuotientUnique(d * w, TWO_32, hi, r * w);
  }

  /** D << b in two words. */
  method Shifted(d: nat, b: nat) returns (hi: nat, lo: nat)
    requires d < TWO_32 && b < 32
    ensures hi * TWO_32 + lo == d * Pow2(b) && lo < TWO_32
  {
    if b > 0 {
      Pow2Pair(32, b);
      ShiftSplits(d, Pow2(32 - b), Pow2(b));
      hi, lo := d / Pow2(32 - b), d * Pow2(b) % TWO_32;
    } else {
      hi, lo := 0, d;
    }
  }

  /** One turn of the division loop: subtracts D << b when it fits. */
  method DivideStep(s32: nat, s00: nat, d: nat, b: nat) returns (r32: nat, r00: nat, bit: bool)
    requires s00 < TWO_32 && d < TWO_32 && b < 32
    requires s32 * TWO_32 + s00 < 2 * (d * Pow2(b))
    ensures r00 < TWO_32
    ensures bit == (s32 * TWO_32 + s00 >= d * Pow2(b))
    ensures r32 * TWO_32 + r00 == s32 * TWO_32 + s00 - if bit then d * Pow2(b) else 0
    ensures r32 * TWO_32 + r00 < d * Pow2(b)
  {
    var d32, d00 := Shifted(d, b);
    r32, r00, bit := s32, s00, false;
    if s32 > d32 {
      if s00 < d00 {
        r32 := r32 - 1;
      }
      r32, r00, bit := r32 - d32, (s00 - d00) % TWO_32, true;
    } else if s32 == d32 && s00 >= d00 {
      r32, r00, bit := 0, s00 - d00, true;
    }
  }

  /** One turn of the division loop with its bookkeeping: `q` is the quotient collected so far. */
  method DivideBit(s32: nat, s00: nat, d: nat, b: nat, sum: int, ghost n: int, ghost q: nat)
    returns (r32: nat, r00: nat, result: int, ghost q': nat)
    requires s00 < TWO_32 && d < TWO_32 && b < 32
    requires s32 * TWO_32 + s00 < d * Pow2(b + 1)
    requires n == q * d + (s32 * TWO_32 + s00) && sum == ToInt32(q)
    ensures r00 < TWO_32 && r32 * TWO_32 + r00 < d * Pow2(b)
    ensures n == q' * d + (r32 * TWO_32 + r00) && result == ToInt32(q')
  {
    assert d * Pow2(b + 1) == 2 * (d * Pow2(b));
    var bit;
    r32, r00, bit := DivideStep(s32, s00, d, b);
    result, q' := sum, q;
    if bit {
      WrapAdds(q, Pow2(b));
      assert (q + Pow2(b)) * d == q * d + d * Pow2(b);
      result, q' := ToInt32(sum + Pow2(b)), q + Pow2(b);
    }
  }

  /** The division loop: remainder, and the signed 32-bit image of the quotient. */
  method DivideLoop(s32: nat, s00: nat, d: nat) returns (result: int, r00: nat)
    requires s32 < d <= TWO_31 && s00 < TWO_32
    ensures var n := s32 * TWO_32 + s00;
            result == ToInt32(n / d) && r00 == n % d
  {
    ghost var n := s32 * TWO_32 + s00;
    ghost var q: nat := 0;
    var r32: nat := s32;
    r00 := s00;
    var bitshift: nat := 32;
    result := 0;
    Pow2Of32();
    while bitshift > 0
      invariant 0 <= bitshift <= 32
      invariant r00 < TWO_32 && r32 * TWO_32 + r00 < d * Pow2(bitshift)
      invariant n == q * d + (r32 * TWO_32 + r00) && result == ToInt32(q)
    {
      bitshift := bitshift - 1;
      r32, r00, result, q := DivideBit(r32, r00, d, bitshift, result, n, q);
    }
    assert Pow2(0) == 1 && r32 == 0;
    QuotientUnique(n, d, q, r00);
  }

  /** The division with its rounding. */
  method Divide(s32: nat, s00: nat, d: nat) returns (result: int)
    requires s32 < d <= TWO_31 && s00 < TWO_32
    ensures result == ToInt32(Rounded(s32 * TWO_32 + s00, d))
  {
    var r00;
    result, r00 := DivideLoop(s32, s00, d);
    if r00 >= d / 2 {
      WrapAdds((s32 * TWO_32 + s00) / d, 1);
      result := ToInt32(result + 1);
    }
  }

  /** The sign test at the end lets through what fits, and the quotient 2^32, which has wrapped to 0. */
  lemma FinalCheck(q: nat, negative: bool)
    requires q <= TWO_32
    ensures negative ==>
              var r := ToInt32(-ToInt32(q));
              r == ToInt32(-(q as int)) && (r <= 0 <==> q <= TWO_31 || q == TWO_32)
    ensures !negative ==> (ToInt32(q) >= 0 <==> q < TWO_31 || q == TWO_32)
  {
    WrapNegates(q);
  }

  /** The part of png_muldiv after the signs have been taken off. */
  method MulDivMagnitudes(A: nat, T: nat, D: nat, negative: bool) returns (ok: bool, res: int)
    requires A <= TWO_31 && T <= TWO_31 && 0 < D <= TWO_31
    ensures var q := Rounded(A * T, D);
            && (ok <==> A * T < D * TWO_32 && (q < TWO_31 || q == TWO_32 || (q == TWO_31 && negative)))
            && (ok ==> res == ToInt32(Signed(negative, q)))
  {
    var s32, s00 := Product(A, T);
    if s32 < D {
      var result := Divide(s32, s00, D);
      QuotientBelow(A * T, D);
      FinalCheck(Rounded(A * T, D), negative);
      if negative {
        result := ToInt32(-result);
      }
      if (negative && result <= 0) || (!negative && result >= 0) {
        return true, result;
      }
    }
    return false, 0;
  }

  /** png_muldiv, integer branch. */
  method MulDiv(a: int, times: int, divisor: int) returns (ok: bool, res: int)
    requires IsInt32(a) && IsInt32(times) && IsInt32(divisor)
    ensures ok <==> Succeeds(a, times, divisor)
    ensures ok ==> res == Outcome(a, times, divisor)
  {
    if divisor != 0 {
      if a == 0 || times == 0 {
        return true, 0;
      }
      var negative := false;
      var A, T, D := a, times, divisor;
      if a < 0 {
        negative, A := true, -a;
      }
      if times < 0 {
        negative, T := !negative, -times;
      }
      if divisor < 0 {
        negative, D := !negative, -divisor;
      }
      ok, res := MulDivMagnitudes(A, T, D, negative);
      return;
    }
    return false, 0;
  }

  lemma QuotientBelow(n: nat, d: nat)
    requires d > 0 && n < d * TWO_32
    ensures Rounded(n, d) <= TWO_32
  {
    var q := n / d;
    assert n == q * d + n % d;
    MulMono(TWO_32, q, d);
  }

  // ---- What the value means -----------------------------------------------------------------------

  lemma MulSigned(x: int, y: int)
    ensures x * y == Signed((x < 0) != (y < 0), Abs(x) * Abs(y)) && Abs(x) * Abs(y) >= 0
  {
    if x < 0 {
      assert (-x) * y == -(x * y);
    }
    if y < 0 {
      assert Abs(x) * (-y) == -(Abs(x) * y);
    }
  }

  /** The product and the quotient times the divisor have the same sign, so only magnitudes matter. */
  lemma SignsCancel(a: int, times: int, divisor: int, q: int)
    requires divisor != 0 && q >= 0
    ensures var res := Signed(Negative(a, times, divisor), q);
            var product := Abs(a) * Abs(times);
            && Abs(res * divisor - a * times) == Abs(q * Abs(divisor) - product)
            && Abs(res * divisor) == q * Abs(divisor) && Abs(a * times) == product
  {
    MulSigned(a, times);
    MulSigned(Signed(Negative(a, times, divisor), q), divisor);
  }

  /** How far the rounded quotient is from the true one, scaled by the divisor. */
  lemma RoundingError(n: nat, d: nat)
    requires d > 0
    ensures Rounded(n, d) * d - n == if n % d >= d / 2 then d - n % d else -(n % d)
  {
    var q := n / d;
    assert n == q * d + n % d;
    assert (q + 1) * d == q * d + d;
  }

  predicate Representable(a: int, times: int, divisor: int) {
    && IsInt32(a) && IsInt32(times) && IsInt32(divisor) && divisor != 0
    && Abs(a) * Abs(times) < Abs(divisor) * (TWO_31 - 1)
  }

  lemma RepresentableSucceeds(a: int, times: int, divisor: int)
    requires Representable(a, times, divisor)
    ensures Succeeds(a, times, divisor) && Magnitude(a, times, divisor) < TWO_31
    ensures Outcome(a, times, divisor) == Signed(Negative(a, times, divisor), Magnitude(a, times, divisor))
  {
    var n, d := Abs(a) * Abs(times), Abs(divisor);
    var q := n / d;
    assert n == q * d + n % d;
    MulMono(TWO_31 - 1, q, d);
    assert d * (TWO_31 - 1) <= d * TWO_32;
  }

  /** The distance of the result from the true quotient, and on which side of it the result lies. */
  lemma ScaledError(a: int, times: int, divisor: int)
    requires Representable(a, times, divisor) && a != 0 && times != 0
    ensures var rem, d := Abs(a) * Abs(times) % Abs(divisor), Abs(divisor);
            var res := Outcome(a, times, divisor);
            if rem >= d / 2 then Abs(res * divisor - a * times) == d - rem && Abs(res * divisor) > Abs(a * times)
            else Abs(res * divisor - a * times) == rem
  {
    RepresentableSucceeds(a, times, divisor);
    SignsCancel(a, times, divisor, Magnitude(a, times, divisor));
    RoundingError(Abs(a) * Abs(times), Abs(divisor));
  }

  /** Whenever the true quotient stays below 2^31 - 1 the call succeeds, at most half a divisor, rounded up, off. */
  lemma Accuracy(a: int, times: int, divisor: int)
    requires Representable(a, times, divisor)
    ensures Succeeds(a, times, divisor)
    ensures Abs(Outcome(a, times, divisor) * divisor - a * times) <= (Abs(divisor) + 1) / 2
  {
    RepresentableSucceeds(a, times, divisor);
    if a != 0 && times != 0 {
      ScaledError(a, times, divisor);
    }
  }

  /** Nearest integer to a * times / divisor, ties away from zero. */
  predicate IsNearest(a: int, times: int, divisor: int, res: int) {
    && 2 * Abs(res * divisor - a * times) <= Abs(divisor)
    && (2 * Abs(res * divisor - a * times) == Abs(divisor) ==> Abs(res * divisor) > Abs(a * times))
  }

  lemma NearestToZero(a: int, times: int, divisor: int)
    requires Representable(a, times, divisor) && (a == 0 || times == 0)
    ensures IsNearest(a, times, divisor, Outcome(a, times, divisor))
  {
  }

  /**
   The documented rounding to nearest holds unless an odd divisor leaves a remainder of exactly
   (|divisor| - 1) / 2.
   */
  lemma NearestExactly(a: int, times: int, divisor: int)
    requires Representable(a, times, divisor)
    ensures IsNearest(a, times, divisor, Outcome(a, times, divisor)) <==>
              || a == 0 || times == 0
              || divisor % 2 == 0
              || Abs(a) * Abs(times) % Abs(divisor) != (Abs(divisor) - 1) / 2
  {
    hide Outcome, Succeeds, Signed, Negative, Magnitude;
    if a == 0 || times == 0 {
      NearestToZero(a, times, divisor);
    } else {
      ScaledError(a, times, divisor);
      NearestByRemainder(a, times, divisor, Outcome(a, times, divisor), Abs(a) * Abs(times) % Abs(divisor));
    }
  }

  /**
   Rounding up from half the divisor, rounded down, errs exactly when the divisor is odd and the
   remainder is that half.
   */
  lemma NearestByRemainder(a: int, times: int, divisor: int, res: int, rem: int)
    requires 0 <= rem < Abs(divisor)
    requires if rem >= Abs(divisor) / 2
             then Abs(res * divisor - a * times) == Abs(divisor) - rem && Abs(res * divisor) > Abs(a * times)
             else Abs(res * divisor - a * times) == rem
    ensures IsNearest(a, times, divisor, res) <==> divisor % 2 == 0 || rem != (Abs(divisor) - 1) / 2
  {
    assert divisor % 2 == Abs(divisor) % 2;
  }

  lemma BelowTop(n: nat, d: nat)
    requires d > 0
    ensures n / d < TWO_32 <==> n < d * TWO_32
  {
    var q := n / d;
    assert n == q * d + n % d;
    if q < TWO_32 {
      MulMono(q + 1, TWO_32, d);
    } else {
      MulMono(TWO_32, q, d);
    }
  }

  /** The code reports success exactly if the rounded quotient fits into 32 bits, or is 2^32 by rounding up. */
  lemma SucceedsExactly(a: int, times: int, divisor: int)
    requires divisor != 0
    ensures var n, d := Abs(a) * Abs(times), Abs(divisor);
            var up := if n == 0 then 0 else if n % d >= d / 2 then n / d + 1 else n / d;
            var res := if ((a < 0) != (times < 0)) != (divisor < 0) then -up else up;
            Succeeds(a, times, divisor) <==>
              -0x8000_0000 <= res <= 0x7fff_ffff || (up == 0x1_0000_0000 && n / d < 0x1_0000_0000)
  {
    var n, d := Abs(a) * Abs(times), Abs(divisor);
    BelowTop(n, d);
    Zero(a, times);
  }

  lemma Zero(a: int, times: int)
    ensures Abs(a) * Abs(times) == 0 <==> a == 0 || times == 0
  {
    if a != 0 && times != 0 {
      MulMono(1, Abs(a), Abs(times));
    }
  }

  /** Dividing by one adds one. */
  lemma DivideByOne()
    ensures Succeeds(1, 1, 1) && Outcome(1, 1, 1) == 2
  {
  }

  /** Success reports the rounded quotient, unless that quotient is 2^32: then it reports 0. */
  lemma OverflowMissedExactly(a: int, times: int, divisor: int)
    requires Succeeds(a, times, divisor)
    ensures Outcome(a, times, divisor) == Signed(Negative(a, times, divisor), Magnitude(a, times, divisor))
            <==> Abs(a) * Abs(times) < Abs(divisor) * TWO_32 - (Abs(divisor) - Abs(divisor) / 2)
  {
    if a != 0 && times != 0 {
      TopQuotient(Abs(a) * Abs(times), Abs(divisor));
    }
  }

  /** The rounded quotient reaches 2^32 in the upper half of the last unit. */
  lemma TopQuotient(n: nat, d: nat)
    requires d > 0 && n < d * TWO_32
    ensures Rounded(n, d) <= TWO_32
    ensures Rounded(n, d) == TWO_32 <==> n >= d * TWO_32 - (d - d / 2)
  {
    var q := n / d;
    assert n == q * d + n % d;
    QuotientBelow(n, d);
    MulMono(q, TWO_32 - 2, d);
    MulMono(TWO_32 - 1, q, d);
    MulMono(q, TWO_32 - 1, d);
  }

  /** An overflow that goes unnoticed: 7 * 1227133513 / 2 is 2^32 - 1/2, and the call returns 0. */
  lemma OverflowMissed()
    ensures Succeeds(7, 1227133513, 2) && Outcome(7, 1227133513, 2) == 0
  {
  }
}
