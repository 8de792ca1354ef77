/**
 png_ascii_from_fixed of external/libpng/png.c: a fixed-point number (in units of 1/100000)
 as decimal text.

 `AsciiFromFixed` writes into the caller's buffer digit by digit; `FixedParts` says which text
 that is.  The text denotes the number exactly, fits in 13 bytes with its terminator, and is
 accepted by the number automaton of module FpNumber with the right flags.
 */
module FixedText {
  import opened Bytes
  import opened FpNumber
  import FixedMath

  function Pow10(n: nat): (p: nat)
    ensures p > 0
  {
    if n == 0 then 1 else 10 * Pow10(n - 1)
  }

  function DigitAt(num: nat, k: nat): (d: nat)
    ensures d <= 9
  {
    if k == 0 then num % 10 else DigitAt(num / 10, k - 1)
  }

  /** The characters for the decimal places hi-1 down to lo. */
  function Decimal(num: nat, lo: nat, hi: nat): (s: seq<int>)
    ensures |s| == if lo < hi then hi - lo else 0
    ensures Digits(s)
    decreases hi - lo
  {
    if lo >= hi then [] else Decimal(num, lo + 1, hi) + [ZERO + DigitAt(num, lo)]
  }

  function NumDigits(num: nat): nat {
    if num == 0 then 0 else 1 + NumDigits(num / 10)
  }

  /** One plus the place of the lowest non-zero digit. */
  function FirstNonzero(num: nat): (f: nat)
    requires num > 0
    ensures f >= 1
  {
    if num % 10 != 0 then 1 else 1 + FirstNonzero(num / 10)
  }

  /** The text for `fp`: no leading zero before the point, no trailing zero after it. */
  function FixedParts(fp: int): Parts {
    var num := FixedMath.Abs(fp);
    var sign := if fp < 0 then [MINUS] else [];
    if num == 0 then Parts(sign, [ZERO], false, [], [], [], [])
    else if FirstNonzero(num) <= 5 then
      Parts(sign, Decimal(num, 5, NumDigits(num)), true, Decimal(num, FirstNonzero(num) - 1, 5), [], [], [])
    else
      Parts(sign, Decimal(num, 5, NumDigits(num)), false, [], [], [], [])
  }

  // ---- Digits --------------------------------------------------------------------------------------

  /** The value of a digit string. */
  function Value(s: seq<int>): int {
    if s == [] then 0 else 10 * Value(s[..|s| - 1]) + (s[|s| - 1] - ZERO)
  }

  lemma DivTens(num: nat, k: nat)
    ensures num / 10 / Pow10(k) == num / Pow10(k + 1) && num / Pow10(k) >= 0
  {
    var p := Pow10(k);
    var a, b := num / 10, num % 10;
    var q, r := a / p, a % p;
    assert num == 10 * a + b && a == q * p + r;
    assert num == q * (10 * p) + (10 * r + b) by {
      assert 10 * (q * p) == q * (10 * p);
    }
    FixedMath.QuotientUnique(num, 10 * p, q, 10 * r + b);
    NonNegative(num, p);
  }

  lemma NonNegative(n: nat, d: nat)
    requires d > 0
    ensures n / d >= 0
  {
    FixedMath.MulMono(n / d, -1, d);
  }

  lemma {:induction false} DigitIs(num: nat, k: nat)
    ensures num / Pow10(k) >= 0 && DigitAt(num, k) == num / Pow10(k) % 10
  {
    if k == 0 {
    } else {
      DigitIs(num / 10, k - 1);
      DivTens(num, k - 1);
    }
  }

  /** A decimal expansion down to place `lo` denotes the number without its `lo` lowest places. */
  lemma {:induction false} DecimalValue(num: nat, lo: nat, hi: nat)
    requires lo <= hi && num < Pow10(hi)
    ensures Value(Decimal(num, lo, hi)) == num / Pow10(lo)
    decreases hi - lo
  {
    DigitIs(num, lo);
    if lo == hi {
      FixedMath.QuotientUnique(num, Pow10(lo), 0, num);
    } else {
      DecimalValue(num, lo + 1, hi);
      var s := Decimal(num, lo, hi);
      assert s[..|s| - 1] == Decimal(num, lo + 1, hi);
      DivChain(num, lo);
    }
  }

  lemma DivChain(num: nat, k: nat)
    ensures num / Pow10(k) / 10 == num / Pow10(k + 1)
  {
    var p := Pow10(k);
    var a := num / p;
    var q, r := a / 10, a % 10;
    assert num == a * p + num % p && a == 10 * q + r;
    assert a * p == q * (10 * p) + r * p;
    FixedMath.MulMono(r, 9, p);
    FixedMath.MulMono(0, r, p);
    FixedMath.QuotientUnique(num, 10 * p, q, r * p + num % p);
  }

  lemma {:induction false} DecimalSplits(num: nat, lo: nat, mid: nat, hi: nat)
    requires lo <= mid <= hi
    ensures Decimal(num, lo, hi) == Decimal(num, mid, hi) + Decimal(num, lo, mid)
    decreases mid - lo
  {
    if lo == mid {
    } else {
      DecimalSplits(num, lo + 1, mid, hi);
    }
  }

  lemma {:induction false} NumDigitsBounds(num: nat)
    ensures num < Pow10(NumDigits(num))
    ensures num > 0 ==> Pow10(NumDigits(num) - 1) <= num
  {
    if num == 0 {
    } else {
      NumDigitsBounds(num / 10);
    }
  }

  lemma {:induction false} FirstNonzeroIs(num: nat)
    requires num > 0
    ensures FirstNonzero(num) <= NumDigits(num)
    ensures num / Pow10(FirstNonzero(num) - 1) * Pow10(FirstNonzero(num) - 1) == num
    ensures DigitAt(num, FirstNonzero(num) - 1) != 0
    ensures forall k :: 0 <= k < FirstNonzero(num) - 1 ==> DigitAt(num, k) == 0
  {
    if num % 10 != 0 {
    } else {
      FirstNonzeroIs(num / 10);
      var f := FirstNonzero(num / 10);
      DivTens(num, f - 1);
      var q, p := num / 10 / Pow10(f - 1), Pow10(f - 1);
      assert num == 10 * (q * p) == q * (10 * p);
    }
  }

  lemma {:induction false} PowMono(m: nat, n: nat)
    requires m <= n
    ensures Pow10(m) <= Pow10(n)
  {
    if m == n {
    } else {
      PowMono(m, n - 1);
    }
  }

  lemma TenDigits(num: nat)
    requires num <= 0x8000_0000
    ensures NumDigits(num) <= 10
  {
    NumDigitsBounds(num);
    if num > 0 && NumDigits(num) >= 11 {
      PowMono(10, NumDigits(num) - 1);
    }
    assert Pow10(10) == 10_000_000_000;
  }

  lemma {:induction false} DecimalIndex(num: nat, lo: nat, hi: nat, k: nat)
    requires lo <= k < hi
    ensures Decimal(num, lo, hi)[hi - 1 - k] == ZERO + DigitAt(num, k)
    decreases hi - lo
  {
    if lo == k {
    } else {
      DecimalIndex(num, lo + 1, hi, k);
    }
  }

  lemma {:induction false} PowAdds(m: nat, n: nat)
    ensures Pow10(m + n) == Pow10(m) * Pow10(n)
  {
    if m == 0 {
    } else {
      PowAdds(m - 1, n);
    }
  }

  // ---- What the printed text means -----------------------------------------------------------------

  /** The text is a number of at most 12 characters. */
  lemma PrintedWellFormed(fp: int)
    requires FixedMath.IsInt32(fp)
    ensures WellFormed(FixedParts(fp)) && Complete(FixedParts(fp))
    ensures |Text(FixedParts(fp))| <= 12
  {
    var num := FixedMath.Abs(fp);
    TenDigits(num);
    if num > 0 {
      FirstNonzeroIs(num);
    }
  }

  lemma {:induction false} LeadingDigit(num: nat)
    requires num > 0
    ensures NumDigits(num) > 0 && DigitAt(num, NumDigits(num) - 1) != 0
  {
    if num < 10 {
    } else {
      LeadingDigit(num / 10);
    }
  }

  /** No shorter text: no leading zero, no trailing zero after the point, and no point without a fraction. */
  lemma PrintedShortest(fp: int)
    ensures var p := FixedParts(fp);
            && (p.dot <==> p.frac != []) && (p.frac != [] ==> p.frac[|p.frac| - 1] != 48)
            && (if fp == 0 then p.whole == [48] else p.whole != [] ==> p.whole[0] != 48)
  {
    var num := FixedMath.Abs(fp);
    if num > 0 {
      FirstNonzeroIs(num);
      LeadingDigit(num);
      if NumDigits(num) > 5 {
        DecimalIndex(num, 5, NumDigits(num), NumDigits(num) - 1);
      }
      if FirstNonzero(num) <= 5 {
        DecimalIndex(num, FirstNonzero(num) - 1, 5, FirstNonzero(num) - 1);
      }
    }
  }

  /** The digits of the text, read as one number, scaled by the length of the fraction. */
  lemma PrintedDigits(num: nat)
    requires num > 0
    ensures var f, nd := FirstNonzero(num), NumDigits(num);
            var whole := Decimal(num, 5, nd);
            if f <= 5 then
              Value(whole + Decimal(num, f - 1, 5)) == num / Pow10(f - 1)
            else Value(whole) == num / Pow10(5)
  {
    var f, nd := FirstNonzero(num), NumDigits(num);
    NumDigitsBounds(num);
    FirstNonzeroIs(num);
    if f > 5 {
      DecimalValue(num, 5, nd);
    } else if nd >= 5 {
      DecimalSplits(num, f - 1, 5, nd);
      DecimalValue(num, f - 1, nd);
    } else {
      PowMono(nd, 5);
      DecimalValue(num, f - 1, 5);
      assert Decimal(num, 5, nd) + Decimal(num, f - 1, 5) == Decimal(num, f - 1, 5);
    }
  }

  lemma FractionScale(num: nat, q: nat, f: nat)
    requires 1 <= f <= 5 && q * Pow10(f - 1) == num
    ensures q * 100000 == num * Pow10(6 - f)
  {
    PowAdds(f - 1, 6 - f);
    assert Pow10(5) == 100000;
    assert q * (Pow10(f - 1) * Pow10(6 - f)) == q * Pow10(f - 1) * Pow10(6 - f);
  }

  lemma WholeScale(num: nat, q: nat, f: nat)
    requires f > 5 && q * Pow10(f - 1) == num
    ensures num / 100000 * 100000 == num
  {
    PowAdds(f - 6, 5);
    assert Pow10(5) == 100000;
    assert q * (Pow10(f - 6) * 100000) == q * Pow10(f - 6) * 100000;
    FixedMath.QuotientUnique(num, 100000, q * Pow10(f - 6), 0);
  }

  /** The digits of the text over ten to the length of its fraction are num / 100000. */
  lemma DigitsScale(num: nat)
    requires num > 0
    ensures var f, whole := FirstNonzero(num), Decimal(num, 5, NumDigits(num));
            if f <= 5 then Value(whole + Decimal(num, f - 1, 5)) * 100000 == num * Pow10(6 - f)
            else Value(whole) * 100000 == num
  {
    var f := FirstNonzero(num);
    PrintedDigits(num);
    FirstNonzeroIs(num);
    DigitIs(num, f - 1);
    if f <= 5 {
      FractionScale(num, num / Pow10(f - 1), f);
    } else {
      assert Pow10(5) == 100000;
      WholeScale(num, num / Pow10(f - 1), f);
    }
  }

  lemma PrintedMagnitude(fp: int)
    ensures var p := FixedParts(fp);
            Value(p.whole + p.frac) * 100000 == FixedMath.Abs(fp) * Pow10(|p.frac|)
  {
    var p, num := FixedParts(fp), FixedMath.Abs(fp);
    if num == 0 {
      assert p.whole + p.frac == [ZERO];
      assert Value([ZERO]) == 10 * Value([ZERO][..0]) + 0;
    } else {
      DigitsScale(num);
      assert p.frac == [] ==> p.whole + p.frac == p.whole;
    }
  }

  /** The number that a text without exponent denotes, times ten to the length of its fraction. */
  function Scaled(p: Parts): int {
    if p.sign == [MINUS] then -Value(p.whole + p.frac) else Value(p.whole + p.frac)
  }

  /** The text denotes exactly fp / 100000, sign included. */
  lemma PrintedValue(fp: int)
    ensures var p := FixedParts(fp);
            p.e == [] && Scaled(p) * 100000 == fp * Pow10(|p.frac|)
  {
    PrintedMagnitude(fp);
    var p := FixedParts(fp);
    var v, t := Value(p.whole + p.frac), Pow10(|p.frac|);
    assert fp < 0 ==> (-v) * 100000 == -(v * 100000) && fp * t == -(-fp * t);
  }

  lemma PrintedNonzero(fp: int)
    ensures HasNonzero(FixedParts(fp).whole) || HasNonzero(FixedParts(fp).frac) <==> fp != 0
  {
    var p, num := FixedParts(fp), FixedMath.Abs(fp);
    if num > 0 {
      FirstNonzeroIs(num);
      var f := FirstNonzero(num);
      if f <= 5 {
        DecimalIndex(num, f - 1, 5, f - 1);
        assert p.frac[5 - f] != ZERO;
      } else {
        DecimalIndex(num, 5, NumDigits(num), f - 1);
        assert p.whole[NumDigits(num) - f] != ZERO;
      }
    }
  }

  /** The automaton accepts the text, as negative iff fp < 0 and as non-zero iff fp != 0. */
  lemma PrintedAccepted(fp: int)
    requires FixedMath.IsInt32(fp)
    ensures var st := StateOf(FixedParts(fp));
            && Run(START, Text(FixedParts(fp))) == Some(st)
            && st.sawDigit && (st.negative <==> fp < 0) && (st.nonzero <==> fp != 0)
  {
    PrintedWellFormed(fp);
    RunComplete(FixedParts(fp));
    PrintedNonzero(fp);
    if fp != 0 {
      FirstNonzeroIs(FixedMath.Abs(fp));
    }
  }

  // ---- The printer ---------------------------------------------------------------------------------

  /** The digits split off so far: `num` is what is left of `num0` above place `n`. */
  ghost predicate Splitting(num0: nat, num: nat, n: nat, first: nat) {
    && n + NumDigits(num) == NumDigits(num0)
    && (forall j: nat :: DigitAt(num, j) == DigitAt(num0, n + j))
    && (first == 16 ==> num0 == 0 || (num > 0 && FirstNonzero(num0) == n + FirstNonzero(num)))
    && (first != 16 ==> num0 > 0 && first == FirstNonzero(num0) <= n)
  }

  lemma SplitStep(num0: nat, num: nat, n: nat, first: nat)
    requires Splitting(num0, num, n, first) && num > 0
    ensures DigitAt(num0, n) == num % 10 && n < NumDigits(num0)
    ensures n + 1 != 16 ==> Splitting(num0, num / 10, n + 1, if first == 16 && num % 10 > 0 then n + 1 else first)
  {
    assert DigitAt(num, 0) == DigitAt(num0, n + 0);
    forall j: nat
      ensures DigitAt(num / 10, j) == DigitAt(num0, n + 1 + j)
    {
      assert DigitAt(num, j + 1) == DigitAt(num0, n + (j + 1));
    }
  }

  /** Splits off the decimal digits, lowest first, and notes the first non-zero one. */
  method SplitDigits(num0: nat) returns (digits: array<int>, ndigits: nat, first: nat)
    requires num0 <= 0x8000_0000
    ensures fresh(digits) && digits.Length == 10
    ensures ndigits == NumDigits(num0) <= 10
    ensures first == if num0 == 0 then 16 else FirstNonzero(num0)
    ensures forall k :: 0 <= k < ndigits ==> digits[k] == ZERO + DigitAt(num0, k)
  {
    digits := new int[10];
    ndigits, first := 0, 16;
    var num := num0;
    TenDigits(num0);
    while num > 0
      invariant Splitting(num0, num, ndigits, first)
      invariant forall k :: 0 <= k < ndigits ==> digits[k] == ZERO + DigitAt(num0, k)
      decreases num
    {
      SplitStep(num0, num, ndigits, first);
      var tmp := num / 10;
      num := num - tmp * 10;
      digits[ndigits] := ZERO + num;
      ndigits := ndigits + 1;
      if first == 16 && num > 0 {
        first := ndigits;
      }
      num := tmp;
    }
  }

  /** Writes the digits for places hi-1 down to lo into the buffer at `pos`. */
  method PutDigits(ascii: array<int>, pos: nat, digits: array<int>, ghost num: nat, hi: nat, lo: nat) returns (end: nat)
    requires ascii != digits && lo <= hi <= digits.Length && pos + (hi - lo) <= ascii.Length
    requires forall k :: lo <= k < hi ==> digits[k] == ZERO + DigitAt(num, k)
    modifies ascii
    ensures end == pos + (hi - lo)
    ensures ascii[..end] == old(ascii[..pos]) + Decimal(num, lo, hi)
  {
    end := pos;
    var n := hi;
    while n > lo
      invariant lo <= n <= hi && end == pos + (hi - n)
      invariant ascii[..end] == old(ascii[..pos]) + Decimal(num, n, hi)
    {
      n := n - 1;
      ascii[end] := digits[n];
      end := end + 1;
      assert ascii[..end] == ascii[..end - 1] + [digits[n]];
    }
  }

  /** Writes the zeros of places hi-1 down to lo, which lie above all digits of `num`. */
  method PutZeros(ascii: array<int>, pos: nat, ghost num: nat, hi: nat, lo: nat) returns (end: nat)
    requires lo <= hi && (lo < hi ==> NumDigits(num) <= lo) && pos + (hi - lo) <= ascii.Length
    modifies ascii
    ensures end == pos + (hi - lo)
    ensures ascii[..end] == old(ascii[..pos]) + Decimal(num, lo, hi)
  {
    end := pos;
    var i := hi;
    while lo < i
      invariant lo <= i <= hi && end == pos + (hi - i)
      invariant ascii[..end] == old(ascii[..pos]) + Decimal(num, i, hi)
    {
      ascii[end] := ZERO;
      end, i := end + 1, i - 1;
      HighDigitZero(num, i);
      assert ascii[..end] == ascii[..end - 1] + [ZERO];
    }
  }

  lemma {:induction false} HighDigitZero(num: nat, k: nat)
    requires NumDigits(num) <= k
    ensures DigitAt(num, k) == 0
  {
    if k == 0 {
    } else {
      HighDigitZero(num / 10, k - 1);
    }
  }

  /** The fraction: leading zeros, then digits down to the lowest non-zero one. */
  method PutFraction(ascii: array<int>, pos: nat, digits: array<int>, ghost num: nat, ndigits: nat, first: nat)
    returns (end: nat)
    requires ascii != digits && pos + 6 - first <= ascii.Length
    requires num > 0 && first == FirstNonzero(num) <= 5 && first <= ndigits <= 5 && digits.Length == 10
    requires ndigits < 5 ==> ndigits == NumDigits(num)
    requires forall k :: 0 <= k < ndigits ==> digits[k] == ZERO + DigitAt(num, k)
    modifies ascii
    ensures end == pos + 6 - first
    ensures ascii[..end] == old(ascii[..pos]) + Decimal(num, first - 1, 5)
  {
    ghost var before := ascii[..pos];
    end := PutZeros(ascii, pos, num, 5, ndigits);
    end := PutDigits(ascii, end, digits, num, ndigits, first - 1);
    DecimalSplits(num, first - 1, ndigits, 5);
    Associates(before, Decimal(num, ndigits, 5), Decimal(num, first - 1, ndigits));
  }

  lemma Associates(a: seq<int>, b: seq<int>, c: seq<int>)
    ensures a + b + c == a + (b + c)
  {
  }

  method PutPointAndFraction(ascii: array<int>, pos: nat, digits: array<int>, ghost num: nat, ndigits: nat, first: nat)
    returns (end: nat)
    requires ascii != digits && pos + 7 - first <= ascii.Length
    requires num > 0 && first == FirstNonzero(num) <= 5 && first <= ndigits <= 5 && digits.Length == 10
    requires ndigits < 5 ==> ndigits == NumDigits(num)
    requires forall k :: 0 <= k < ndigits ==> digits[k] == ZERO + DigitAt(num, k)
    modifies ascii
    ensures end == pos + 7 - first
    ensures ascii[..end] == old(ascii[..pos]) + ([DOT] + Decimal(num, first - 1, 5))
  {
    ghost var before := ascii[..pos];
    ascii[pos] := DOT;
    assert ascii[..pos + 1] == before + [DOT];
    end := PutFraction(ascii, pos + 1, digits, num, ndigits, first);
    Associates(before, [DOT], Decimal(num, first - 1, 5));
  }

  /** The text of a magnitude, without its sign. */
  function Unsigned(num: nat): seq<int> {
    if num == 0 then [ZERO]
    else Decimal(num, 5, NumDigits(num))
         + if FirstNonzero(num) <= 5 then [DOT] + Decimal(num, FirstNonzero(num) - 1, 5) else []
  }

  lemma TextSplits(fp: int)
    ensures Text(FixedParts(fp)) == (if fp < 0 then [MINUS] else []) + Unsigned(FixedMath.Abs(fp))
  {
    hide Decimal, NumDigits, FirstNonzero;
    var p := FixedParts(fp);
    assert Power(p) == [];
    assert Mantissa(p) == p.sign + Unsigned(FixedMath.Abs(fp));
  }

  /** The digits, the point and the fraction. */
  method PutMagnitude(ascii: array<int>, pos: nat, num: nat) returns (end: nat)
    requires num <= 0x8000_0000 && pos + 12 <= ascii.Length
    modifies ascii
    ensures end == pos + |Unsigned(num)| <= pos + 11
    ensures ascii[..end] == old(ascii[..pos]) + Unsigned(num)
  {
    end := pos;
    var digits, ndigits, first := SplitDigits(num);
    if ndigits > 0 {
      FirstNonzeroIs(num);
      if ndigits > 5 {
        end := PutDigits(ascii, end, digits, num, ndigits, 5);
        ndigits := 5;
      }
      assert ascii[..end] == old(ascii[..pos]) + Decimal(num, 5, NumDigits(num));
      if first <= 5 {
        end := PutPointAndFraction(ascii, end, digits, num, ndigits, first);
        Associates(old(ascii[..pos]), Decimal(num, 5, NumDigits(num)), [DOT] + Decimal(num, first - 1, 5));
      }
    } else {
      ascii[end] := ZERO;
      end := end + 1;
      assert ascii[..end] == old(ascii[..pos]) + [ZERO];
    }
  }

  /** png_ascii_from_fixed; false stands for the error raised when the buffer is too small. */
  method AsciiFromFixed(ascii: array<int>, size: nat, fp: int) returns (ok: bool)
    requires size <= ascii.Length && FixedMath.IsInt32(fp)
    modifies ascii
    ensures ok <==> size > 12
    ensures ok ==> var t := Text(FixedParts(fp));
                   |t| <= 12 && ascii[..|t| + 1] == t + [0]
  {
    hide Text, FixedParts, Unsigned;
    if size > 12 {
      var num := fp;
      var pos := 0;
      if fp < 0 {
        ascii[0] := MINUS;
        pos, num := 1, -fp;
      }
      if num <= 0x8000_0000 {
        TextSplits(fp);
        pos := PutMagnitude(ascii, pos, num);
        ascii[pos] := 0;
        assert ascii[..pos + 1] == ascii[..pos] + [0];
        return true;
      }
    }
    return false;
  }

  // ---- Print, then check -----------------------------------------------------------------------------

  lemma NoNul(t: seq<int>, n: nat)
    requires n < |t| && Run(START, t).Some?
    ensures t[n] != 0
  {
    if t[n] == 0 {
      NulRefused(START, t, n);
    }
  }

  /** The printed buffer is the text up to its first NUL. */
  lemma PrintedLength(s: seq<int>, t: seq<int>, size: nat)
    requires |t| < size <= |s| && s[..|t| + 1] == t + [0] && Run(START, t).Some?
    ensures s[..TextLength(s, size)] == t
  {
    forall n | 0 <= n < |t|
      ensures s[n] != 0
    {
      NoNul(t, n);
      assert s[n] == s[..|t| + 1][n];
    }
    assert s[|t|] == s[..|t| + 1][|t|];
    assert TextLength(s, size) == |t|;
    assert s[..|t|] == s[..|t| + 1][..|t|];
  }

  lemma Flags(st: State)
    ensures Code(st) / 128 % 2 == (if st.negative then 1 else 0) && Code(st) / 256 % 2 == (if st.nonzero then 1 else 0)
    ensures st.sawDigit ==> Code(st) > 0
  {
  }

  /**
   What png_ascii_from_fixed prints, png_check_fp_string accepts: as negative iff fp < 0 and as
   non-zero iff fp != 0.
   */
  method PrintAndCheck(ascii: array<int>, fp: int) returns (code: int)
    requires ascii.Length >= 13 && FixedMath.IsInt32(fp)
    modifies ascii
    ensures code != 0
    ensures code / 128 % 2 == 1 <==> fp < 0
    ensures code / 256 % 2 == 1 <==> fp != 0
  {
    hide FixedParts, Text, StateOf, Code, TextLength;
    var ok := AsciiFromFixed(ascii, 13, fp);
    code := CheckString(ascii[..], 13);
    PrintedWellFormed(fp);
    PrintedAccepted(fp);
    var t := Text(FixedParts(fp));
    assert ascii[..][..|t| + 1] == ascii[..|t| + 1];
    PrintedLength(ascii[..], t, 13);
    Flags(StateOf(FixedParts(fp)));
  }
}
