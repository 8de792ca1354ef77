/**
 The interlace macros of external/libpng/png.h: which rows and columns of an image belong to each
 of the seven Adam7 passes (section 8.2 of the W3C PNG Specification, Second Edition).

 The macros are written with shifts of 32-bit words, which wrap around; the lemmas relate them to
 the plain description of a pass as every `step`-th row or column from a first one on.
 */
module Adam7 {
  import opened Bytes
  import FixedMath

  const PASSES: nat := 7

  /** `x << n` for the shifts that occur. */
  function Shl(x: nat, n: nat): nat
    requires n <= 3
  {
    if n == 0 then x else if n == 1 then 2 * x else if n == 2 then 4 * x else 8 * x
  }

  /** `x >> n` for the shifts that occur. */
  function Shr(x: nat, n: nat): nat
    requires n < 8
  {
    if n == 0 then x else if n == 1 then x / 2 else if n == 2 then x / 4 else if n == 3 then x / 8
    else if n == 4 then x / 16 else if n == 5 then x / 32 else if n == 6 then x / 64 else x / 128
  }

  /** `(x >> 4 * n) & 0xF`, for a word of up to nine hexadecimal digits. */
  function Digit(x: nat, n: nat): nat
    requires n <= 8
  {
    if n == 0 then x % 16 else if n == 1 then x / 0x10 % 16 else if n == 2 then x / 0x100 % 16
    else if n == 3 then x / 0x1000 % 16 else if n == 4 then x / 0x1_0000 % 16 else if n == 5 then x / 0x10_0000 % 16
    else if n == 6 then x / 0x100_0000 % 16 else if n == 7 then x / 0x1000_0000 % 16 else x / 0x1_0000_0000 % 16
  }

  function StartRow(pass: nat): nat
    requires pass < PASSES
  {
    Shl(1 - pass % 2, 3 - pass / 2) % 8
  }

  function StartCol(pass: nat): nat
    requires pass < PASSES
  {
    Shl(pass % 2, 3 - (pass + 1) / 2) % 8
  }

  function RowShift(pass: nat): nat
    requires pass < PASSES
  {
    if pass > 2 then (8 - pass) / 2 else 3
  }

  function ColShift(pass: nat): nat
    requires pass < PASSES
  {
    if pass > 1 then (7 - pass) / 2 else 3
  }

  /** A pass as every `step`-th row and column from a first one on. */
  datatype Place = Place(firstRow: nat, rowStep: nat, firstCol: nat, colStep: nat)

  function PlaceOf(pass: nat): Place
    requires pass < PASSES
  {
    if pass == 0 then Place(0, 8, 0, 8)
    else if pass == 1 then Place(0, 8, 4, 8)
    else if pass == 2 then Place(4, 8, 0, 4)
    else if pass == 3 then Place(0, 4, 2, 4)
    else if pass == 4 then Place(2, 4, 0, 2)
    else if pass == 5 then Place(0, 2, 1, 2)
    else Place(1, 2, 0, 1)
  }

  /** The shift macros say the same. */
  lemma Geometry(pass: nat)
    requires pass < PASSES
    ensures RowShift(pass) <= 3 && ColShift(pass) <= 3
    ensures PlaceOf(pass) == Place(StartRow(pass), Shl(1, RowShift(pass)), StartCol(pass), Shl(1, ColShift(pass)))
  {
    if pass == 0 {
    } else if pass == 1 {
    } else if pass == 2 {
    } else if pass == 3 {
    } else if pass == 4 {
    } else if pass == 5 {
    } else {
      assert pass == 6;
    }
  }

  /** The number of rows of a pass in an image of the given height. */
  function PassRows(height: nat, pass: nat): nat
    requires pass < PASSES
  {
    Geometry(pass);
    Shr((height + (Shl(1, RowShift(pass)) - 1 - StartRow(pass))) % TWO_32, RowShift(pass))
  }

  function PassCols(width: nat, pass: nat): nat
    requires pass < PASSES
  {
    Geometry(pass);
    Shr((width + (Shl(1, ColShift(pass)) - 1 - StartCol(pass))) % TWO_32, ColShift(pass))
  }

  /** The image row of row `y` of a pass. */
  function RowFromPassRow(y: nat, pass: nat): nat
    requires pass < PASSES
  {
    (Shl(y, RowShift(pass)) + StartRow(pass)) % TWO_32
  }

  function ColFromPassCol(x: nat, pass: nat): nat
    requires pass < PASSES
  {
    (Shl(x, ColShift(pass)) + StartCol(pass)) % TWO_32
  }

  /** The mask macro: bit k says whether row (`off` 0) or column (`off` 1) k of a tile is in the pass. */
  function PassMask(pass: nat, off: nat): nat
    requires pass < PASSES && off < 2
  {
    Digit(0x110145AF, 7 - off - pass) + Digit(0x01145AF0, 8 - off - pass) * 16
  }

  predicate RowInPass(y: nat, pass: nat)
    requires pass < PASSES
  {
    Shr(PassMask(pass, 0), y % 8) % 2 == 1
  }

  predicate ColInPass(x: nat, pass: nat)
    requires pass < PASSES
  {
    Shr(PassMask(pass, 1), x % 8) % 2 == 1
  }

  // ---- One pass for every pixel ------------------------------------------------------------------------

  lemma Digits()
    ensures && Digit(0x110145AF, 0) == 0xF && Digit(0x110145AF, 1) == 0xA && Digit(0x110145AF, 2) == 5
            && Digit(0x110145AF, 3) == 4
    ensures && Digit(0x110145AF, 4) == 1 && Digit(0x110145AF, 5) == 0 && Digit(0x110145AF, 6) == 1
            && Digit(0x110145AF, 7) == 1
    ensures && Digit(0x01145AF0, 1) == 0xF && Digit(0x01145AF0, 2) == 0xA && Digit(0x01145AF0, 3) == 5
            && Digit(0x01145AF0, 4) == 4
    ensures && Digit(0x01145AF0, 5) == 1 && Digit(0x01145AF0, 6) == 1 && Digit(0x01145AF0, 7) == 0
            && Digit(0x01145AF0, 8) == 0
  {
  }

  lemma Masks(pass: nat)
    requires pass < PASSES
    ensures PassMask(pass, 0) == if pass <= 1 then 0x01 else if pass == 2 then 0x10 else if pass == 3 then 0x11
                                 else if pass == 4 then 0x44 else if pass == 5 then 0x55 else 0xAA
    ensures PassMask(pass, 1) == if pass == 0 then 0x01 else if pass == 1 then 0x10 else if pass == 2 then 0x11
                                 else if pass == 3 then 0x44 else if pass == 4 then 0x55
                                 else if pass == 5 then 0xAA else 0xFF
  {
    hide Digit;
    Digits();
    if pass == 0 {
    } else if pass == 1 {
    } else if pass == 2 {
    } else if pass == 3 {
    } else if pass == 4 {
    } else if pass == 5 {
    } else {
      assert pass == 6;
    }
  }

  /** The bits of those masks. */
  lemma Bits(k: nat)
    requires k < 8
    ensures Shr(0x01, k) % 2 == 1 <==> k == 0
    ensures Shr(0x10, k) % 2 == 1 <==> k == 4
    ensures Shr(0x11, k) % 2 == 1 <==> k == 0 || k == 4
    ensures Shr(0x44, k) % 2 == 1 <==> k == 2 || k == 6
    ensures Shr(0x55, k) % 2 == 1 <==> k == 0 || k == 2 || k == 4 || k == 6
    ensures Shr(0xAA, k) % 2 == 1 <==> k == 1 || k == 3 || k == 5 || k == 7
    ensures Shr(0xFF, k) % 2 == 1
  {
  }

  /** Remainders by smaller steps are those of the place within a tile. */
  lemma Tile(y: nat)
    ensures var k := y % 8;
            y % 4 == (if k < 4 then k else k - 4) && y % 2 == (if k in {0, 2, 4, 6} then 0 else 1)
  {
    var q, k := y / 8, y % 8;
    var four := if k < 4 then k else k - 4;
    FixedMath.QuotientUnique(y, 4, if k < 4 then 2 * q else 2 * q + 1, four);
    var a := if k < 2 then 0 else if k < 4 then 1 else if k < 6 then 2 else 3;
    FixedMath.QuotientUnique(y, 2, 4 * q + a, k - 2 * a);
  }

  /** The row mask of a pass has the rows of a tile that are its first row modulo its step. */
  lemma RowMask(y: nat, pass: nat)
    requires pass < PASSES
    ensures RowInPass(y, pass) <==> y % PlaceOf(pass).rowStep == PlaceOf(pass).firstRow
  {
    hide PassMask, Shr;
    Masks(pass);
    Bits(y % 8);
    Tile(y);
    if pass <= 1 {
    } else if pass == 2 {
    } else if pass == 3 {
    } else if pass == 4 {
    } else {
    }
  }

  lemma ColMask(x: nat, pass: nat)
    requires pass < PASSES
    ensures ColInPass(x, pass) <==> x % PlaceOf(pass).colStep == PlaceOf(pass).firstCol
  {
    hide PassMask, Shr;
    Masks(pass);
    Bits(x % 8);
    Tile(x);
    if pass == 0 {
    } else if pass == 1 {
    } else if pass == 2 {
    } else if pass == 3 {
    } else if pass == 4 {
    } else {
    }
  }

  /** The pass of each pixel of a tile as the specification draws it. */
  function PassOf(x: nat, y: nat): nat {
    if y % 2 == 1 then 6
    else if x % 2 == 1 then 5
    else if y % 4 == 2 then 4
    else if x % 4 == 2 then 3
    else if y % 8 == 4 then 2
    else if x % 8 == 4 then 1
    else 0
  }

  /** Every pixel is in exactly one pass. */
  lemma ExactlyOnePass(x: nat, y: nat, pass: nat)
    requires pass < PASSES
    ensures RowInPass(y, pass) && ColInPass(x, pass) <==> pass == PassOf(x, y)
  {
    hide RowInPass, ColInPass;
    RowMask(y, pass);
    ColMask(x, pass);
    Tile(x);
    Tile(y);
    if pass == 0 {
    } else if pass == 1 {
    } else if pass == 2 {
    } else if pass == 3 {
    } else if pass == 4 {
    } else {
    }
  }

  // ---- Rows and columns of a pass -----------------------------------------------------------------------

  /** How many of the numbers below `n` are `first` modulo `step`. */
  function Count(n: nat, first: nat, step: nat): int
    requires first < step
  {
    (n + (step - 1 - first)) / step
  }

  /** Shifts are multiplication and division by the step. */
  lemma ShiftStep(x: nat, n: nat)
    requires n <= 3
    ensures Shl(x, n) == x * Shl(1, n) && Shr(x, n) == x / Shl(1, n) && Shl(1, n) in {1, 2, 4, 8}
  {
  }

  /** The sum that the count of a pass is computed from stays within 32 bits. */
  predicate Fits(n: nat, first: nat, step: nat) {
    n + (step - 1 - first) < TWO_32
  }

  /** A sum that does not fit wraps around to less than one step. */
  lemma WrappedCount(n: nat, first: nat, step: nat)
    requires first < step && step in {1, 2, 4, 8} && n < TWO_32 && !Fits(n, first, step)
    ensures (n + (step - 1 - first)) % TWO_32 / step == 0 && Count(n, first, step) > 0
  {
    var m := n + (step - 1 - first);
    assert m - TWO_32 < step;
    FixedMath.QuotientUnique(m, TWO_32, 1, m - TWO_32);
    FixedMath.QuotientUnique(m - TWO_32, step, 0, m - TWO_32);
    Divided(m, step);
  }

  lemma RowSum(height: nat, pass: nat)
    requires pass < PASSES
    ensures var p := PlaceOf(pass);
            && p.firstRow < p.rowStep && p.rowStep in {2, 4, 8}
            && PassRows(height, pass) == (height + (p.rowStep - 1 - p.firstRow)) % TWO_32 / p.rowStep
  {
    hide Shl, Shr, StartRow, RowShift;
    Geometry(pass);
    var p := PlaceOf(pass);
    ShiftStep((height + (p.rowStep - 1 - p.firstRow)) % TWO_32, RowShift(pass));
  }

  lemma ColSum(width: nat, pass: nat)
    requires pass < PASSES
    ensures var p := PlaceOf(pass);
            && p.firstCol < p.colStep && p.colStep in {1, 2, 4, 8}
            && PassCols(width, pass) == (width + (p.colStep - 1 - p.firstCol)) % TWO_32 / p.colStep
  {
    hide Shl, Shr, StartCol, ColShift;
    Geometry(pass);
    var p := PlaceOf(pass);
    ShiftStep((width + (p.colStep - 1 - p.firstCol)) % TWO_32, ColShift(pass));
  }

  /** PASS_ROWS counts the rows of a pass exactly if its sum fits into 32 bits. */
  lemma RowCount(height: nat, pass: nat)
    requires pass < PASSES && height < TWO_32
    ensures var p := PlaceOf(pass);
            && p.firstRow < p.rowStep && p.rowStep in {2, 4, 8}
            && (PassRows(height, pass) == Count(height, p.firstRow, p.rowStep) <==> Fits(height, p.firstRow, p.rowStep))
  {
    hide PassRows, PlaceOf;
    RowSum(height, pass);
    var p := PlaceOf(pass);
    if !Fits(height, p.firstRow, p.rowStep) {
      WrappedCount(height, p.firstRow, p.rowStep);
    }
  }

  /** The tallest image has no row in the first pass, by PASS_ROWS. */
  lemma TallestMiscounted()
    ensures PassRows(0xffff_ffff, 0) == 0 && Count(0xffff_ffff, 0, 8) == 0x2000_0000
  {
  }

  lemma ColCount(width: nat, pass: nat)
    requires pass < PASSES && width < TWO_32
    ensures var p := PlaceOf(pass);
            && p.firstCol < p.colStep && p.colStep in {1, 2, 4, 8}
            && (PassCols(width, pass) == Count(width, p.firstCol, p.colStep) <==> Fits(width, p.firstCol, p.colStep))
  {
    hide PassCols, PlaceOf;
    ColSum(width, pass);
    var p := PlaceOf(pass);
    if !Fits(width, p.firstCol, p.colStep) {
      WrappedCount(width, p.firstCol, p.colStep);
    }
  }

  lemma RowAt(y: nat, pass: nat)
    requires pass < PASSES
    ensures RowFromPassRow(y, pass) == (y * PlaceOf(pass).rowStep + PlaceOf(pass).firstRow) % TWO_32
  {
    hide Shl, StartRow, RowShift, PlaceOf;
    Geometry(pass);
    ShiftStep(y, RowShift(pass));
  }

  lemma ColAt(x: nat, pass: nat)
    requires pass < PASSES
    ensures ColFromPassCol(x, pass) == (x * PlaceOf(pass).colStep + PlaceOf(pass).firstCol) % TWO_32
  {
    hide Shl, StartCol, ColShift, PlaceOf;
    Geometry(pass);
    ShiftStep(x, ColShift(pass));
  }

  /** Those numbers: how many are below `n`, what the k-th is, and that each is one of them. */
  lemma Progression(n: nat, first: nat, step: nat, k: nat)
    requires first < step
    ensures k < Count(n, first, step) <==> k * step + first < n
    ensures (k * step + first) % step == first && (k * step + first) / step == k
    ensures n % step == first ==> n / step * step + first == n
  {
    var m := n + (step - 1 - first);
    Divided(m, step);
    Divided(n, step);
    assert (k + 1) * step == k * step + step;
    FixedMath.MulMono(k + 1, m / step, step);
    FixedMath.MulMono(m / step, k, step);
    FixedMath.QuotientUnique(k * step + first, step, k, first);
  }

  /** The k-th of them, and the place of `x` among them, in 32-bit arithmetic. */
  lemma Enumerated(n: nat, first: nat, step: nat, k: nat, x: nat)
    requires first < step && n < TWO_32
    ensures k < Count(n, first, step) ==>
              var at := (k * step + first) % TWO_32;
              at < n && at % step == first && at / step == k
    ensures x < n && x % step == first ==> x / step < Count(n, first, step) && (x / step * step + first) % TWO_32 == x
  {
    hide Count;
    Progression(n, first, step, k);
    InWord(k * step + first);
    if x < n && x % step == first {
      Divided(x, step);
      Progression(n, first, step, x / step);
      InWord(x);
    }
  }

  lemma InWord(x: nat)
    ensures x < TWO_32 ==> x % TWO_32 == x
  {
  }

  /**
   The rows of a pass are, in order, the image rows that belong to it: as many as PASS_ROWS says,
   each found by ROW_FROM_PASS_ROW, and none found twice or left out.
   */
  lemma RowsOfPass(height: nat, pass: nat, y: nat, row: nat)
    requires pass < PASSES && height < TWO_32 && Fits(height, PlaceOf(pass).firstRow, PlaceOf(pass).rowStep)
    ensures var step := PlaceOf(pass).rowStep;
            && (y < PassRows(height, pass) ==>
                  && RowFromPassRow(y, pass) < height && RowInPass(RowFromPassRow(y, pass), pass)
                  && RowFromPassRow(y, pass) / step == y)
            && (row < height && RowInPass(row, pass) ==>
                  row / step < PassRows(height, pass) && RowFromPassRow(row / step, pass) == row)
  {
    hide RowInPass, PlaceOf, PassRows, RowFromPassRow, Count, Fits;
    var p := PlaceOf(pass);
    RowCount(height, pass);
    Enumerated(height, p.firstRow, p.rowStep, y, row);
    RowAt(y, pass);
    RowAt(row / p.rowStep, pass);
    RowMask(RowFromPassRow(y, pass), pass);
    RowMask(row, pass);
  }

  lemma ColsOfPass(width: nat, pass: nat, x: nat, col: nat)
    requires pass < PASSES && width < TWO_32 && Fits(width, PlaceOf(pass).firstCol, PlaceOf(pass).colStep)
    ensures var step := PlaceOf(pass).colStep;
            && (x < PassCols(width, pass) ==>
                  && ColFromPassCol(x, pass) < width && ColInPass(ColFromPassCol(x, pass), pass)
                  && ColFromPassCol(x, pass) / step == x)
            && (col < width && ColInPass(col, pass) ==>
                  col / step < PassCols(width, pass) && ColFromPassCol(col / step, pass) == col)
  {
    hide ColInPass, PlaceOf, PassCols, ColFromPassCol, Count, Fits;
    var p := PlaceOf(pass);
    ColCount(width, pass);
    Enumerated(width, p.firstCol, p.colStep, x, col);
    ColAt(x, pass);
    ColAt(col / p.colStep, pass);
    ColMask(ColFromPassCol(x, pass), pass);
    ColMask(col, pass);
  }

  /** Every image that the format allows fits, and every one up to 2^32 - 8. */
  const MAX_SIZE: nat := TWO_32 - 8

  // ---- The passes add up --------------------------------------------------------------------------------

  lemma CountIs(n: nat, first: nat, step: nat, q: nat, r: nat)
    requires first < step && r < step && n == q * step + r
    ensures Count(n, first, step) == if r <= first then q else q + 1
  {
    var m := n + (step - 1 - first);
    assert (q + 1) * step == q * step + step;
    if r <= first {
      FixedMath.QuotientUnique(m, step, q, r + (step - 1 - first));
    } else {
      FixedMath.QuotientUnique(m, step, q + 1, r - 1 - first);
    }
  }

  /** Counting every `step`-th number is counting every second of those, from the first and from the next on. */
  lemma Halves(n: nat, first: nat, step: nat)
    requires first < step
    ensures Count(n, first, step) == Count(n, first, 2 * step) + Count(n, first + step, 2 * step)
  {
    Divided(n, 2 * step);
    HalvesAt(n, first, step, n / (2 * step), n % (2 * step));
  }

  lemma Divided(n: nat, m: nat)
    requires m > 0
    ensures n == n / m * m + n % m && 0 <= n / m && 0 <= n % m < m
  {
  }

  lemma HalvesAt(n: nat, first: nat, step: nat, q: nat, r: nat)
    requires first < step && r < 2 * step && n == q * (2 * step) + r
    ensures Count(n, first, step) == Count(n, first, 2 * step) + Count(n, first + step, 2 * step)
  {
    hide Count;
    Twice(q, step);
    CountIs(n, first, 2 * step, q, r);
    CountIs(n, first + step, 2 * step, q, r);
    if r < step {
      CountIs(n, first, step, 2 * q, r);
    } else {
      CountIs(n, first, step, 2 * q + 1, r - step);
    }
  }

  lemma Twice(q: nat, step: nat)
    ensures q * (2 * step) == 2 * q * step && (2 * q + 1) * step == 2 * q * step + step
  {
  }

  lemma RowsSplit(height: nat)
    requires height <= MAX_SIZE
    ensures PassRows(height, 1) == PassRows(height, 0)
    ensures PassRows(height, 3) == PassRows(height, 0) + PassRows(height, 2)
    ensures PassRows(height, 5) == PassRows(height, 3) + PassRows(height, 4)
    ensures height == PassRows(height, 5) + PassRows(height, 6)
  {
    hide PassRows, Count;
    RowCount(height, 0);
    RowCount(height, 1);
    RowCount(height, 2);
    RowCount(height, 3);
    RowCount(height, 4);
    RowCount(height, 5);
    RowCount(height, 6);
    Halves(height, 0, 1);
    Halves(height, 0, 2);
    Halves(height, 0, 4);
    CountIs(height, 0, 1, height, 0);
  }

  lemma ColsSplit(width: nat)
    requires width <= MAX_SIZE
    ensures PassCols(width, 2) == PassCols(width, 0) + PassCols(width, 1)
    ensures PassCols(width, 4) == PassCols(width, 2) + PassCols(width, 3)
    ensures width == PassCols(width, 6) == PassCols(width, 4) + PassCols(width, 5)
  {
    hide PassCols, Count;
    ColCount(width, 0);
    ColCount(width, 1);
    ColCount(width, 2);
    ColCount(width, 3);
    ColCount(width, 4);
    ColCount(width, 5);
    ColCount(width, 6);
    Halves(width, 0, 1);
    Halves(width, 0, 2);
    Halves(width, 0, 4);
    CountIs(width, 0, 1, width, 0);
  }

  function Pixels(width: nat, height: nat, pass: nat): int
    requires pass < PASSES
  {
    PassRows(height, pass) * PassCols(width, pass)
  }

  /** Alternately joining columns and rows of the rectangles. */
  lemma Gather(r80: int, r84: int, r42: int, r21: int, c80: int, c84: int, c42: int, c21: int)
    ensures var r40, c40 := r80 + r84, c80 + c84;
            var r20, c20 := r40 + r42, c40 + c42;
            r80 * c80 + r80 * c84 + r84 * c40 + r40 * c42 + r42 * c20 + r20 * c21 + r21 * (c20 + c21)
            == (c20 + c21) * (r20 + r21)
  {
  }

  /** The seven passes together have as many pixels as the image. */
  lemma PixelsAddUp(width: nat, height: nat)
    requires width <= MAX_SIZE && height <= MAX_SIZE
    ensures Pixels(width, height, 0) + Pixels(width, height, 1) + Pixels(width, height, 2) + Pixels(width, height, 3)
            + Pixels(width, height, 4) + Pixels(width, height, 5) + Pixels(width, height, 6) == width * height
  {
    hide PassRows, PassCols;
    RowsSplit(height);
    ColsSplit(width);
    Gather(PassRows(height, 0), PassRows(height, 2), PassRows(height, 4), PassRows(height, 6),
           PassCols(width, 0), PassCols(width, 1), PassCols(width, 3), PassCols(width, 5));
  }
}
