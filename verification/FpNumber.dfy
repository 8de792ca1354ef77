/**
 The number-text automaton of external/libpng/png.c: png_check_fp_number and png_check_fp_string.

 `CheckNumber` runs the automaton over a buffer; `Parts` describes the text of a (possibly unfinished)
 number by its pieces.  The automaton can stand behind a text exactly when the text has such
 pieces, and the state it is then in is a function of the pieces (`StateOf`).
 */
module FpNumber {
  import opened Bytes

  datatype Phase = Integer | Fraction | Exponent

  /** The parser state: a phase, the flags seen within it, and the three sticky flags. */
  datatype State = State(phase: Phase, sawSign: bool, sawDigit: bool, sawDot: bool,
                         wasValid: bool, negative: bool, nonzero: bool)

  const START := State(Integer, false, false, false, false, false, false)

  const PLUS: int := 43
  const MINUS: int := 45
  const DOT: int := 46
  const ZERO: int := 48
  const NINE: int := 57
  const UPPER_E: int := 69
  const LOWER_E: int := 101

  function Bit(flag: bool, value: int): int {
    if flag then value else 0
  }

  /** The state as the integer that the source keeps it in (external/libpng/pngpriv.h). */
  function Code(st: State): int {
    (match st.phase case Integer => 0 case Fraction => 1 case Exponent => 2)
    + Bit(st.sawSign, 4) + Bit(st.sawDigit, 8) + Bit(st.sawDot, 16)
    + Bit(st.wasValid, 64) + Bit(st.negative, 128) + Bit(st.nonzero, 256)
  }

  predicate IsDigit(c: int) {
    ZERO <= c <= NINE
  }

  predicate IsSign(c: int) {
    c == PLUS || c == MINUS
  }

  predicate IsE(c: int) {
    c == UPPER_E || c == LOWER_E
  }

  /** png_fp_set: a new phase with no flags but the sticky ones. */
  function Enter(st: State, phase: Phase, sawDot: bool): State {
    State(phase, false, false, sawDot, st.wasValid, st.negative, st.nonzero)
  }

  /** One character; None when it is not part of the number. */
  function Step(st: State, c: int): Option<State> {
    if IsSign(c) then
      if st.phase == Fraction || st.sawSign || st.sawDigit || st.sawDot then None
      else if st.phase == Integer then Some(st.(sawSign := true, negative := st.negative || c == MINUS))
      else Some(st.(sawSign := true))
    else if c == DOT then
      if st.phase != Integer || st.sawDot then None
      else if st.sawDigit then Some(st.(sawDot := true))
      else Some(Enter(st, Fraction, true))
    else if IsDigit(c) then
      if st.phase == Exponent then Some(st.(sawDigit := true, wasValid := true))
      else
        var base := if st.phase == Integer && st.sawDot then Enter(st, Fraction, true) else st;
        Some(base.(sawDigit := true, wasValid := true, nonzero := base.nonzero || c != ZERO))
    else if IsE(c) then
      if st.phase == Exponent || !st.sawDigit then None else Some(Enter(st, Exponent, false))
    else None
  }

  /** The state and the index at which the automaton stops. */
  function Scan(s: seq<int>, size: nat, st: State, i: nat): (State, nat)
    requires i <= size <= |s|
    decreases size - i
  {
    if i == size then (st, i)
    else match Step(st, s[i])
      case None => (st, i)
      case Some(next) => Scan(s, size, next, i + 1)
  }

  /** png_check_fp_number. */
  method CheckNumber(s: seq<int>, size: nat, st0: State, i0: nat) returns (ok: bool, st: State, i: nat)
    requires i0 <= size <= |s|
    ensures (st, i) == Scan(s, size, st0, i0) && i0 <= i <= size
    ensures ok == st.sawDigit
  {
    st, i := st0, i0;
    while i < size
      invariant i0 <= i <= size
      invariant Scan(s, size, st, i) == Scan(s, size, st0, i0)
    {
      var next := Step(st, s[i]);
      if next.None? {
        break;
      }
      st, i := next.value, i + 1;
    }
    ok := st.sawDigit;
  }

  // ---- The grammar -------------------------------------------------------------------------------

  /** The pieces of a number's text: sign? whole (. frac)? (e esign? edigits)?, possibly cut short. */
  datatype Parts = Parts(sign: seq<int>, whole: seq<int>, dot: bool, frac: seq<int>,
                         e: seq<int>, esign: seq<int>, edigits: seq<int>)

  predicate Digits(s: seq<int>) {
    forall i :: 0 <= i < |s| ==> IsDigit(s[i])
  }

  predicate OptionalSign(s: seq<int>) {
    s == [] || (|s| == 1 && IsSign(s[0]))
  }

  predicate OptionalE(s: seq<int>) {
    s == [] || (|s| == 1 && IsE(s[0]))
  }

  predicate WellFormed(p: Parts) {
    && OptionalSign(p.sign) && Digits(p.whole) && Digits(p.frac)
    && OptionalE(p.e) && OptionalSign(p.esign) && Digits(p.edigits)
    && (p.frac != [] ==> p.dot)
    && (p.e != [] ==> p.whole != [] || p.frac != [])
    && (p.esign != [] || p.edigits != [] ==> p.e != [])
  }

  /** All of sign? (digits (. digits*)? | . digits) (E sign? digits)? is there. */
  predicate Complete(p: Parts) {
    (p.whole != [] || p.frac != []) && (p.e != [] ==> p.edigits != [])
  }

  function Mantissa(p: Parts): seq<int> {
    p.sign + p.whole + (if p.dot then [DOT] else []) + p.frac
  }

  function Power(p: Parts): seq<int> {
    p.e + p.esign + p.edigits
  }

  function Text(p: Parts): seq<int> {
    Mantissa(p) + Power(p)
  }

  ghost predicate IsNumber(text: seq<int>) {
    exists p :: WellFormed(p) && Complete(p) && Text(p) == text
  }

  predicate HasNonzero(s: seq<int>) {
    exists i :: 0 <= i < |s| && s[i] != ZERO
  }

  /** The state that the automaton is in behind the text of `p`. */
  function StateOf(p: Parts): State {
    var sticky := State(Integer, false, false, false, p.whole != [] || p.frac != [],
                        p.sign == [MINUS], HasNonzero(p.whole) || HasNonzero(p.frac));
    if p.e != [] then
      sticky.(phase := Exponent, sawSign := p.esign != [], sawDigit := p.edigits != [])
    else if p.dot && (p.whole == [] || p.frac != []) then
      sticky.(phase := Fraction, sawDot := true, sawDigit := p.frac != [])
    else
      sticky.(sawSign := p.sign != [], sawDigit := p.whole != [], sawDot := p.dot)
  }

  /** The pieces after one more character that the automaton accepts. */
  function Extend(p: Parts, c: int): Parts {
    if IsSign(c) then
      if p.e != [] then p.(esign := [c]) else p.(sign := [c])
    else if c == DOT then p.(dot := true)
    else if IsDigit(c) then
      if p.e != [] then p.(edigits := p.edigits + [c])
      else if p.dot then p.(frac := p.frac + [c])
      else p.(whole := p.whole + [c])
    else p.(e := [c])
  }

  lemma NonzeroAppends(s: seq<int>, c: int)
    ensures HasNonzero(s + [c]) <==> HasNonzero(s) || c != ZERO
  {
    assert (s + [c])[|s|] == c;
    if HasNonzero(s) {
      var i :| 0 <= i < |s| && s[i] != ZERO;
      assert (s + [c])[i] != ZERO;
    }
  }

  lemma ExtendMantissa(p: Parts, c: int)
    requires WellFormed(p) && Step(StateOf(p), c).Some? && p.e == [] && !IsE(c)
    ensures Mantissa(Extend(p, c)) == Mantissa(p) + [c] && Power(Extend(p, c)) == Power(p)
  {
    if IsDigit(c) {
      if p.dot {
        assert p.sign + p.whole + [DOT] + (p.frac + [c]) == p.sign + p.whole + [DOT] + p.frac + [c];
      } else {
        assert p.sign + (p.whole + [c]) == p.sign + p.whole + [c];
      }
    }
  }

  lemma ExtendPower(p: Parts, c: int)
    requires WellFormed(p) && Step(StateOf(p), c).Some? && (p.e != [] || IsE(c))
    ensures Power(Extend(p, c)) == Power(p) + [c] && Mantissa(Extend(p, c)) == Mantissa(p)
  {
    if p.e != [] && IsDigit(c) {
      assert p.e + p.esign + (p.edigits + [c]) == p.e + p.esign + p.edigits + [c];
    }
  }

  lemma ExtendText(p: Parts, c: int)
    requires WellFormed(p) && Step(StateOf(p), c).Some?
    ensures Text(Extend(p, c)) == Text(p) + [c]
  {
    if p.e != [] || IsE(c) {
      ExtendPower(p, c);
      assert Mantissa(p) + (Power(p) + [c]) == Mantissa(p) + Power(p) + [c];
    } else {
      ExtendMantissa(p, c);
      assert Power(p) == [];
    }
  }

  lemma ExtendWellFormed(p: Parts, c: int)
    requires WellFormed(p) && Step(StateOf(p), c).Some?
    ensures WellFormed(Extend(p, c))
  {
  }

  lemma DigitExtends(p: Parts, c: int)
    requires WellFormed(p) && Step(StateOf(p), c).Some? && IsDigit(c)
    ensures Step(StateOf(p), c) == Some(StateOf(Extend(p, c)))
  {
    if p.e == [] {
      NonzeroAppends(if p.dot then p.frac else p.whole, c);
    }
  }

  /** The automaton follows the pieces: each accepted character extends them. */
  lemma StepExtends(p: Parts, c: int)
    requires WellFormed(p) && Step(StateOf(p), c).Some?
    ensures WellFormed(Extend(p, c))
    ensures Step(StateOf(p), c) == Some(StateOf(Extend(p, c)))
  {
    ExtendWellFormed(p, c);
    if IsDigit(c) {
      DigitExtends(p, c);
    }
  }

  /** The pieces without the last character. */
  function Shrink(p: Parts): Parts {
    if p.edigits != [] then p.(edigits := p.edigits[..|p.edigits| - 1])
    else if p.esign != [] then p.(esign := [])
    else if p.e != [] then p.(e := [])
    else if p.frac != [] then p.(frac := p.frac[..|p.frac| - 1])
    else if p.dot then p.(dot := false)
    else if p.whole != [] then p.(whole := p.whole[..|p.whole| - 1])
    else p.(sign := [])
  }

  /** The last character of the text. */
  function LastOf(p: Parts): int
    requires p.sign != [] || p.whole != [] || p.dot || p.frac != [] || p.e != [] || p.esign != [] || p.edigits != []
  {
    if p.edigits != [] then p.edigits[|p.edigits| - 1]
    else if p.esign != [] then p.esign[|p.esign| - 1]
    else if p.e != [] then p.e[|p.e| - 1]
    else if p.frac != [] then p.frac[|p.frac| - 1]
    else if p.dot then DOT
    else if p.whole != [] then p.whole[|p.whole| - 1]
    else p.sign[|p.sign| - 1]
  }

  lemma ShrinkWellFormed(p: Parts)
    requires WellFormed(p)
    ensures WellFormed(Shrink(p))
  {
  }

  lemma ShrinkExtends(p: Parts)
    requires WellFormed(p) && Text(p) != []
    ensures Extend(Shrink(p), LastOf(p)) == p
  {
    if p.edigits != [] {
      assert p.edigits[..|p.edigits| - 1] + [LastOf(p)] == p.edigits;
    } else if p.esign != [] {
      assert p.esign == [LastOf(p)];
    } else if p.e != [] {
      assert p.e == [LastOf(p)];
    } else if p.frac != [] {
      assert p.frac[..|p.frac| - 1] + [LastOf(p)] == p.frac;
    } else if p.dot {
    } else if p.whole != [] {
      assert p.whole[..|p.whole| - 1] + [LastOf(p)] == p.whole;
    } else {
      assert p.sign == [LastOf(p)];
    }
  }

  /** Every prefix of a well-formed text is well formed, and the automaton accepts what follows it. */
  lemma ShrinkSteps(p: Parts)
    requires WellFormed(p) && Text(p) != []
    ensures WellFormed(Shrink(p)) && Extend(Shrink(p), LastOf(p)) == p
    ensures Step(StateOf(Shrink(p)), LastOf(p)).Some?
  {
    ShrinkWellFormed(p);
    ShrinkExtends(p);
  }

  // ---- Whole texts ---------------------------------------------------------------------------------

  /** The state behind all of `t`, when no character of `t` is refused. */
  function Run(st: State, t: seq<int>): Option<State> {
    if t == [] then Some(st)
    else match Run(st, t[..|t| - 1])
      case None => None
      case Some(mid) => Step(mid, t[|t| - 1])
  }

  /** A text that the automaton runs through has pieces ... */
  lemma {:induction false} RunSound(t: seq<int>) returns (p: Parts)
    requires Run(START, t).Some?
    ensures WellFormed(p) && Text(p) == t && Run(START, t) == Some(StateOf(p))
  {
    if t == [] {
      p := Parts([], [], false, [], [], [], []);
    } else {
      var q := RunSound(t[..|t| - 1]);
      var c := t[|t| - 1];
      StepExtends(q, c);
      ExtendText(q, c);
      p := Extend(q, c);
    }
  }

  /** ... and every text that has pieces is run through, into the state the pieces say. */
  lemma {:induction false} RunComplete(p: Parts)
    requires WellFormed(p)
    ensures Run(START, Text(p)) == Some(StateOf(p))
    decreases |Text(p)|
  {
    var t := Text(p);
    if t == [] {
    } else {
      ShrinkSteps(p);
      var q := Shrink(p);
      ExtendText(q, LastOf(p));
      assert t[..|t| - 1] == Text(q);
      RunComplete(q);
      StepExtends(q, LastOf(p));
    }
  }

  /** Scanning is running up to the first refused character. */
  lemma {:induction false} ScanRuns(s: seq<int>, size: nat, st0: State, i0: nat, st: State, i: nat)
    requires i0 <= i <= size <= |s| && Run(st0, s[i0..i]) == Some(st)
    ensures var (end, j) := Scan(s, size, st, i);
            && i <= j <= size && Run(st0, s[i0..j]) == Some(end)
            && (j < size ==> Step(end, s[j]) == None)
    decreases size - i
  {
    if i < size {
      match Step(st, s[i])
      case None =>
      case Some(next) =>
        var t := s[i0..i + 1];
        assert t[..|t| - 1] == s[i0..i] && t[|t| - 1] == s[i];
        ScanRuns(s, size, st0, i0, next, i + 1);
    }
  }

  /** Stopping at any earlier size and resuming from the saved state and index equals one pass. */
  lemma {:induction false} Resume(s: seq<int>, k: nat, size: nat, st: State, i: nat)
    requires i <= k <= size <= |s|
    ensures var (mid, j) := Scan(s, k, st, i);
            i <= j <= k && Scan(s, size, mid, j) == Scan(s, size, st, i)
    decreases k - i
  {
    if i < k {
      match Step(st, s[i])
      case None =>
      case Some(next) => Resume(s, k, size, next, i + 1);
    }
  }

  /** A run that stops before the end of a text never gets through that text. */
  lemma {:induction false} StuckStays(st0: State, t: seq<int>, j: nat)
    requires j < |t| && Run(st0, t[..j]).Some? && Step(Run(st0, t[..j]).value, t[j]).None?
    ensures Run(st0, t).None?
    decreases |t|
  {
    if j + 1 == |t| {
    } else {
      var u := t[..|t| - 1];
      assert u[..j] == t[..j];
      StuckStays(st0, u, j);
    }
  }

  /** The characters before the first NUL. */
  function TextLength(s: seq<int>, size: nat): (n: nat)
    requires size <= |s|
    ensures n <= size && (n < size ==> s[n] == 0)
    ensures forall i :: 0 <= i < n ==> s[i] != 0
  {
    if size == 0 then 0
    else
      var n := TextLength(s, size - 1);
      if n < size - 1 || s[size - 1] == 0 then n else size
  }

  /** png_check_fp_string: accepts exactly the numbers, and returns the state that their pieces say. */
  method CheckString(s: seq<int>, size: nat) returns (r: int)
    requires size <= |s|
    ensures r != 0 <==> IsNumber(s[..TextLength(s, size)])
    ensures forall p :: WellFormed(p) && Complete(p) && Text(p) == s[..TextLength(s, size)] ==> r == Code(StateOf(p))
  {
    var ok, st, i := CheckNumber(s, size, START, 0);
    StringDecided(s, size);
    if ok && (i == size || s[i] == 0) {
      return Code(st);
    }
    return 0;
  }

  /** Where and how a scan of the whole buffer ends, against the grammar. */
  lemma StringDecided(s: seq<int>, size: nat)
    requires size <= |s|
    ensures var (st, i) := Scan(s, size, START, 0);
            var text := s[..TextLength(s, size)];
            && i <= size
            && (IsNumber(text) <==> st.sawDigit && (i == size || s[i] == 0))
            && forall p :: WellFormed(p) && Complete(p) && Text(p) == text ==> st == StateOf(p)
  {
    var (st, i) := Scan(s, size, START, 0);
    var n := TextLength(s, size);
    var text := s[..n];
    assert s[0..0] == [];
    ScanRuns(s, size, START, 0, START, 0);
    assert s[0..i] == s[..i];
    assert i <= n by {
      if n < i {
        NulRefused(START, s[..i], n);
      }
    }
    if i < n {
      assert text[..i] == s[..i];
      StuckStays(START, text, i);
    }
    if st.sawDigit && i == n {
      var p := RunSound(text);
      assert Complete(p);
    }
    forall p | WellFormed(p) && Complete(p) && Text(p) == text
      ensures st == StateOf(p) && st.sawDigit && i == n
    {
      RunComplete(p);
    }
  }

  lemma {:induction false} NulRefused(st0: State, t: seq<int>, n: nat)
    requires n < |t| && t[n] == 0
    ensures Run(st0, t).None?
    decreases |t|
  {
    if n == |t| - 1 {
    } else {
      NulRefused(st0, t[..|t| - 1], n);
    }
  }
}
