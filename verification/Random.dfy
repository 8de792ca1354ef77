/**
 The Lehmer pseudo-random generator of external/libdrm/xf86drmRandom.c.

 `RandomState.Draw` computes one step with Schrage's decomposition, so that no intermediate
 value leaves the signed 32-bit range.  The lemmas tie a whole sequence of draws to powers of
 the multiplier and show that the step permutes 1..M-1.
 */
module Random {
  const A: int := 48271
  const M: int := 2147483647
  const Q: int := M / A
  const R: int := M % A

  /** The multiplicative inverse of A modulo M. */
  const A_INVERSE: int := 1899818559

  const INT_MAX: int := 0x7fff_ffff

  predicate IsSeed(s: int) {
    1 <= s < M
  }

  /** The textbook definition of one step: one modular multiplication. */
  function Step(s: int): int {
    A * s % M
  }

  function Unstep(s: int): int {
    A_INVERSE * s % M
  }

  /** The state after `n` steps from `s`. */
  function Iterate(s: int, n: nat): int {
    if n == 0 then s else Step(Iterate(s, n - 1))
  }

  function Power(n: nat): (p: int)
    ensures p >= 1
  {
    if n == 0 then 1 else A * Power(n - 1)
  }

  /** A 64-bit word read as a signed number. */
  function Signed(word: nat): int {
    if word < 0x8000_0000_0000_0000 then word as int else word - 0x1_0000_0000_0000_0000
  }

  /** The start seed: the argument read as a signed long, moved to the closest legal value. */
  function ClampSeed(seed: nat): (s: int)
    ensures IsSeed(s)
    ensures IsSeed(seed) ==> s == seed
  {
    if Signed(seed) <= 0 then 1 else if Signed(seed) >= M then M - 1 else Signed(seed)
  }

  function Distance(x: int, y: int): nat {
    if x < y then y - x else x - y
  }

  /** No legal seed is closer. */
  lemma ClampsToClosest(seed: nat, s: int)
    requires IsSeed(s)
    ensures Distance(Signed(seed), ClampSeed(seed)) <= Distance(Signed(seed), s)
  {
  }

  class RandomState {
    var seed: int

    ghost predicate Valid()
      reads this
    {
      IsSeed(seed)
    }

    constructor (start: nat)
      requires start < 0x1_0000_0000_0000_0000
      ensures Valid()
      ensures seed == ClampSeed(start)
      ensures forall s :: IsSeed(s) ==> Distance(Signed(start), seed) <= Distance(Signed(start), s)
    {
      var s := if start < 0x8000_0000_0000_0000 then start as int else start - 0x1_0000_0000_0000_0000;
      if s <= 0 {
        s := 1;
      }
      if s >= M {
        s := M - 1;
      }
      seed := s;
    }

    /** drmRandom: one Schrage step, with every intermediate value inside signed 32 bits. */
    method Draw() returns (r: int)
      requires Valid()
      modifies this
      ensures Valid()
      ensures seed == Step(old(seed)) && r == seed
    {
      var hi := seed / Q;
      var lo := seed % Q;
      SchrageBounds(seed);
      Schrage(seed);
      assert 0 <= A * lo <= INT_MAX && 0 <= R * hi <= INT_MAX;
      assert -INT_MAX <= A * lo - R * hi <= INT_MAX;
      seed := A * lo - R * hi;
      if seed <= 0 {
        seed := seed + M;
      }
      r := seed;
    }
  }

  /** Adding a multiple of M does not change a residue. */
  lemma ModUnique(x: int, y: int, k: int)
    requires x == y + k * M
    ensures x % M == y % M
  {
    var qx, qy := x / M, y / M;
    assert x == qx * M + x % M && y == qy * M + y % M;
    assert (qx - qy - k) * M == y % M - x % M;
  }

  lemma MulMod(a: int, b: int)
    ensures (a * (b % M)) % M == (a * b) % M
  {
    assert a * b == a * (b % M) + a * (b / M) * M by {
      assert b == b / M * M + b % M;
    }
    ModUnique(a * b, a * (b % M), a * (b / M));
  }

  /** A_INVERSE undoes A, in either order. */
  lemma StepBijective(s: int)
    requires IsSeed(s)
    ensures IsSeed(Step(s)) && Unstep(Step(s)) == s
    ensures IsSeed(Unstep(s)) && Step(Unstep(s)) == s
  {
    assert A_INVERSE * A == 1 + 42704 * M;
    MulMod(A_INVERSE, A * s);
    assert A_INVERSE * (A * s) == s + 42704 * s * M;
    ModUnique(A_INVERSE * (A * s), s, 42704 * s);
    MulMod(A, A_INVERSE * s);
    assert A * (A_INVERSE * s) == s + 42704 * s * M;
    ModUnique(A * (A_INVERSE * s), s, 42704 * s);
  }

  lemma SchrageBounds(s: int)
    requires IsSeed(s)
    ensures 0 <= A * (s % Q) < M && 0 <= R * (s / Q) < M
    ensures A * s == A * (s % Q) - R * (s / Q) + s / Q * M
  {
    var hi, lo := s / Q, s % Q;
    assert Q == 44488 && R == 3399;
    assert s == Q * hi + lo;
    assert hi <= 48272;
  }

  /** Schrage's decomposition yields the residue of A * s, shifted by M at most once. */
  lemma Schrage(s: int)
    requires IsSeed(s)
    ensures var t := A * (s % Q) - R * (s / Q);
            (if t <= 0 then t + M else t) == Step(s)
  {
    SchrageBounds(s);
    var t := A * (s % Q) - R * (s / Q);
    StepBijective(s);
    Residue(A * s, t, s / Q);
  }

  /** A number in the open interval (-M, M) is a non-zero residue or falls short of it by M. */
  lemma Residue(x: int, t: int, k: int)
    requires x == t + k * M && -M < t < M && x % M != 0
    ensures (if t <= 0 then t + M else t) == x % M
  {
    ModUnique(x, t, k);
    ModUnique(t + M, t, 1);
  }

  lemma StepOf(p: int, s: int)
    ensures Step(p * s % M) == A * p * s % M
  {
    MulMod(A, p * s);
    assert A * (p * s) == A * p * s;
  }

  /** After `n` draws the seed is A^n times the start seed, modulo M, and still a legal seed. */
  lemma {:induction false} ClosedForm(s: int, n: nat)
    requires IsSeed(s)
    ensures Iterate(s, n) == Power(n) * s % M
    ensures IsSeed(Iterate(s, n))
  {
    hide Step;
    if n == 0 {
    } else {
      ClosedForm(s, n - 1);
      StepBijective(Iterate(s, n - 1));
      StepOf(Power(n - 1), s);
    }
  }

  lemma {:induction false} IterateAdds(s: int, i: nat, k: nat)
    ensures Iterate(s, i + k) == Iterate(Iterate(s, i), k)
  {
    if k == 0 {
    } else {
      IterateAdds(s, i, k - 1);
    }
  }

  /** Two equal states in one sequence have equal states before them. */
  lemma {:induction false} Rewind(s: int, i: nat, k: nat)
    requires IsSeed(s) && Iterate(s, i) == Iterate(s, i + k)
    ensures Iterate(s, k) == s
  {
    if i == 0 {
    } else {
      ClosedForm(s, i - 1);
      ClosedForm(s, i - 1 + k);
      StepBijective(Iterate(s, i - 1));
      StepBijective(Iterate(s, i - 1 + k));
      Rewind(s, i - 1, k);
    }
  }
}
