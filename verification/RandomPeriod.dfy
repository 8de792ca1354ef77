/**
 The period of the generator of external/libdrm/xf86drmRandom.c.

 48271 generates the residues modulo M: its power M - 1 is 1, and for no prime p that divides M - 1
 is its power (M - 1) / p.  These powers are computed digit by digit (`Climb`); `FullPeriod` then
 says that every sequence of draws runs through all M - 1 legal states before it repeats.
 */
module RandomPeriod {
  import opened Random
  import Collections

  const PERIOD: nat := M - 1
  const FACTORS: seq<nat> := [2, 3, 3, 7, 11, 31, 151, 331]

  ghost function Visited(s: int, n: nat): set<int> {
    set i | 0 <= i < n :: Iterate(s, i)
  }

  ghost function Range(n: nat): (r: set<int>)
    ensures |r| == n
    ensures forall x :: x in r <==> 1 <= x <= n
  {
    if n == 0 then {} else Range(n - 1) + {n as int}
  }

  lemma {:induction false} VisitedSize(s: int, n: nat)
    requires IsSeed(s)
    requires forall i, j :: 0 <= i < j < n ==> Iterate(s, i) != Iterate(s, j)
    ensures |Visited(s, n)| == n
  {
    hide Iterate;
    if n == 0 {
      assert Visited(s, 0) == {};
    } else {
      VisitedSize(s, n - 1);
      assert Iterate(s, n - 1) !in Visited(s, n - 1);
      assert Visited(s, n) == Visited(s, n - 1) + {Iterate(s, n - 1)};
    }
  }

  // ---- Divisors -------------------------------------------------------------------------------------

  ghost predicate IsPrime(p: nat) {
    p >= 2 && forall k {:trigger p % k} :: 1 < k < p ==> p % k != 0
  }

  function Product(ps: seq<nat>): nat {
    if ps == [] then 1 else ps[0] * Product(ps[1..])
  }

  /** Division with remainder of one factor of a product, read on the product. */
  lemma Reduced(d: nat, k: nat, m: int, p: nat) returns (t: nat, r: nat)
    requires d * k == m * p && IsPrime(p)
    ensures k == t * p + r && r < p && d * r == (m - d * t) * p
  {
    t, r := k / p, k % p;
    assert d * k == d * t * p + d * r;
  }

  lemma Swapped(d: nat, k: nat, m: int, p: nat) returns (r: nat, n: int)
    requires d * k == m * p && k > 1 && IsPrime(p) && k < p
    ensures 0 < r < k && d * r == n * p
  {
    var t: nat := p / k;
    r, n := p % k, d - t * m;
    assert p == t * k + r;
    assert d * (t * k) == t * (d * k);
    assert t * (d * k) == t * m * p;
  }

  /** Euclid's lemma: a prime that divides a product divides a factor. */
  lemma {:induction false} DividesFactor(p: nat, d: nat, k: nat, m: int) returns (q: int)
    requires IsPrime(p) && d * k == m * p
    ensures d == q * p || k == q * p
    decreases k
  {
    hide IsPrime;
    if k == 0 {
      q := 0;
    } else if k == 1 {
      q := m;
    } else if k < p {
      var r, n := Swapped(d, k, m, p);
      q := DividesFactor(p, d, r, n);
      Between(r, q, p);
    } else {
      var t, r := Reduced(d, k, m, p);
      q := DividesFactor(p, d, r, m - d * t);
      if d != q * p {
        q := q + t;
        assert q * p == (q - t) * p + t * p;
      }
    }
  }

  /** No multiple of `p` lies strictly between 0 and `p`. */
  lemma Between(r: nat, q: int, p: nat)
    requires 0 < r < p
    ensures r != q * p
  {
    if q >= 1 {
      assert (q - 1) * p >= 0;
    } else {
      assert -q * p >= 0;
    }
  }

  /** A divisor above 1 of a product of primes has one of them as a divisor. */
  lemma {:induction false} PrimeDivisor(ps: seq<nat>, d: nat, k: nat) returns (p: nat, q: int)
    requires forall x :: x in ps ==> IsPrime(x)
    requires d * k == Product(ps) && k > 1
    ensures p in ps && k == q * p
  {
    if ps == [] {
      assert false;
    } else {
      p := ps[0];
      var rest := Product(ps[1..]);
      assert d * k == rest * p;
      q := DividesFactor(p, d, k, rest);
      if k != q * p {
        Cancel(p, q, k, rest);
        p, q := PrimeDivisor(ps[1..], q, k);
      }
    }
  }

  lemma Cancel(p: nat, q: int, k: nat, rest: nat)
    requires p > 0 && k > 0 && q * p * k == rest * p
    ensures q * k == rest && q >= 0
  {
    assert (q * k - rest) * p == 0;
    assert q < 0 ==> (-q - 1) * k >= 0;
  }

  // ---- Powers ---------------------------------------------------------------------------------------

  ghost predicate PowerIs(n: nat, v: int) {
    Iterate(1, n) == v
  }

  lemma PowerMeans(n: nat, v: int)
    requires PowerIs(n, v)
    ensures Iterate(1, n) == v
  {
  }

  lemma PowerZero()
    ensures PowerIs(0, 1)
  {
  }

  lemma PowerOne()
    ensures PowerIs(1, A)
  {
  }

  lemma {:induction false} PowerAdds(i: nat, k: nat)
    ensures Power(i + k) == Power(i) * Power(k)
  {
    if k == 0 {
    } else {
      PowerAdds(i, k - 1);
    }
  }

  lemma ProductMod(p: int, q: int)
    ensures (p % M) * (q % M) % M == p * q % M
  {
    MulMod(p % M, q);
    MulMod(q, p);
    assert (p % M) * q == q * (p % M) && p * q == q * p;
  }

  lemma PowerMod(n: nat, v: int)
    ensures PowerIs(n, v) <==> v == Power(n) % M
  {
    ClosedForm(1, n);
  }

  lemma PowerProduct(i: nat, u: int, k: nat, v: int)
    requires PowerIs(i, u) && PowerIs(k, v)
    ensures PowerIs(i + k, u * v % M)
  {
    hide Power, PowerIs;
    PowerMod(i, u);
    PowerMod(k, v);
    PowerAdds(i, k);
    ProductMod(Power(i), Power(k));
    PowerMod(i + k, u * v % M);
  }

  /** One binary digit of square and multiply. */
  lemma Squared(e: nat, base: int, n: nat, v: int, bit: nat)
    requires PowerIs(e, base) && PowerIs(e * n, v) && bit < 2
    ensures PowerIs(e * (2 * n + bit), v * v * (if bit == 0 then 1 else base) % M)
  {
    hide PowerIs;
    PowerProduct(e * n, v, e * n, v);
    assert e * n + e * n == e * (2 * n);
    if bit == 1 {
      PowerProduct(e * (2 * n), v * v % M, e, base);
      assert e * (2 * n) + e == e * (2 * n + 1);
      MulMod(base, v * v);
      assert base * (v * v) == v * v * base && base * (v * v % M) == v * v % M * base;
    }
  }

  /** One hexadecimal digit of the exponent of a power of A^e; M is written out, so that the steps are on literals. */
  lemma Climb(e: nat, base: int, n: nat, digit: nat, v0: int, v1: int, v2: int, v3: int, v4: int)
    requires PowerIs(e, base) && PowerIs(e * n, v0) && digit < 16
    requires v1 == v0 * v0 * (if digit / 8 == 0 then 1 else base) % 2147483647
    requires v2 == v1 * v1 * (if digit / 4 % 2 == 0 then 1 else base) % 2147483647
    requires v3 == v2 * v2 * (if digit / 2 % 2 == 0 then 1 else base) % 2147483647
    requires v4 == v3 * v3 * (if digit % 2 == 0 then 1 else base) % 2147483647
    ensures PowerIs(e * (16 * n + digit), v4)
  {
    hide PowerIs;
    Squared(e, base, n, v0, digit / 8);
    Squared(e, base, 2 * n + digit / 8, v1, digit / 4 % 2);
    Squared(e, base, 4 * n + digit / 4, v2, digit / 2 % 2);
    Squared(e, base, 8 * n + digit / 2, v3, digit % 2);
  }

  /** M - 1 is LEFT * RIGHT. */
  const LEFT: nat := 2 * 3 * 3 * 7 * 11 * 31
  const RIGHT: nat := 151 * 331

  lemma PowerRight()
    ensures PowerIs(RIGHT, 54463841)
  {
    hide PowerIs;
    PowerOne();
    PowerZero();
    Climb(1, 48271, 0, 12, 1, 48271, 1291394886, 407355683, 1203428207);
    Climb(1, 48271, 12, 3, 1203428207, 1402304087, 412013968, 851194519, 255849967);
    Climb(1, 48271, 195, 3, 255849967, 2075554490, 125032369, 1675927089, 1283800483);
    Climb(1, 48271, 3123, 13, 1283800483, 2098314018, 979658964, 993017172, 54463841);
  }

  lemma PowerLeft()
    ensures PowerIs(LEFT, 1377541393)
  {
    hide PowerIs;
    PowerOne();
    PowerZero();
    Climb(1, 48271, 0, 10, 1, 48271, 182605794, 2078669041, 1596680831);
    Climb(1, 48271, 10, 7, 1596680831, 2075782095, 1308858262, 243877847, 1318139310);
    Climb(1, 48271, 167, 13, 1318139310, 1580894134, 1945325051, 223081139, 19239123);
    Climb(1, 48271, 2685, 6, 19239123, 1424928562, 1534542057, 796621302, 1377541393);
  }

  lemma PowerWithout2()
    ensures PowerIs(PERIOD / 2, 2147483646)
  {
    hide PowerIs;
    PowerRight();
    PowerZero();
    Climb(49981, 54463841, 0, 5, 1, 1, 54463841, 1552290416, 633518788);
    Climb(49981, 54463841, 5, 3, 633518788, 1282744904, 1209186342, 926304769, 416377012);
    Climb(49981, 54463841, 83, 14, 416377012, 1163851787, 1962489067, 325459000, 1387064853);
    Climb(49981, 54463841, 1342, 11, 1387064853, 1431286574, 1487497181, 1672809397, 2147483646);
  }

  lemma PowerWithout3()
    ensures PowerIs(PERIOD / 3, 634005911)
  {
    hide PowerIs;
    PowerRight();
    PowerZero();
    Climb(49981, 54463841, 0, 3, 1, 1, 1, 54463841, 967140487);
    Climb(49981, 54463841, 3, 7, 967140487, 1970659950, 1442850886, 1251489627, 1854480718);
    Climb(49981, 54463841, 55, 15, 1854480718, 1508740922, 2114521533, 1145155360, 1604225807);
    Climb(49981, 54463841, 895, 2, 1604225807, 1534813611, 773082046, 634005912, 634005911);
  }

  lemma PowerWithout7()
    ensures PowerIs(PERIOD / 7, 1752599774)
  {
    hide PowerIs;
    PowerRight();
    PowerZero();
    Climb(49981, 54463841, 0, 1, 1, 1, 1, 1, 54463841);
    Climb(49981, 54463841, 1, 7, 54463841, 1552290416, 633518788, 885525946, 415328967);
    Climb(49981, 54463841, 23, 15, 415328967, 549988190, 188093844, 1273563566, 38854556);
    Climb(49981, 54463841, 383, 10, 38854556, 1271982011, 545990427, 1253228241, 1752599774);
  }

  lemma PowerWithout11()
    ensures PowerIs(PERIOD / 11, 219454379)
  {
    hide PowerIs;
    PowerRight();
    PowerZero();
    Climb(49981, 54463841, 0, 15, 1, 54463841, 967140487, 70713673, 498383904);
    Climb(49981, 54463841, 15, 4, 498383904, 1579411568, 1382568151, 960827688, 710278860);
    Climb(49981, 54463841, 244, 2, 710278860, 789715852, 1542857562, 178271473, 219454379);
  }

  lemma PowerWithout31()
    ensures PowerIs(PERIOD / 31, 64)
  {
    hide PowerIs;
    PowerRight();
    PowerZero();
    Climb(49981, 54463841, 0, 5, 1, 1, 54463841, 1552290416, 633518788);
    Climb(49981, 54463841, 5, 6, 633518788, 1282744904, 127903094, 962808938, 2122701050);
    Climb(49981, 54463841, 86, 10, 2122701050, 1232600314, 1754558763, 2147483639, 64);
  }

  lemma PowerWithout151()
    ensures PowerIs(PERIOD / 151, 556613938)
  {
    hide PowerIs;
    PowerLeft();
    PowerZero();
    Climb(42966, 1377541393, 0, 1, 1, 1, 1, 1, 1377541393);
    Climb(42966, 1377541393, 1, 4, 1377541393, 446644820, 1598491097, 1269470204, 888547533);
    Climb(42966, 1377541393, 20, 11, 888547533, 26901302, 1682576321, 1759089576, 556613938);
  }

  lemma PowerWithout331()
    ensures PowerIs(PERIOD / 331, 1627574666)
  {
    hide PowerIs;
    PowerLeft();
    PowerZero();
    Climb(42966, 1377541393, 0, 9, 1, 1377541393, 446644820, 185656489, 595030575);
    Climb(42966, 1377541393, 9, 7, 595030575, 1047766665, 1677690079, 1802056333, 1627574666);
  }

  /** The value that the source expects after 10000 draws from seed 1. */
  lemma CheckValue()
    ensures Iterate(1, 10000) == 399268537
  {
    hide PowerIs, Iterate;
    PowerOne();
    PowerZero();
    Climb(1, 48271, 0, 2, 1, 1, 1, 48271, 182605794);
    Climb(1, 48271, 2, 7, 182605794, 1914720637, 564586691, 1559527823, 1272185027);
    Climb(1, 48271, 39, 1, 1272185027, 837051536, 2071152004, 1451777401, 605889173);
    Climb(1, 48271, 625, 0, 605889173, 1285444814, 1211932242, 1629331733, 399268537);
    assert Iterate(1, 10000) == 399268537 by {
      PowerMeans(10000, 399268537);
    }
  }

  // ---- The period -----------------------------------------------------------------------------------

  /** What square and multiply shows: M - 1 is a period of the powers, and (M - 1) / p is none. */
  lemma Witnesses(p: nat)
    requires p in FACTORS
    ensures PowerIs(PERIOD, 1) && !PowerIs(PERIOD / p, 1)
  {
    hide Iterate;
    PowerWithout2();
    PowerWithout3();
    PowerWithout7();
    PowerWithout11();
    PowerWithout31();
    PowerWithout151();
    PowerWithout331();
    PowerProduct(PERIOD / 2, M - 1, PERIOD / 2, M - 1);
  }

  lemma FactorsMultiply()
    ensures Product(FACTORS) == PERIOD
  {
    assert FACTORS == [2] + [3, 3, 7, 11, 31, 151, 331];
  }

  lemma SmallPrimes()
    ensures IsPrime(2) && IsPrime(3) && IsPrime(7) && IsPrime(11) && IsPrime(31)
  {
  }

  lemma Prime151()
    ensures IsPrime(151)
  {
  }

  lemma Prime331()
    ensures IsPrime(331)
  {
  }

  lemma FactorsArePrime()
    ensures forall p :: p in FACTORS ==> IsPrime(p)
  {
    hide IsPrime;
    SmallPrimes();
    Prime151();
    Prime331();
  }

  /** Multiples of a period are periods. */
  lemma {:induction false} Repeats(d: nat, q: nat)
    requires PowerIs(d, 1)
    ensures PowerIs(d * q, 1)
  {
    if q == 0 {
    } else {
      Repeats(d, q - 1);
      IterateAdds(1, d * (q - 1), d);
      assert d * (q - 1) + d == d * q;
    }
  }

  /** The shortest period of the powers divides every other. */
  lemma ShortestPeriod(n: nat) returns (d: nat, q: nat)
    requires n > 0 && PowerIs(n, 1)
    ensures 0 < d <= n && PowerIs(d, 1) && n == d * q
    ensures forall k :: 0 < k < d ==> !PowerIs(k, 1)
  {
    hide Iterate;
    d := 1;
    while !PowerIs(d, 1)
      invariant 1 <= d <= n && forall k :: 0 < k < d ==> !PowerIs(k, 1)
      decreases n - d
    {
      d := d + 1;
    }
    q := n / d;
    var r := n - d * q;
    Repeats(d, q);
    IterateAdds(1, d * q, r);
    assert PowerIs(r, 1);
  }

  /** A period that leaves out a prime factor of M - 1 does not exist. */
  lemma NotBefore(d: nat, p: nat, q: int)
    requires p in FACTORS && d > 0 && d * (q * p) == PERIOD
    ensures !PowerIs(d, 1)
  {
    hide PowerIs;
    Witnesses(p);
    if PowerIs(d, 1) {
      assert q >= 0 by {
        assert q < 0 ==> d * (-q * p) >= 0;
      }
      assert d * q * p == PERIOD;
      assert d * q == PERIOD / p;
      Repeats(d, q);
    }
  }

  /** The powers of A repeat after M - 1 steps and not before. */
  lemma PowersRepeat(k: nat)
    ensures PowerIs(PERIOD, 1)
    ensures 0 < k < PERIOD ==> !PowerIs(k, 1)
  {
    hide PowerIs, Product;
    Witnesses(2);
    var d, times := ShortestPeriod(PERIOD);
    if d < PERIOD {
      FactorsMultiply();
      FactorsArePrime();
      var p, q := PrimeDivisor(FACTORS, d, times);
      NotBefore(d, p, q);
    }
  }

  /** The states of the first M - 1 draws from 1 are all legal states. */
  lemma PowersVisitAll(t: int) returns (n: nat)
    requires IsSeed(t)
    ensures n < PERIOD && PowerIs(n, t)
  {
    hide Iterate;
    forall i, j | 0 <= i < j < PERIOD
      ensures Iterate(1, i) != Iterate(1, j)
    {
      PowersRepeat(j - i);
      if Iterate(1, i) == Iterate(1, j) {
        Rewind(1, i, j - i);
      }
    }
    VisitedSize(1, PERIOD);
    forall x | x in Visited(1, PERIOD)
      ensures x in Range(PERIOD)
    {
      var i :| 0 <= i < PERIOD && Iterate(1, i) == x;
      ClosedForm(1, i);
    }
    Collections.SubsetEqual(Visited(1, PERIOD), Range(PERIOD));
    assert t in Visited(1, PERIOD);
    n :| 0 <= n < PERIOD && Iterate(1, n) == t;
  }

  /** Every sequence comes back to its start seed after M - 1 draws, and never before. */
  lemma FullPeriod(s: int, n: nat)
    requires IsSeed(s)
    ensures Iterate(s, n) == s <==> n % PERIOD == 0
  {
    hide Iterate;
    var i := PowersVisitAll(s);
    var q, r := n / PERIOD, n % PERIOD;
    PowersRepeat(r);
    Repeats(PERIOD, q);
    assert PERIOD * q + r == n;
    IterateAdds(1, PERIOD * q, r);
    IterateAdds(1, n, i);
    IterateAdds(1, i, n);
    if Iterate(s, n) == s {
      Rewind(1, i, n);
    }
  }

  /** From every start seed each legal state is reached exactly once in M - 1 draws. */
  lemma VisitsAll(s: int, t: int) returns (n: nat)
    requires IsSeed(s) && IsSeed(t)
    ensures n < PERIOD && Iterate(s, n) == t
    ensures forall k: nat :: k < PERIOD && Iterate(s, k) == t ==> k == n
  {
    hide Iterate;
    var i := PowersVisitAll(s);
    var j := PowersVisitAll(t);
    n := if i <= j then j - i else j - i + PERIOD;
    IterateAdds(1, i, n);
    PowersRepeat(0);
    IterateAdds(1, PERIOD, j);
    forall k: nat | k < PERIOD && Iterate(s, k) == t
      ensures k == n
    {
      var a, b := if k < n then k else n, if k < n then n else k;
      Rewind(s, a, b - a);
      FullPeriod(s, b - a);
    }
  }
}
