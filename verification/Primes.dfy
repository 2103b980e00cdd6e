/** The prime factors of 2^32 - 1, and why a divisor of it that no one of them
    divides is 1. */
module Primes {
  import opened Bytes

  predicate Prime(p: nat) { p > 1 && forall d :: 1 < d < p ==> p % d != 0 }

  predicate Four(p: nat, d: nat)
    requires d > 0
  {
    p % d != 0 && p % (d + 1) != 0 && p % (d + 2) != 0 && p % (d + 3) != 0
  }

  /** None of the sixteen numbers from d on divides p. */
  predicate Sixteen(p: nat, d: nat)
    requires d > 0
  {
    Four(p, d) && Four(p, d + 4) && Four(p, d + 8) && Four(p, d + 12)
  }

  /** Nor any of n times as many. */
  predicate Rows(p: nat, d: nat, n: nat)
    requires d > 0
    decreases n
  {
    if n == 0 then true else if Sixteen(p, d) then Rows(p, d + 16, n - 1) else false
  }

  lemma FourClear(p: nat, d: nat, e: nat)
    requires d > 0 && Four(p, d) && d <= e < d + 4
    ensures p % e != 0
  {
    if e == d { } else if e == d + 1 { } else if e == d + 2 { } else { assert e == d + 3; }
  }

  lemma SixteenClear(p: nat, d: nat, e: nat)
    requires d > 0 && Sixteen(p, d) && d <= e < d + 16
    ensures p % e != 0
  {
    hide Four;
    FourClear(p, if e < d + 4 then d else if e < d + 8 then d + 4 else if e < d + 12 then d + 8 else d + 12, e);
  }

  lemma {:induction false} RowsClear(p: nat, d: nat, n: nat, e: nat)
    requires d > 0 && Rows(p, d, n) && d <= e < d + 16 * n
    ensures p % e != 0
    decreases n
  {
    hide Sixteen;
    if e < d + 16 {
      SixteenClear(p, d, e);
    } else {
      RowsClear(p, d + 16, n - 1, e);
    }
  }

  lemma SmallFactor(d: nat, e: nat, b: nat)
    requires d > b && e > b
    ensures d * e >= b * b
  {
    assert d * e == b * b + b * (e - b) + (d - b) * e;
  }

  lemma ProductMod(d: nat, e: nat)
    requires d > 0
    ensures (d * e) % d == 0
  {
    QuotientIs(d * e, d, e, 0);
  }

  predicate Tried(p: nat, b: nat) { forall e :: 2 <= e <= b ==> p % e != 0 }

  /** Trial division up to a bound whose square exceeds p. */
  lemma PrimeByTrial(p: nat, b: nat)
    requires p > 1 && b > 1 && b * b > p && Tried(p, b)
    ensures Prime(p)
  {
    forall d | 1 < d < p ensures p % d != 0 {
      if p % d == 0 {
        DivMod(p, d);
        var e := p / d;
        ProductMod(e, d);
        BothFactors(d, e, p);
        if d > b && e > b { SmallFactor(d, e, b); }
      }
    }
  }

  lemma BothFactors(d: nat, e: nat, p: nat)
    requires 1 < d < p && d * e == p
    ensures 1 < e && p % e == 0
  {
    AtMostOne(d, e);
    ProductMod(e, d);
  }

  lemma AtMostOne(d: nat, e: nat)
    ensures e <= 1 ==> d * e <= d
  {
  }

  lemma SmallPrimes()
    ensures Prime(3) && Prime(5) && Prime(17) && Prime(257)
  {
    assert Four(17, 2) && Sixteen(257, 2);
    assert Tried(17, 5);
    forall e | 2 <= e <= 17 ensures 257 % e != 0 { SixteenClear(257, 2, e); }
    PrimeByTrial(17, 5);
    PrimeByTrial(257, 17);
  }

  lemma LowRows()
    ensures Rows(65537, 2, 8)
  {
  }

  lemma HighRows()
    ensures Rows(65537, 130, 8)
  {
  }

  lemma LargePrime()
    ensures Prime(65537)
  {
    hide Rows;
    hide Prime;
    LowRows();
    HighRows();
    forall e | 2 <= e <= 257 ensures 65537 % e != 0 {
      if e < 130 { RowsClear(65537, 2, 8, e); } else { RowsClear(65537, 130, 8, e); }
    }
    PrimeByTrial(65537, 257);
  }

  lemma MulThree(a: nat, b: nat, c: nat)
    ensures a * (b * c) == (a * b) * c
  {
  }

  /** Euclid: a prime that divides r * t but is larger than r divides t. */
  lemma {:induction false} PrimeDivides(p: nat, r: nat, t: nat, s: int)
    requires Prime(p) && 0 < r < p && r * t == p * s
    ensures t % p == 0
    decreases r
  {
    if r == 1 {
      QuotientIs(t, p, s, 0);
    } else {
      DivMod(p, r);
      Remainder(p, r, p / r, p % r, t, s);
      PrimeDivides(p, p % r, t, t - p / r * s);
    }
  }

  lemma Remainder(p: int, r: int, k: int, m: int, t: int, s: int)
    requires p == r * k + m && r * t == p * s
    ensures m * t == p * (t - k * s)
  {
    assert m * t == (p - r * k) * t == p * t - k * (r * t);
    assert k * (r * t) == p * (k * s);
  }

  lemma Stripped(p: nat, m: nat, q: nat, t: nat)
    requires Prime(p) && q % p != 0 && q * t == p * m
    ensures t % p == 0 && q * (t / p) == m
  {
    var k, r := q / p, q % p;
    DivMod(q, p);
    assert r * t == p * (m - k * t) by { Multiples(p, k, r, t, q, m); }
    PrimeDivides(p, r, t, m - k * t);
    DivMod(t, p);
    MulThree(p, q, t / p);
    MulThree(q, p, t / p);
    SameFactor(p, q * (t / p), m);
  }

  lemma Multiples(p: int, k: int, r: int, t: int, q: int, m: int)
    requires q == p * k + r && q * t == p * m
    ensures r * t == p * (m - k * t)
  {
    assert r * t == q * t - p * k * t;
  }

  lemma SameFactor(p: nat, a: int, b: int)
    requires p > 0 && p * a == p * b
    ensures a == b
  {
    QuotientUnique(p, a, 0, b, 0);
  }

  lemma OneIsOne(a: nat, b: nat)
    requires a * b == 1
    ensures a == 1
  {
    if b > 0 { MulAtLeast(a, b); }
  }

  /** A divisor of 2^32 - 1 that none of its five primes divides is 1. */
  lemma NoPrimeLeft(q: nat, t: nat)
    requires q * t == 0xFFFF_FFFF
    requires q % 3 != 0 && q % 5 != 0 && q % 17 != 0 && q % 257 != 0 && q % 65537 != 0
    ensures q == 1
  {
    SmallPrimes();
    LargePrime();
    hide Prime;
    Stripped(65537, 65535, q, t);
    var t1 := t / 65537;
    Stripped(257, 255, q, t1);
    var t2 := t1 / 257;
    Stripped(17, 15, q, t2);
    var t3 := t2 / 17;
    Stripped(5, 3, q, t3);
    var t4 := t3 / 5;
    Stripped(3, 1, q, t4);
    OneIsOne(q, t4 / 3);
  }
}
