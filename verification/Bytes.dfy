/** Eight-bit values as bounded integers, with the bit operations the device
    registers use defined by recursion on the halves of a number. */
module Bytes {
  type byte = x: int | 0 <= x < 256
  type word = x: int | 0 <= x < 65536

  datatype Option<T> = None | Some(value: T)

  function Inc(b: byte): byte { if b == 255 then 0 else b + 1 }
  function Dec(b: byte): byte { if b == 0 then 255 else b - 1 }

  function Pow2(k: nat): (p: nat)
    ensures p >= 1
  {
    if k == 0 then 1 else 2 * Pow2(k - 1)
  }

  /** Bit k of x. */
  predicate Bit(x: nat, k: nat)
    decreases k
  {
    if k == 0 then x % 2 == 1 else Bit(x / 2, k - 1)
  }

  function Or(a: nat, b: nat): (r: nat)
    ensures r >= a && r >= b
    ensures forall n: nat :: a < Pow2(n) && b < Pow2(n) ==> r < Pow2(n)
    decreases a + b
  {
    if a == 0 then b
    else if b == 0 then a
    else
      var h := Or(a / 2, b / 2);
      var r := 2 * h + (if a % 2 == 1 || b % 2 == 1 then 1 else 0);
      assert forall n: nat :: a < Pow2(n) && b < Pow2(n) ==> r < Pow2(n) by {
        forall n: nat | a < Pow2(n) && b < Pow2(n) ensures r < Pow2(n) {
          assert n != 0 && a / 2 < Pow2(n - 1) && b / 2 < Pow2(n - 1);
        }
      }
      r
  }

  /** a with the bits of m cleared. */
  function AndNot(a: nat, m: nat): (r: nat)
    ensures r <= a
    decreases a
  {
    if a == 0 then 0
    else 2 * AndNot(a / 2, m / 2) + (if a % 2 == 1 && m % 2 == 0 then 1 else 0)
  }

  function And(a: nat, b: nat): (r: nat)
    ensures r <= a
    decreases a
  {
    if a == 0 then 0
    else 2 * And(a / 2, b / 2) + (if a % 2 == 1 && b % 2 == 1 then 1 else 0)
  }

  function AndByte(a: byte, b: byte): byte { And(a, b) }

  function OrByte(a: byte, b: byte): byte {
    assert Pow2(8) == 256;
    Or(a, b)
  }

  function AndNotByte(a: byte, m: byte): byte {
    AndNot(a, m)
  }

  function Xor(a: nat, b: nat): (r: nat)
    decreases a + b
  {
    if a == 0 then b
    else if b == 0 then a
    else 2 * Xor(a / 2, b / 2) + (if a % 2 != b % 2 then 1 else 0)
  }

  lemma {:induction false} XorBound(a: nat, b: nat, n: nat)
    requires a < Pow2(n) && b < Pow2(n)
    ensures Xor(a, b) < Pow2(n)
  {
    if a == 0 || b == 0 {
    } else {
      assert n > 0;
      XorBound(a / 2, b / 2, n - 1);
    }
  }

  lemma XorHalves(a: nat, b: nat)
    ensures Xor(a, b) / 2 == Xor(a / 2, b / 2)
    ensures Xor(a, b) % 2 == (if a % 2 != b % 2 then 1 else 0)
  {
  }

  lemma {:induction false} XorAssociative(a: nat, b: nat, c: nat)
    ensures Xor(Xor(a, b), c) == Xor(a, Xor(b, c))
    decreases a + b + c
  {
    if a == 0 || b == 0 || c == 0 {
    } else {
      XorAssociative(a / 2, b / 2, c / 2);
      XorHalves(a, b);
      XorHalves(b, c);
      XorHalves(Xor(a, b), c);
      XorHalves(a, Xor(b, c));
    }
  }

  lemma {:induction false} XorCommutative(a: nat, b: nat)
    ensures Xor(a, b) == Xor(b, a)
    decreases a + b
  {
    if a == 0 || b == 0 {
    } else {
      XorCommutative(a / 2, b / 2);
    }
  }

  lemma {:induction false} XorSelf(a: nat)
    ensures Xor(a, a) == 0
  {
    if a == 0 {
    } else {
      XorSelf(a / 2);
    }
  }

  lemma XorCancel(a: nat, b: nat, c: nat)
    requires Xor(a, c) == Xor(b, c)
    ensures a == b
  {
    XorAssociative(a, c, c);
    XorAssociative(b, c, c);
    XorSelf(c);
  }

  lemma {:induction false} ZeroBits(k: nat)
    ensures !Bit(0, k)
  {
    if k == 0 {
    } else {
      ZeroBits(k - 1);
    }
  }

  lemma {:induction false} OrBit(a: nat, b: nat, k: nat)
    ensures Bit(Or(a, b), k) <==> Bit(a, k) || Bit(b, k)
    decreases k
  {
    ZeroBits(k);
    if a == 0 || b == 0 || k == 0 {
    } else {
      OrBit(a / 2, b / 2, k - 1);
    }
  }

  lemma {:induction false} AndNotBit(a: nat, m: nat, k: nat)
    ensures Bit(AndNot(a, m), k) <==> Bit(a, k) && !Bit(m, k)
    decreases k
  {
    ZeroBits(k);
    if a == 0 || k == 0 {
    } else {
      AndNotBit(a / 2, m / 2, k - 1);
    }
  }

  lemma {:induction false} AndBit(a: nat, b: nat, k: nat)
    ensures Bit(And(a, b), k) <==> Bit(a, k) && Bit(b, k)
    decreases k
  {
    ZeroBits(k);
    if a == 0 || k == 0 {
    } else {
      AndBit(a / 2, b / 2, k - 1);
    }
  }

  lemma {:induction false} Pow2Bit(j: nat, k: nat)
    ensures Bit(Pow2(j), k) <==> j == k
    decreases k
  {
    if j == 0 { if k > 0 { ZeroBits(k - 1); } }
    else if k > 0 { Pow2Bit(j - 1, k - 1); }
  }

  lemma {:induction false} BitIsQuotient(x: nat, k: nat)
    ensures Bit(x, k) <==> (x / Pow2(k)) % 2 == 1
    decreases k
  {
    if k == 0 {
    } else {
      BitIsQuotient(x / 2, k - 1);
      HalveThenDivide(x, Pow2(k - 1));
    }
  }

  lemma {:induction false} BitsDetermine(x: nat, y: nat, n: nat)
    requires x < Pow2(n) && y < Pow2(n) && forall k :: 0 <= k < n ==> Bit(x, k) == Bit(y, k)
    ensures x == y
    decreases n
  {
    if n == 0 {
    } else {
      forall k | 0 <= k < n - 1 ensures Bit(x / 2, k) == Bit(y / 2, k) {
        assert Bit(x, k + 1) == Bit(y, k + 1);
      }
      BitsDetermine(x / 2, y / 2, n - 1);
      assert Bit(x, 0) == Bit(y, 0);
    }
  }

  lemma HalveThenDivide(x: nat, p: nat)
    requires p > 0
    ensures x / 2 / p == x / (2 * p)
  {
    var q := x / (2 * p);
    var r := x % (2 * p);
    assert x == 2 * p * q + r;
    assert x / 2 == p * q + r / 2 by { assert x == 2 * (p * q) + r; }
    QuotientIs(x / 2, p, q, r / 2);
  }

  lemma MulAtLeast(d: nat, k: nat)
    requires k >= 1
    ensures d * k >= d
  {
  }

  lemma QuotientUnique(d: nat, q: int, r: nat, q': int, r': nat)
    requires r < d && r' < d && d * q + r == d * q' + r'
    ensures q == q' && r == r'
  {
    assert d * (q - q') == r' - r && d * (q' - q) == r - r';
    if q > q' {
      MulAtLeast(d, q - q');
    } else if q < q' {
      MulAtLeast(d, q' - q);
    }
  }

  lemma QuotientIs(x: int, d: nat, q: int, r: nat)
    requires r < d && x == d * q + r
    ensures x / d == q && x % d == r
  {
    DivMod(x, d);
    QuotientUnique(d, q, r, x / d, x % d);
  }

  lemma DivMod(x: int, d: nat)
    requires d > 0
    ensures x == d * (x / d) + x % d && 0 <= x % d < d
  {
  }

  /** The value a byte has as a C `signed char`. */
  function Signed(b: byte): int {
    if b < 128 then b else b - 256
  }

  /** C's remainder: truncated toward zero. */
  function CRem(a: int, b: int): int
    requires b > 0
  {
    if a >= 0 then a % b else -((-a) % b)
  }

  /** A byte with one bit set. */
  function Pow2Byte(k: nat): byte
    requires k < 8
  {
    Pow2Grows(k, 7);
    assert Pow2(7) == 128;
    Pow2(k)
  }

  lemma {:induction false} Pow2Grows(m: nat, n: nat)
    requires m <= n
    ensures Pow2(m) <= Pow2(n)
    decreases n
  {
    if m == n {
    } else {
      Pow2Grows(m, n - 1);
    }
  }

  lemma NextQuotient(x: nat, d: nat)
    requires d > 0
    ensures (x + 1) % d == if x % d == d - 1 then 0 else x % d + 1
    ensures (x + 1) / d == if x % d == d - 1 then x / d + 1 else x / d
  {
    DivMod(x, d);
    if x % d == d - 1 {
      QuotientIs(x + 1, d, x / d + 1, 0);
    } else {
      QuotientIs(x + 1, d, x / d, x % d + 1);
    }
  }

  /** The number a packed-decimal byte shows. */
  function FromBcd(b: byte): nat { b / 16 * 10 + b % 16 }
}
