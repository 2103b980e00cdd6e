/** ADDC, SUBB and DA A, and what chains of them compute. */
module Arithmetic {
  import opened Bytes

  // ------------------------------------------------------------- the flags

  function AsInt(b: bool): int { if b then 1 else 0 }

  predicate Carry(psw: byte) { psw >= 128 }
  predicate AuxCarry(psw: byte) { psw / 64 % 2 == 1 }
  predicate Overflow(psw: byte) { psw / 4 % 2 == 1 }

  /** PSW with C, AC and OV replaced. */
  function SetFlags(psw: byte, c: bool, ac: bool, ov: bool): (r: byte)
    ensures Carry(r) == c && AuxCarry(r) == ac && Overflow(r) == ov
    ensures r % 4 == psw % 4 && r / 8 % 8 == psw / 8 % 8
  {
    FieldsApart(psw % 4, AsInt(ov), psw / 8 % 8, AsInt(ac), AsInt(c));
    psw % 4 + 4 * AsInt(ov) + psw / 8 % 8 * 8 + 64 * AsInt(ac) + 128 * AsInt(c)
  }

  lemma FieldsApart(low: int, ov: int, mid: int, ac: int, c: int)
    requires 0 <= low < 4 && 0 <= ov < 2 && 0 <= mid < 8 && 0 <= ac < 2 && 0 <= c < 2
    ensures var r := low + 4 * ov + mid * 8 + 64 * ac + 128 * c;
            && 0 <= r < 256 && r % 4 == low && r / 4 % 2 == ov && r / 8 % 8 == mid
            && r / 64 % 2 == ac && (r >= 128) == (c == 1)
  {
    var r := low + 4 * ov + mid * 8 + 64 * ac + 128 * c;
    assert r / 4 == ov + 2 * (mid + 8 * (ac + 2 * c));
    assert r / 8 == mid + 8 * (ac + 2 * c);
    assert r / 64 == ac + 2 * c;
  }

  function AddFlags(psw: byte, a: byte, b: byte, c: bool): byte {
    var i := AsInt(c);
    var carry := (a as int + b + i) / 256 == 1;
    var aux := (a % 16 + b % 16 + i) / 16 == 1;
    var into7 := (a % 128 + b % 128 + i) / 128 == 1;
    SetFlags(psw, carry, aux, into7 != carry)
  }

  function SubFlags(psw: byte, a: byte, b: byte, c: bool): byte {
    var i := AsInt(c);
    var borrow := a as int - b - i < 0;
    var aux := a % 16 - b % 16 - i < 0;
    var from7 := a % 128 - b % 128 - i < 0;
    SetFlags(psw, borrow, aux, from7 != borrow)
  }

  /** ADDC A,b on (A, PSW). */
  function Addc(a: byte, psw: byte, b: byte): (byte, byte) {
    ((a as int + b + AsInt(Carry(psw))) % 256, AddFlags(psw, a, b, Carry(psw)))
  }

  /** SUBB A,b on (A, PSW). */
  function Subb(a: byte, psw: byte, b: byte): (byte, byte) {
    ((a as int - b - AsInt(Carry(psw))) % 256, SubFlags(psw, a, b, Carry(psw)))
  }

  /** DA A on (A, PSW). */
  function Da(a: byte, psw: byte): (byte, byte) {
    var r1: int := if a % 16 > 9 || AuxCarry(psw) then a + 6 else a;
    var r2: int := if r1 - r1 % 16 > 0x90 || Carry(psw) then r1 + 0x60 else r1;
    (r2 % 256, if r2 > 0x99 && psw < 128 then psw + 128 else psw)
  }

  // ---------------------------------------------------- one byte, by value

  /** A sum's carry out of bit 7, and into it, say whether it fits. */
  lemma SumSigns(a: byte, b: byte, i: int)
    requires 0 <= i <= 1
    ensures var t: int := a as int + b + i;
            var carry, into7 := t >= 256, a % 128 + b % 128 + i >= 128;
            var signed := Signed(a) + Signed(b) + i;
            && (into7 != carry <==> !(-128 <= signed <= 127))
            && Signed(t % 256) == signed - (if into7 == carry then 0 else if Signed(a) >= 0 then 256 else -256)
  {
    var t: int := a as int + b + i;
    assert a % 128 == if a < 128 then a else a - 128;
    assert b % 128 == if b < 128 then b else b - 128;
    assert t % 256 == if t < 256 then t else t - 256;
  }

  lemma DifferenceSigns(a: byte, b: byte, i: int)
    requires 0 <= i <= 1
    ensures var t: int := a as int - b - i;
            var borrow, from7 := t < 0, a % 128 - b % 128 - i < 0;
            var signed := Signed(a) - Signed(b) - i;
            && (from7 != borrow <==> !(-128 <= signed <= 127))
            && Signed(t % 256) == signed - (if from7 == borrow then 0 else if Signed(a) >= 0 then 256 else -256)
  {
    var t: int := a as int - b - i;
    assert a % 128 == if a < 128 then a else a - 128;
    assert b % 128 == if b < 128 then b else b - 128;
    assert t % 256 == if t >= 0 then t else t + 256;
  }

  lemma AddcByte(a: byte, psw: byte, b: byte)
    ensures var (z, p) := Addc(a, psw, b);
            && z + 256 * AsInt(Carry(p)) == a + b + AsInt(Carry(psw))
            && (Overflow(p) <==> !(-128 <= Signed(a) + Signed(b) + AsInt(Carry(psw)) <= 127))
            && Signed(z) == Signed(a) + Signed(b) + AsInt(Carry(psw))
                                - (if !Overflow(p) then 0 else if Signed(a) >= 0 then 256 else -256)
  {
    hide SetFlags;
    hide Signed;
    var i := AsInt(Carry(psw));
    SumSigns(a, b, i);
    assert (a as int + b + i) % 256 == if a as int + b + i < 256 then a as int + b + i else a as int + b + i - 256;
  }

  lemma SubbByte(a: byte, psw: byte, b: byte)
    ensures var (z, p) := Subb(a, psw, b);
            && z as int - 256 * AsInt(Carry(p)) == a as int - b - AsInt(Carry(psw))
            && (Overflow(p) <==> !(-128 <= Signed(a) - Signed(b) - AsInt(Carry(psw)) <= 127))
            && Signed(z) == Signed(a) - Signed(b) - AsInt(Carry(psw))
                                - (if !Overflow(p) then 0 else if Signed(a) >= 0 then 256 else -256)
  {
    hide SetFlags;
    hide Signed;
    var i := AsInt(Carry(psw));
    DifferenceSigns(a, b, i);
    assert (a as int - b - i) % 256 == if a as int - b - i < 0 then a as int - b - i + 256 else a as int - b - i;
  }

  /** AC is the carry between the nibbles: of the low ones, into the high. */
  lemma NibbleCarry(a: byte, psw: byte, b: byte)
    ensures var (z, p) := Addc(a, psw, b);
            && z % 16 + 16 * AsInt(AuxCarry(p)) == a % 16 + b % 16 + AsInt(Carry(psw))
            && z / 16 + 16 * AsInt(Carry(p)) == a / 16 + b / 16 + AsInt(AuxCarry(p))
  {
    AddcFlags(a, psw, b);
    hide Addc;
    hide Carry;
    hide AuxCarry;
    var i := AsInt(Carry(psw));
    Nibbles(a, b, i);
    TwoNibbles(a as int + b + i);
  }

  /** And in a subtraction the borrow. */
  lemma NibbleBorrow(a: byte, psw: byte, b: byte)
    ensures var (z, p) := Subb(a, psw, b);
            && z as int % 16 - 16 * AsInt(AuxCarry(p)) == a as int % 16 - b % 16 - AsInt(Carry(psw))
            && z as int / 16 - 16 * AsInt(Carry(p)) == a as int / 16 - b / 16 - AsInt(AuxCarry(p))
  {
    SubbFlags(a, psw, b);
    hide Subb;
    hide Carry;
    hide AuxCarry;
    var i := AsInt(Carry(psw));
    Nibbles(a, b, -i);
    TwoNibbles(a as int - b - i);
  }

  lemma SubbFlags(a: byte, psw: byte, b: byte)
    ensures var (s, p) := Subb(a, psw, b);
            var c := AsInt(Carry(psw));
            && s == (a as int - b - c) % 256
            && AuxCarry(p) == (a % 16 < b % 16 + c)
            && Carry(p) == (a as int < b + c)
  {
    hide SetFlags;
  }

  lemma Nibbles(a: byte, b: byte, i: int)
    requires -1 <= i <= 1
    ensures a == 16 * (a / 16) + a % 16 && b == 16 * (b / 16) + b % 16
    ensures a as int + b + i == 16 * (a / 16 + b / 16) + (a % 16 + b % 16 + i)
    ensures a as int - b + i == 16 * (a as int / 16 - b / 16) + (a as int % 16 - b % 16 + i)
  {
  }

  lemma TwoNibbles(t: int)
    requires -256 <= t < 512
    ensures var z := t % 256; z == (if t < 0 then t + 256 else if t < 256 then t else t - 256)
    ensures t % 256 == 16 * (t % 256 / 16) + t % 256 % 16
  {
  }

  // --------------------------------------------------------------- chains

  function Power(b: nat, n: nat): (p: nat)
    requires b > 0
    ensures p > 0
  {
    if n == 0 then 1 else b * Power(b, n - 1)
  }

  /** t shifted left n digits. */
  function Scale(base: nat, t: int, n: nat): int
    requires base > 0
  {
    t * Power(base, n)
  }

  lemma ScaleSum(base: nat, a: int, b: int, c: int, n: nat)
    requires base > 0
    ensures Scale(base, a + b + c, n) == Scale(base, a, n) + Scale(base, b, n) + Scale(base, c, n)
  {
  }

  lemma ScaleNegated(base: nat, a: int, n: nat)
    requires base > 0
    ensures Scale(base, -a, n) == -Scale(base, a, n)
  {
  }

  lemma ScaleOrder(base: nat, a: int, n: nat)
    requires base > 0 && 0 <= a < base
    ensures 0 <= Scale(base, a, n) <= Power(base, n + 1) - Power(base, n)
  {
    MulLess(0, a, Power(base, n));
    MulLess(a, base - 1, Power(base, n));
    assert (base - 1) * Power(base, n) + Power(base, n) == base * Power(base, n);
  }

  lemma ScaleZero(base: nat, n: nat)
    requires base > 0
    ensures Scale(base, 0, n) == 0
  {
  }

  lemma ScaleUp(base: nat, t: int, n: nat)
    requires base > 0
    ensures Scale(base, base * t, n) == Scale(base, t, n + 1)
  {
    assert (base * t) * Power(base, n) == t * (base * Power(base, n));
  }

  /** A number of n digits of the given base, least significant first. */
  function Value(base: nat, digits: seq<nat>): int
    requires base > 0
  {
    if digits == [] then 0
    else
      var n := |digits| - 1;
      Value(base, digits[..n]) + Scale(base, digits[n], n)
  }

  lemma {:induction false} ValueBound(base: nat, digits: seq<nat>)
    requires base > 0 && forall i :: 0 <= i < |digits| ==> digits[i] < base
    ensures 0 <= Value(base, digits) < Power(base, |digits|)
  {
    hide Scale;
    hide Power;
    if digits == [] {
      PowerZero(base);
    } else {
      var n := |digits| - 1;
      ValueBound(base, digits[..n]);
      ScaleOrder(base, digits[n], n);
    }
  }

  lemma PowerZero(base: nat)
    requires base > 0
    ensures Power(base, 0) == 1
  {
  }

  lemma MulLess(a: int, b: int, p: nat)
    requires a <= b
    ensures a * p <= b * p
  {
  }

  /** The digits zs and the carry c are the sum of xs, ys and the carry c0. */
  predicate IsSum(base: nat, xs: seq<nat>, ys: seq<nat>, c0: bool, zs: seq<nat>, c: bool)
    requires base > 0
  {
    |xs| == |ys| == |zs|
    && Value(base, zs) + Scale(base, AsInt(c), |xs|) == Value(base, xs) + Value(base, ys) + AsInt(c0)
  }

  /** One more digit: the carry between them is absorbed. */
  lemma SumExtends(base: nat, xs: seq<nat>, ys: seq<nat>, c0: bool, zs: seq<nat>, c: bool,
                   x: nat, y: nat, z: nat, c': bool)
    requires base > 0 && IsSum(base, xs, ys, c0, zs, c)
    requires z + base * AsInt(c') == x + y + AsInt(c)
    ensures IsSum(base, xs + [x], ys + [y], c0, zs + [z], c')
  {
    hide Scale;
    var n := |xs|;
    assert (xs + [x])[..n] == xs && (ys + [y])[..n] == ys && (zs + [z])[..n] == zs;
    ScaleSum(base, x, y, AsInt(c), n);
    ScaleSum(base, z, base * AsInt(c'), 0, n);
    ScaleZero(base, n);
    ScaleUp(base, AsInt(c'), n);
  }

  /** ADDC over n bytes, low byte first: the sum bytes and the last PSW. */
  function AddcChain(xs: seq<byte>, ys: seq<byte>, psw: byte): (r: (seq<byte>, byte))
    requires |xs| == |ys|
    ensures |r.0| == |xs|
  {
    if xs == [] then ([], psw)
    else
      var n := |xs| - 1;
      var (zs, p) := AddcChain(xs[..n], ys[..n], psw);
      var (z, p') := Addc(xs[n], p, ys[n]);
      (zs + [z], p')
  }

  function SubbChain(xs: seq<byte>, ys: seq<byte>, psw: byte): (r: (seq<byte>, byte))
    requires |xs| == |ys|
    ensures |r.0| == |xs|
  {
    if xs == [] then ([], psw)
    else
      var n := |xs| - 1;
      var (zs, p) := SubbChain(xs[..n], ys[..n], psw);
      var (z, p') := Subb(xs[n], p, ys[n]);
      (zs + [z], p')
  }

  /** n-byte two's complement. */
  function SignedNumber(xs: seq<byte>): int
    requires xs != []
  {
    var n := |xs| - 1;
    Value(256, xs[..n]) + Scale(256, Signed(xs[n]), n)
  }

  /** An n-byte signed number fits when it lies within half of 256^n. */
  predicate Fits(v: int, n: nat)
    requires n > 0
  {
    Scale(256, -128, n - 1) <= v < Scale(256, 128, n - 1)
  }

  lemma TopDecides(t: int, low: int, n: nat)
    requires n > 0 && 0 <= low < Power(256, n - 1)
    ensures Fits(low + Scale(256, t, n - 1), n) <==> -128 <= t <= 127
  {
    var p := Power(256, n - 1);
    if t <= 127 { MulLess(t, 127, p); } else { MulLess(128, t, p); }
    if t >= -128 { MulLess(-128, t, p); } else { MulLess(t, -129, p); }
  }

  lemma {:induction false} AddcChainSum(xs: seq<byte>, ys: seq<byte>, psw: byte)
    requires |xs| == |ys|
    ensures var (zs, p) := AddcChain(xs, ys, psw);
            IsSum(256, xs, ys, Carry(psw), zs, Carry(p))
  {
    hide Addc;
    hide Carry;
    if xs == [] {
    } else {
      var n := |xs| - 1;
      var (zs, p) := AddcChain(xs[..n], ys[..n], psw);
      AddcChainSum(xs[..n], ys[..n], psw);
      AddcByte(xs[n], p, ys[n]);
      var (z, p') := Addc(xs[n], p, ys[n]);
      SumExtends(256, xs[..n], ys[..n], Carry(psw), zs, Carry(p), xs[n], ys[n], z, Carry(p'));
      assert xs == xs[..n] + [xs[n]] && ys == ys[..n] + [ys[n]];
    }
  }

  /** The top digit decides whether the signed total fits. */
  lemma TotalFits(n: nat, x: int, y: int, z: int, c0: int, sx: int, sy: int, c: int)
    requires 0 <= z < Power(256, n) && z + Scale(256, c, n) == x + y + c0
    ensures Fits((x + Scale(256, sx, n)) + (y + Scale(256, sy, n)) + c0, n + 1) <==> -128 <= sx + sy + c <= 127
  {
    hide Fits;
    hide Power;
    hide Scale;
    ScaleSum(256, sx, sy, c, n);
    TopDecides(sx + sy + c, z, n + 1);
  }

  lemma DifferenceFits(n: nat, x: int, y: int, z: int, c0: int, sx: int, sy: int, c: int)
    requires 0 <= z < Power(256, n) && z - Scale(256, c, n) == x - y - c0
    ensures Fits((x + Scale(256, sx, n)) - (y + Scale(256, sy, n)) - c0, n + 1) <==> -128 <= sx - sy - c <= 127
  {
    hide Fits;
    hide Power;
    hide Scale;
    ScaleNegated(256, sy, n);
    ScaleNegated(256, c, n);
    TotalFits(n, x, -y, z, -c0, sx, -sy, -c);
  }

  lemma AddcChainTop(xs: seq<byte>, ys: seq<byte>, psw: byte, zs: seq<byte>, p: byte)
    requires |xs| == |ys| > 0
    requires var n := |xs| - 1; AddcChain(xs[..n], ys[..n], psw) == (zs, p)
    ensures var n := |xs| - 1;
            && Value(256, zs) + Scale(256, AsInt(Carry(p)), n) ==
               Value(256, xs[..n]) + Value(256, ys[..n]) + AsInt(Carry(psw))
            && 0 <= Value(256, zs) < Power(256, n)
            && AddcChain(xs, ys, psw).1 == Addc(xs[n], p, ys[n]).1
  {
    hide Addc;
    hide Carry;
    hide Power;
    hide Scale;
    hide Value;
    var n := |xs| - 1;
    AddcChainSum(xs[..n], ys[..n], psw);
    ValueBound(256, zs);
  }

  /** Chained over numbers of any length, ADDC adds modulo 256^n with the final
      carry in C, and OV is the signed overflow of the whole addition. */
  lemma AddcChainExact(xs: seq<byte>, ys: seq<byte>, psw: byte)
    requires |xs| == |ys| > 0
    ensures var (zs, p) := AddcChain(xs, ys, psw);
            && IsSum(256, xs, ys, Carry(psw), zs, Carry(p))
            && (Overflow(p) <==> !Fits(SignedNumber(xs) + SignedNumber(ys) + AsInt(Carry(psw)), |xs|))
  {
    hide Addc;
    hide AddcChain;
    hide Carry;
    hide Overflow;
    hide Value;
    hide Power;
    hide Signed;
    hide Fits;
    hide AsInt;
    hide Scale;
    hide IsSum;
    var n := |xs| - 1;
    var (zs, p) := AddcChain(xs[..n], ys[..n], psw);
    AddcChainSum(xs, ys, psw);
    AddcChainTop(xs, ys, psw, zs, p);
    AddcByte(xs[n], p, ys[n]);
    TotalFits(n, Value(256, xs[..n]), Value(256, ys[..n]), Value(256, zs), AsInt(Carry(psw)),
              Signed(xs[n]), Signed(ys[n]), AsInt(Carry(p)));
  }

  /** The digits zs and the borrow c are the difference of xs, ys and c0. */
  predicate IsDifference(xs: seq<nat>, ys: seq<nat>, c0: bool, zs: seq<nat>, c: bool) {
    |xs| == |ys| == |zs|
    && Value(256, zs) - Scale(256, AsInt(c), |xs|) == Value(256, xs) - Value(256, ys) - AsInt(c0)
  }

  lemma DifferenceExtends(xs: seq<nat>, ys: seq<nat>, c0: bool, zs: seq<nat>, c: bool,
                          x: nat, y: nat, z: nat, c': bool)
    requires IsDifference(xs, ys, c0, zs, c)
    requires z - 256 * AsInt(c') == x - y - AsInt(c)
    ensures IsDifference(xs + [x], ys + [y], c0, zs + [z], c')
  {
    hide Scale;
    var n := |xs|;
    assert (xs + [x])[..n] == xs && (ys + [y])[..n] == ys && (zs + [z])[..n] == zs;
    var y': int := y;
    ScaleSum(256, z, -(256 * AsInt(c')), 0, n);
    ScaleSum(256, x, -y', -AsInt(c), n);
    ScaleNegated(256, y', n);
    ScaleNegated(256, AsInt(c), n);
    ScaleNegated(256, 256 * AsInt(c'), n);
    ScaleZero(256, n);
    ScaleUp(256, AsInt(c'), n);
  }

  lemma {:induction false} SubbChainDifference(xs: seq<byte>, ys: seq<byte>, psw: byte)
    requires |xs| == |ys|
    ensures var (zs, p) := SubbChain(xs, ys, psw);
            IsDifference(xs, ys, Carry(psw), zs, Carry(p))
  {
    hide Subb;
    hide Carry;
    if xs == [] {
    } else {
      var n := |xs| - 1;
      var (zs, p) := SubbChain(xs[..n], ys[..n], psw);
      SubbChainDifference(xs[..n], ys[..n], psw);
      SubbByte(xs[n], p, ys[n]);
      var (z, p') := Subb(xs[n], p, ys[n]);
      DifferenceExtends(xs[..n], ys[..n], Carry(psw), zs, Carry(p), xs[n], ys[n], z, Carry(p'));
      assert xs == xs[..n] + [xs[n]] && ys == ys[..n] + [ys[n]];
    }
  }

  lemma SubbChainTop(xs: seq<byte>, ys: seq<byte>, psw: byte, zs: seq<byte>, p: byte)
    requires |xs| == |ys| > 0
    requires var n := |xs| - 1; SubbChain(xs[..n], ys[..n], psw) == (zs, p)
    ensures var n := |xs| - 1;
            && Value(256, zs) - Scale(256, AsInt(Carry(p)), n) ==
               Value(256, xs[..n]) - Value(256, ys[..n]) - AsInt(Carry(psw))
            && 0 <= Value(256, zs) < Power(256, n)
            && SubbChain(xs, ys, psw).1 == Subb(xs[n], p, ys[n]).1
  {
    hide Subb;
    hide Carry;
    hide Power;
    hide Scale;
    hide Value;
    hide AsInt;
    var n := |xs| - 1;
    SubbChainDifference(xs[..n], ys[..n], psw);
    ValueBound(256, zs);
  }

  /** The same for SUBB: difference modulo 256^n, borrow in C, signed overflow
      of the whole subtraction in OV. */
  lemma SubbChainExact(xs: seq<byte>, ys: seq<byte>, psw: byte)
    requires |xs| == |ys| > 0
    ensures var (zs, p) := SubbChain(xs, ys, psw);
            && IsDifference(xs, ys, Carry(psw), zs, Carry(p))
            && (Overflow(p) <==> !Fits(SignedNumber(xs) - SignedNumber(ys) - AsInt(Carry(psw)), |xs|))
  {
    hide Subb;
    hide SubbChain;
    hide Carry;
    hide Overflow;
    hide Value;
    hide Power;
    hide Signed;
    hide Fits;
    hide AsInt;
    hide Scale;
    hide IsDifference;
    var n := |xs| - 1;
    var (zs, p) := SubbChain(xs[..n], ys[..n], psw);
    SubbChainDifference(xs, ys, psw);
    SubbChainTop(xs, ys, psw, zs, p);
    SubbByte(xs[n], p, ys[n]);
    DifferenceFits(n, Value(256, xs[..n]), Value(256, ys[..n]), Value(256, zs), AsInt(Carry(psw)),
                   Signed(xs[n]), Signed(ys[n]), AsInt(Carry(p)));
  }

  // ---------------------------------------------------------- packed decimal

  predicate IsBcd(b: byte) { b % 16 <= 9 && b / 16 <= 9 }

  /** ADDC then DA A on one packed-decimal byte. */
  function AddDecimal(a: byte, psw: byte, b: byte): (byte, byte) {
    var (s, p) := Addc(a, psw, b);
    Da(s, p)
  }

  /** What DA A leaves, from the digits that were added. */
  lemma DaDigits(s: byte, psw: byte, low: nat, high: nat)
    requires low <= 19 && high <= 18
    requires s == (16 * high + low) % 256
    requires AuxCarry(psw) == (low >= 16) && Carry(psw) == (16 * high + low >= 256)
    ensures var (z, p) := Da(s, psw);
            var h := if low >= 10 then high + 1 else high;
            z == 16 * (if h >= 10 then h - 10 else h) + (if low >= 10 then low - 10 else low)
            && Carry(p) == (h >= 10)
  {
    var t := 16 * high + low;
    var r1: int := if s % 16 > 9 || AuxCarry(psw) then s + 6 else s;
    hide AuxCarry;
    if t >= 256 { assert s == t - 256; } else { assert s == t; }
    assert s % 16 == if low >= 16 then low - 16 else low;
    var u := if low >= 10 then t + 6 else t;
    assert r1 == if t >= 256 then u - 256 else u;
  }

  lemma AddcFlags(a: byte, psw: byte, b: byte)
    ensures var (s, p) := Addc(a, psw, b);
            var c := AsInt(Carry(psw));
            && s == (a as int + b + c) % 256
            && AuxCarry(p) == (a % 16 + b % 16 + c >= 16)
            && Carry(p) == (a as int + b + c >= 256)
  {
    hide SetFlags;
  }

  lemma AddDecimalByte(a: byte, psw: byte, b: byte)
    requires IsBcd(a) && IsBcd(b)
    ensures var (z, p) := AddDecimal(a, psw, b);
            IsBcd(z) && FromBcd(z) + 100 * AsInt(Carry(p)) == FromBcd(a) + FromBcd(b) + AsInt(Carry(psw))
  {
    hide Addc;
    hide Da;
    hide Carry;
    hide AuxCarry;
    var al, ah, bl, bh := a % 16, a / 16, b % 16, b / 16;
    assert a == 16 * ah + al && b == 16 * bh + bl;
    var (s, p) := Addc(a, psw, b);
    var low, high := al + bl + AsInt(Carry(psw)), ah + bh;
    AddcFlags(a, psw, b);
    DaDigits(s, p, low, high);
    var h := if low >= 10 then high + 1 else high;
    TwoDigits(if h >= 10 then h - 10 else h, if low >= 10 then low - 10 else low);
  }

  lemma TwoDigits(h: nat, l: nat)
    requires h <= 9 && l <= 9
    ensures (16 * h + l) / 16 == h && (16 * h + l) % 16 == l
  {
  }

  function AddDecimalChain(xs: seq<byte>, ys: seq<byte>, psw: byte): (r: (seq<byte>, byte))
    requires |xs| == |ys|
    ensures |r.0| == |xs|
  {
    if xs == [] then ([], psw)
    else
      var n := |xs| - 1;
      var (zs, p) := AddDecimalChain(xs[..n], ys[..n], psw);
      var (z, p') := AddDecimal(xs[n], p, ys[n]);
      (zs + [z], p')
  }

  function Decimals(xs: seq<byte>): (d: seq<nat>)
    ensures |d| == |xs|
  {
    seq(|xs|, i requires 0 <= i < |xs| => FromBcd(xs[i]))
  }

  /** Chained over packed-decimal numbers of any length, ADDC and DA A give
      the decimal sum, packed decimal again, with the decimal carry in C. */
  lemma {:induction false} AddDecimalChainExact(xs: seq<byte>, ys: seq<byte>, psw: byte)
    requires |xs| == |ys|
    requires forall i :: 0 <= i < |xs| ==> IsBcd(xs[i]) && IsBcd(ys[i])
    ensures var (zs, p) := AddDecimalChain(xs, ys, psw);
            && (forall i :: 0 <= i < |zs| ==> IsBcd(zs[i]))
            && IsSum(100, Decimals(xs), Decimals(ys), Carry(psw), Decimals(zs), Carry(p))
  {
    hide AddDecimal;
    hide Carry;
    hide IsBcd;
    hide FromBcd;
    if xs == [] {
      assert Decimals(xs) == [];
    } else {
      var n := |xs| - 1;
      var (zs, p) := AddDecimalChain(xs[..n], ys[..n], psw);
      AddDecimalChainExact(xs[..n], ys[..n], psw);
      AddDecimalByte(xs[n], p, ys[n]);
      var (z, p') := AddDecimal(xs[n], p, ys[n]);
      SumExtends(100, Decimals(xs[..n]), Decimals(ys[..n]), Carry(psw), Decimals(zs), Carry(p),
                 FromBcd(xs[n]), FromBcd(ys[n]), FromBcd(z), Carry(p'));
      assert Decimals(xs) == Decimals(xs[..n]) + [FromBcd(xs[n])];
      assert Decimals(ys) == Decimals(ys[..n]) + [FromBcd(ys[n])];
      assert Decimals(zs + [z]) == Decimals(zs) + [FromBcd(z)];
    }
  }
}
