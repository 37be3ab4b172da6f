/** What floatingDivision computes, on integers, and when it is roundTiesToEven of the quotient. */
module FloatDiv {
  import opened Numbers
  import opened Rounding
  import opened Floats
  import opened Packing

  /** Whether the quotient of two significands needs the left shift. */
  function DivNorm(a: nat, b: nat): nat {
    if a < b then 1 else 0
  }

  function Dividend(nm: nat, a: nat, b: nat): nat {
    Pow2(nm + DivNorm(a, b)) * a
  }

  /** The rounded significand of the quotient of the significands `a` and `b`. */
  function DivSig(nm: nat, a: nat, b: nat): nat
    requires b > 0
  {
    RoundDiv(Dividend(nm, a, b), b)
  }

  /** The exponent of the quotient of the significands `a` and `b` before it is reduced modulo `2^(ne+1)`. */
  function DivExp(ne: nat, nm: nat, a: nat, b: nat, xe: nat, ye: nat): int
    requires ne >= 1 && b > 0
  {
    Bias(ne) - DivNorm(a, b) + xe + Carried(nm, DivSig(nm, a, b)) - ye
  }

  function QuotientExp(ne: nat, nm: nat, x: Float, y: Float): int
    requires ne >= 1 && y.exp >= 1
  {
    DivExp(ne, nm, Significand(nm, x), Significand(nm, y), x.exp, y.exp)
  }

  /** The result of the routine for a normal divisor, field by field. */
  function Quotient(ne: nat, nm: nat, x: Float, y: Float): Float
    requires ne >= 1 && y.exp >= 1
  {
    var e := QuotientExp(ne, nm, x, y);
    if x.exp == 0 || e < 0 || e >= Pow2(ne) then Float(false, 0, 0)
    else Float(x.sign != y.sign, e, FieldMan(ne, nm, e, DivSig(nm, Significand(nm, x), Significand(nm, y))))
  }

  /** The truncated quotient with two extra bits and the remainder round to `DivSig`, after one left shift at most. */
  lemma DivRounds(nm: nat, a: nat, b: nat, q: nat, r: nat, v: nat)
    requires Pow2(nm) <= b && a < 2 * Pow2(nm) && Pow2(nm + 2) * a == q * b + r && r < b
    requires v == var w := 2 * q + if r != 0 then 1 else 0; if q < Pow2(nm + 2) then 2 * w else w
    ensures q < Pow2(nm + 2) <==> a < b
    ensures q < Pow2(nm + 2) ==> v < Pow2(nm + 4)
    ensures RoundUp(v / 8, v / 4 % 2 == 1, v / 2 % 2 == 1 || v % 2 == 1) == DivSig(nm, a, b)
  {
    Pow2Next(nm);
    Pow2Next(nm + 1);
    Pow2Next(nm + 2);
    Pow2Next(nm + 3);
    hide Pow2, RoundUp, RoundDiv;
    var p, n := Pow2(nm), Pow2(nm) * a;
    MulAssoc(4, p, a);
    MulAssoc(2, p, a);
    NormIffLess(p, a, b, q, r);
    if q < 4 * p {
      ShiftedRounds(n, b, q, r, v);
    } else {
      WholeRounds(n, b, q, r, v);
    }
  }

  lemma ShiftedRounds(n: nat, b: nat, q: nat, r: nat, v: nat)
    requires 4 * n == q * b + r && r < b && v == 2 * (2 * q + if r != 0 then 1 else 0)
    ensures RoundUp(v / 8, v / 4 % 2 == 1, v / 2 % 2 == 1 || v % 2 == 1) == RoundDiv(2 * n, b)
  {
    hide RoundUp, RoundDiv;
    assert v / 8 == q / 2 && v / 4 % 2 == q % 2;
    GuardSticky(2 * n, b, q / 2, q % 2 == 1, r);
  }

  lemma WholeRounds(n: nat, b: nat, q: nat, r: nat, v: nat)
    requires 4 * n == q * b + r && r < b && v == 2 * q + if r != 0 then 1 else 0
    ensures RoundUp(v / 8, v / 4 % 2 == 1, v / 2 % 2 == 1 || v % 2 == 1) == RoundDiv(n, b)
  {
    hide RoundUp, RoundDiv;
    var rest := r + if q % 2 == 1 then b else 0;
    HalfBit(n, b, q, r, rest);
    assert v / 8 == q / 4 && v / 4 % 2 == q / 2 % 2 && v / 2 % 2 == q % 2;
    GuardSticky(2 * n, 2 * b, q / 4, q / 2 % 2 == 1, rest);
    RoundDivScale(n, b, 2);
  }

  lemma NormIffLess(p: int, a: int, b: int, q: int, r: int)
    requires p >= 1 && b >= 1 && 4 * p * a == q * b + r && 0 <= r < b
    ensures q < 4 * p <==> a < b
  {
    if a < b {
      MulMono(4 * p, a + 1, b);
      MulAdd(4 * p, a, 1);
      if q >= 4 * p {
        MulMono(b, 4 * p, q);
      }
    } else {
      MulMono(4 * p, b, a);
      if q < 4 * p {
        MulMono(b, q + 1, 4 * p);
        MulAdd(b, q, 1);
      }
    }
  }

  lemma HalfBit(n: int, b: int, q: int, r: int, rest: int)
    requires 4 * n == q * b + r && 0 <= r < b && q >= 0 && rest == r + if q % 2 == 1 then b else 0
    ensures 2 * (2 * n) == (2 * (q / 4) + if q / 2 % 2 == 1 then 1 else 0) * (2 * b) + rest
  {
    var h := q / 2;
    assert h == 2 * (q / 4) + if h % 2 == 1 then 1 else 0;
    assert q == 2 * h + q % 2;
    MulAdd(b, 2 * h, q % 2);
    assert b * (2 * h) == h * (2 * b);
    if q % 2 == 1 {
      assert b * (q % 2) == b;
    } else {
      assert b * (q % 2) == 0;
    }
  }

  /** The exact quotient of the magnitudes in quanta is `QuotientNum / QuotientDen`. */
  function QuotientNum(ne: nat, nm: nat, x: Float): nat
    requires ne >= 1 && nm >= 1
  {
    Pow2(Bias(ne) + nm - 1) * Magnitude(nm, x)
  }

  function QuotientDen(nm: nat, y: Float): nat {
    Magnitude(nm, y)
  }

  /** One left shift at most normalises the quotient of two normal significands. */
  lemma QuotientNormalized(ne: nat, nm: nat, x: Float, y: Float)
    requires ne >= 2 && nm >= 1 && Fits(ne, nm, x) && Fits(ne, nm, y) && x.exp >= 1 && y.exp >= 1
    ensures var a, b := Significand(nm, x), Significand(nm, y);
            Normalized(QuotientNum(ne, nm, x), QuotientDen(nm, y), nm, x.exp + Bias(ne) - 1 - DivNorm(a, b), y.exp,
                       DivSig(nm, a, b))
  {
    var a, b, n := Significand(nm, x), Significand(nm, y), DivNorm(Significand(nm, x), Significand(nm, y));
    Pow2Next(nm);
    hide Pow2, Half, RoundDiv;
    SignificandQuotient(nm, a, b);
    RoundDivHalf(Dividend(nm, a, b), b);
    var u := Pow2(x.exp + Bias(ne) - 1 - n + (y.exp - 1));
    QuotientScale(ne, nm, x, y, n, u);
    Scaled(Dividend(nm, a, b), b, Pow2(nm), DivSig(nm, a, b), u);
  }

  lemma SignificandQuotient(nm: nat, a: nat, b: nat)
    requires Pow2(nm) <= a < 2 * Pow2(nm) && Pow2(nm) <= b < 2 * Pow2(nm)
    ensures Pow2(nm) * b <= Dividend(nm, a, b) < 2 * Pow2(nm) * b
  {
    Pow2Next(nm);
    hide Pow2;
    var k := Pow2(nm);
    if a < b {
      MulMono(k, b, 2 * a);
      MulLess(2 * k, a, b);
      MulAssoc(k, 2, a);
    } else {
      MulMono(k, b, a);
      MulLess(k, a, 2 * b);
      MulAssoc(k, 2, b);
    }
  }

  lemma DivSigRange(nm: nat, a: nat, b: nat)
    requires Pow2(nm) <= a < 2 * Pow2(nm) && Pow2(nm) <= b < 2 * Pow2(nm)
    ensures Pow2(nm) <= DivSig(nm, a, b) <= 2 * Pow2(nm)
  {
    hide Pow2, Half, RoundDiv;
    SignificandQuotient(nm, a, b);
    RoundDivHalf(Dividend(nm, a, b), b);
    HalfRange(Dividend(nm, a, b), b, Pow2(nm), DivSig(nm, a, b));
  }

  lemma QuotientScale(ne: nat, nm: nat, x: Float, y: Float, n: nat, u: nat)
    requires x.exp >= 1 && y.exp >= 1 && nm >= 1 && ne >= 2 && n <= 1
    requires u == Pow2(x.exp + Bias(ne) - 1 - n + (y.exp - 1))
    ensures QuotientNum(ne, nm, x) * Pow2(y.exp) == Pow2(nm + n) * Significand(nm, x) * u
    ensures QuotientDen(nm, y) * Pow2(x.exp + Bias(ne) - 1 - n) == Significand(nm, y) * u
  {
    hide Pow2, Bias, Significand;
    var c := Bias(ne);
    MagnitudeOf(nm, x);
    MagnitudeOf(nm, y);
    Pow2Add(c + nm - 1, x.exp - 1);
    Pow2Add(c + nm - 1 + (x.exp - 1), y.exp);
    Pow2Add(nm + n, x.exp + c - 1 - n + (y.exp - 1));
    Regroup(Pow2(c + nm - 1), Significand(nm, x), Pow2(x.exp - 1), Pow2(y.exp), Pow2(nm + n), u);
    Pow2Add(y.exp - 1, x.exp + c - 1 - n);
    MulAssoc(Significand(nm, y), Pow2(y.exp - 1), Pow2(x.exp + c - 1 - n));
  }

  lemma Regroup(p: int, a: int, q: int, r: int, s: int, u: int)
    requires p * q * r == s * u
    ensures p * (a * q) * r == s * a * u
  {
    MulAssoc(p, a, q);
    MulAssoc(a, p, q);
    MulAssoc(a, p * q, r);
    MulAssoc(a, s, u);
  }

  /** The fields of the result. */
  lemma QuotientFields(ne: nat, nm: nat, x: Float, y: Float)
    requires ne >= 2 && nm >= 1 && Fits(ne, nm, x) && Fits(ne, nm, y) && x.exp >= 1 && y.exp >= 1
    ensures var r, e := Quotient(ne, nm, x, y), QuotientExp(ne, nm, x, y);
            var s := DivSig(nm, Significand(nm, x), Significand(nm, y));
            && r.exp == FieldExp(ne, e) && r.man == FieldMan(ne, nm, e, s)
            && r.sign == (0 <= e < Pow2(ne) && x.sign != y.sign)
  {
  }

  /** The exact quotient in quanta: 1.0 has `2^(nm + 2^(ne-1) - 2)` of them. */
  lemma QuotientQuanta(ne: nat, nm: nat, x: Float, y: Float)
    requires ne >= 2 && nm >= 1
    ensures Pow2(ne - 1) >= 2 && QuotientDen(nm, y) == Magnitude(nm, y)
    ensures QuotientNum(ne, nm, x) == Pow2(nm + Pow2(ne - 1) - 2) * Magnitude(nm, x)
  {
    Pow2Next(ne - 2);
    Pow2Same(Bias(ne) + nm - 1, nm + Pow2(ne - 1) - 2);
  }

  /** floatingDivision of a normal or zero dividend by a normal divisor is roundTiesToEven of the exact quotient exactly
      when the quotient does not round beyond the largest exponent and either rounds to zero, or reaches the least
      normal number less a quarter of a quantum, or lies in the last half quantum that rounds to a subnormal. */
  lemma QuotientExact(ne: nat, nm: nat, x: Float, y: Float)
    requires ne >= 2 && nm >= 1 && NormalOrZero(ne, nm, x) && Fits(ne, nm, y) && y.exp >= 1
    ensures Pow2(ne - 1) >= 2
    ensures var num, den := Pow2(nm + Pow2(ne - 1) - 2) * Magnitude(nm, x), Magnitude(nm, y);
            var r := Quotient(ne, nm, x, y);
            && Fits(ne, nm, r) && den > 0
            && (RoundsTo(num, den, nm, r.exp, r.man) <==>
                  !Reaches(num, den, nm, Pow2(ne) - 1) &&
                  (2 * num <= den || Reaches(num, den, nm, 0) || LastSubnormal(num, den, nm)))
            && (r.exp != 0 || r.man != 0 ==> r.sign == (x.sign != y.sign))
  {
    QuotientQuanta(ne, nm, x, y);
    hide Pow2, DivSig, Normalized, RoundsTo, Reaches, LastSubnormal, QuotientNum, Half;
    var num, den := QuotientNum(ne, nm, x), QuotientDen(nm, y);
    MagnitudePositive(nm, y);
    if x.exp == 0 {
      ZeroDividend(ne, nm, x);
      SubnormalRounds(0, den, nm, 0);
      ZeroIsHalf(den);
      NotReached(den, nm, Pow2(ne) - 1);
    } else {
      var a, b := Significand(nm, x), Significand(nm, y);
      QuotientNormalized(ne, nm, x, y);
      QuotientFields(ne, nm, x, y);
      FieldsExact(num, den, ne, nm, x.exp + Bias(ne) - 1 - DivNorm(a, b), y.exp, DivSig(nm, a, b),
                  QuotientExp(ne, nm, x, y));
    }
  }

  lemma MagnitudePositive(nm: nat, y: Float)
    requires y.exp >= 1
    ensures Magnitude(nm, y) > 0
  {
    MulLess(Pow2(y.exp - 1), 0, Pow2(nm) + y.man);
  }

  lemma ZeroDividend(ne: nat, nm: nat, x: Float)
    requires ne >= 1 && nm >= 1 && NormalOrZero(ne, nm, x) && x.exp == 0
    ensures QuotientNum(ne, nm, x) == 0
  {
  }

  /** A quotient beyond the largest number, or that twice over does not reach the least normal number, is flushed to
      zero with the sign cleared, other than in section 6.3 of IEEE 754-2008; any other result has the exclusive-or
      of the signs. */
  lemma QuotientFlushed(ne: nat, nm: nat, x: Float, y: Float)
    requires ne >= 2 && nm >= 1 && NormalOrZero(ne, nm, x) && Fits(ne, nm, y) && y.exp >= 1
    ensures Pow2(ne - 1) >= 2
    ensures var num, den := Pow2(nm + Pow2(ne - 1) - 2) * Magnitude(nm, x), Magnitude(nm, y);
            var r := Quotient(ne, nm, x, y);
            && (Reaches(num, den, nm, Pow2(ne) - 1) || !Reaches(2 * num, den, nm, 0) ==> r == Float(false, 0, 0))
            && (!Reaches(num, den, nm, Pow2(ne) - 1) && Reaches(2 * num, den, nm, 0) ==> r.sign == (x.sign != y.sign))
  {
    QuotientQuanta(ne, nm, x, y);
    hide Pow2, DivSig, Normalized, Reaches, QuotientNum;
    var num, den := QuotientNum(ne, nm, x), QuotientDen(nm, y);
    MagnitudePositive(nm, y);
    if x.exp == 0 {
      ZeroDividend(ne, nm, x);
      NotReached(den, nm, Pow2(ne) - 1);
      NotReached(den, nm, 0);
    } else {
      var a, b := Significand(nm, x), Significand(nm, y);
      QuotientNormalized(ne, nm, x, y);
      QuotientFields(ne, nm, x, y);
      ExponentRange(num, den, ne, nm, x.exp + Bias(ne) - 1 - DivNorm(a, b), y.exp, DivSig(nm, a, b),
                    QuotientExp(ne, nm, x, y));
    }
  }

  /** Overflow and the sign of zero at concrete operands: the largest power of two by the least normal number gives
      zero, and zero by a negative number gives positive zero. */
  lemma OverflowFlushed()
    ensures Quotient(3, 3, Float(true, 7, 0), Float(false, 1, 0)) == Float(false, 0, 0)
    ensures Quotient(3, 3, Float(false, 0, 0), Float(true, 1, 0)) == Float(false, 0, 0)
  {
    SmallPowers();
  }

  /** The least normal number can be missed: the exact quotient 7.5 quanta rounds to the normal number 8, and the
      routine returns the subnormal 7. */
  lemma LeastNormalMissed()
    ensures var x, y := Float(false, 1, 7), Float(false, 4, 0);
            && NormalOrZero(3, 3, x) && NormalOrZero(3, 3, y)
            && RoundsTo(QuotientNum(3, 3, x), QuotientDen(3, y), 3, 1, 0)
            && Quotient(3, 3, x, y) == Float(false, 0, 7)
  {
    var x, y := Float(false, 1, 7), Float(false, 4, 0);
    SmallPowers();
    assert QuotientNum(3, 3, x) == 480 && QuotientDen(3, y) == 64;
    assert Half(480, 64, 8);
    GridRounds(480, 64, 3, 1, 8);
    assert DivSig(3, 15, 8) == 15;
  }
}
