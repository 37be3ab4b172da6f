/** What floatingMultiplication computes, on integers, and that it is roundTiesToEven of the product. */
module FloatMul {
  import opened Numbers
  import opened Rounding
  import opened Floats
  import opened Packing

  /** The number of low bits that rounding drops from the product `p` of two significands with `nm` fraction bits. */
  function MulDrop(nm: nat, p: nat): nat {
    if p >= Pow2(2 * nm + 1) then nm + 1 else nm
  }

  /** The rounded significand of the product. */
  function MulSig(nm: nat, p: nat): nat {
    RoundDiv(p, Pow2(MulDrop(nm, p)))
  }

  /** The product of two significands. */
  function SigProduct(a: nat, b: nat): (p: nat)
    ensures p == a * b
  {
    a * b
  }

  /** The rounded significand of the product of `a` and `b`, renormalised if it overflowed. */
  function ProductSig(nm: nat, a: nat, b: nat): nat {
    var s := MulSig(nm, a * b);
    if s == Pow2(nm + 1) then Pow2(nm) else s
  }

  /** What the carry of the product and the overflow of rounding add to the exponent. */
  function ProductBump(nm: nat, a: nat, b: nat): nat {
    (if a * b >= Pow2(2 * nm + 1) then 1 else 0) + (if MulSig(nm, a * b) == Pow2(nm + 1) then 1 else 0)
  }

  /** The result of the routine, field by field. */
  function Product(ne: nat, nm: nat, x: Float, y: Float): Float
    requires ne >= 2
  {
    var a, b := Significand(nm, x), Significand(nm, y);
    var s := ProductSig(nm, a, b);
    var e := (Pow2(ne) + Pow2(ne - 1) + 1 + x.exp + y.exp + ProductBump(nm, a, b)) % Pow2(ne + 1);
    if s < Pow2(nm) || e >= Pow2(ne) then Float(false, 0, 0) else Float(x.sign != y.sign, e, s - Pow2(nm))
  }

  /** The exact product of the magnitudes in quanta is `ProductNum / ProductDen`. */
  function ProductNum(nm: nat, x: Float, y: Float): nat {
    Magnitude(nm, x) * Magnitude(nm, y)
  }

  function ProductDen(ne: nat, nm: nat): (d: nat)
    requires ne >= 1 && nm >= 1
    ensures d > 0
  {
    Pow2(Bias(ne) + nm - 1)
  }

  /** The exponent of the product before it is reduced modulo `2^(ne+1)`. */
  function ProductExp(ne: nat, nm: nat, x: Float, y: Float): int
    requires ne >= 1
  {
    x.exp + y.exp - Bias(ne) + ProductBump(nm, Significand(nm, x), Significand(nm, y))
  }

  /** The two's-complement bias, both exponents and both increments compose without loss modulo `2^(ne+1)`. */
  lemma ExponentWraps(ne: nat, xe: nat, ye: nat, bump: nat)
    requires ne >= 2 && xe < Pow2(ne) && ye < Pow2(ne) && bump <= 2
    ensures var e := xe + ye - (Pow2(ne - 1) - 1) + bump;
            var w := (Pow2(ne) + Pow2(ne - 1) + 1 + xe + ye + bump) % Pow2(ne + 1);
            if e < 0 then w >= Pow2(ne) else w == e
  {
    var p := Pow2(ne - 1);
    Pow2Next(ne - 1);
    Pow2Next(ne);
    Pow2Next(ne - 2);
    var e := xe + ye - Bias(ne) + bump;
    assert Pow2(ne) + Pow2(ne - 1) + 1 + xe + ye + bump == e + 4 * p;
    if e < 0 {
      DivModUnique(e + 4 * p, 4 * p, 0, e + 4 * p);
    } else {
      DivModUnique(e + 4 * p, 4 * p, 1, e);
    }
  }

  /** The product of two normal significands is normalised by the carry alone. */
  lemma ProductNormalized(ne: nat, nm: nat, x: Float, y: Float)
    requires ne >= 2 && nm >= 1 && Fits(ne, nm, x) && Fits(ne, nm, y) && x.exp >= 1 && y.exp >= 1
    ensures var p := Significand(nm, x) * Significand(nm, y);
            Normalized(ProductNum(nm, x, y), ProductDen(ne, nm), nm, x.exp + y.exp - 2 + MulDrop(nm, p) - nm,
                       Bias(ne) - 1, MulSig(nm, p))
  {
    var a, b := Significand(nm, x), Significand(nm, y);
    var d := MulDrop(nm, a * b);
    Pow2Next(ne - 2);
    assert Bias(ne) >= 1;
    Pow2Next(nm);
    hide Pow2, Half, RoundDiv;
    SignificandProduct(nm, a, b);
    RoundDivHalf(a * b, Pow2(d));
    var u := Pow2(x.exp - 1 + (y.exp - 1) + (Bias(ne) - 1));
    ProductScale(nm, x, y, Bias(ne) - 1, d, u);
    Scaled(a * b, Pow2(d), Pow2(nm), MulSig(nm, a * b), u);
  }

  lemma SignificandProduct(nm: nat, a: nat, b: nat)
    requires Pow2(nm) <= a < 2 * Pow2(nm) && Pow2(nm) <= b < 2 * Pow2(nm)
    ensures Pow2(nm) * Pow2(MulDrop(nm, a * b)) <= a * b < 2 * Pow2(nm) * Pow2(MulDrop(nm, a * b))
  {
    var k := Pow2(nm);
    Pow2Add(nm, nm);
    Pow2Add(nm, nm + 1);
    Pow2Next(nm);
    Pow2Next(2 * nm);
    hide Pow2;
    MulMono(k, k, b);
    MulMono(b, k, a);
    MulLess(2 * k, b, 2 * k);
    MulMono(b, a, 2 * k);
    MulAssoc(2, k, k);
  }

  /** Both sides of the exact product, scaled to integers. */
  lemma ProductScale(nm: nat, x: Float, y: Float, b: nat, d: nat, u: nat)
    requires x.exp >= 1 && y.exp >= 1 && nm >= 1 && nm <= d && u == Pow2(x.exp - 1 + (y.exp - 1) + b)
    ensures ProductNum(nm, x, y) * Pow2(b) == Significand(nm, x) * Significand(nm, y) * u
    ensures Pow2(b + 1 + nm - 1) * Pow2(x.exp + y.exp - 2 + d - nm) == Pow2(d) * u
  {
    hide Pow2;
    MagnitudeOf(nm, x);
    MagnitudeOf(nm, y);
    Pow2Add(x.exp - 1, y.exp - 1);
    Pow2Add(x.exp - 1 + (y.exp - 1), b);
    Reorder(Significand(nm, x), Pow2(x.exp - 1), Significand(nm, y), Pow2(y.exp - 1), Pow2(b));
    Pow2Add(b + 1 + nm - 1, x.exp + y.exp - 2 + d - nm);
    Pow2Add(d, x.exp - 1 + (y.exp - 1) + b);
  }

  lemma Reorder(a: int, p: int, b: int, q: int, r: int)
    ensures a * p * (b * q) * r == a * b * (p * q * r)
  {
    MulAssoc(a * p, b, q);
    assert a * p * b == a * b * p;
    MulAssoc(a * b, p, q);
    MulAssoc(a * b, p * q, r);
  }

  /** The fields of the result. */
  lemma ProductFields(ne: nat, nm: nat, x: Float, y: Float)
    requires ne >= 2 && nm >= 1 && Fits(ne, nm, x) && Fits(ne, nm, y) && x.exp >= 1 && y.exp >= 1
    ensures var r, e := Product(ne, nm, x, y), ProductExp(ne, nm, x, y);
            var s := MulSig(nm, Significand(nm, x) * Significand(nm, y));
            && Pow2(nm) <= s <= Pow2(nm + 1)
            && r.exp == FieldExp(ne, e) && r.man == FieldMan(ne, nm, e, s)
            && r.sign == (0 <= e < Pow2(ne) && x.sign != y.sign)
  {
    hide Significand, ProductNum, ProductDen, Normalized;
    var a, b := Significand(nm, x), Significand(nm, y);
    hide Pow2, MulSig, Half;
    ProductNormalized(ne, nm, x, y);
    var p := a * b;
    NormalizedRange(ProductNum(nm, x, y), ProductDen(ne, nm), nm, x.exp + y.exp - 2 + MulDrop(nm, p) - nm,
                    Bias(ne) - 1, MulSig(nm, p));
    ExponentWraps(ne, x.exp, y.exp, ProductBump(nm, a, b));
  }

  /** The exact product in quanta: 1.0 has `2^(nm + 2^(ne-1) - 2)` of them. */
  lemma ProductQuanta(ne: nat, nm: nat, x: Float, y: Float)
    requires ne >= 2 && nm >= 1
    ensures Pow2(ne - 1) >= 2 && ProductNum(nm, x, y) == Magnitude(nm, x) * Magnitude(nm, y)
    ensures ProductDen(ne, nm) == Pow2(nm + Pow2(ne - 1) - 2)
  {
    Pow2Next(ne - 2);
    Pow2Same(Bias(ne) + nm - 1, nm + Pow2(ne - 1) - 2);
  }

  /** floatingMultiplication of normal or zero operands is roundTiesToEven of the exact product exactly when the product
      does not round beyond the largest exponent and either rounds to zero, or reaches the least normal number less a
      quarter of a quantum, or lies in the last half quantum that rounds to a subnormal. */
  lemma ProductExact(ne: nat, nm: nat, x: Float, y: Float)
    requires ne >= 2 && nm >= 1 && NormalOrZero(ne, nm, x) && NormalOrZero(ne, nm, y)
    ensures Pow2(ne - 1) >= 2
    ensures var num, den := Magnitude(nm, x) * Magnitude(nm, y), Pow2(nm + Pow2(ne - 1) - 2);
            var r := Product(ne, nm, x, y);
            && Fits(ne, nm, r)
            && (RoundsTo(num, den, nm, r.exp, r.man) <==>
                  !Reaches(num, den, nm, Pow2(ne) - 1) &&
                  (2 * num <= den || Reaches(num, den, nm, 0) || LastSubnormal(num, den, nm)))
            && (r.exp != 0 || r.man != 0 ==> r.sign == (x.sign != y.sign))
  {
    ProductQuanta(ne, nm, x, y);
    hide Pow2, RoundsTo, Reaches, LastSubnormal, Product, Half, ProductNum, ProductDen;
    if x.exp == 0 || y.exp == 0 {
      ProductOfZero(ne, nm, x, y);
      SubnormalRounds(0, ProductDen(ne, nm), nm, 0);
      ZeroIsHalf(ProductDen(ne, nm));
      NotReached(ProductDen(ne, nm), nm, Pow2(ne) - 1);
    } else {
      NormalProductExact(ne, nm, x, y);
    }
  }

  lemma NormalProductExact(ne: nat, nm: nat, x: Float, y: Float)
    requires ne >= 2 && nm >= 1 && Fits(ne, nm, x) && Fits(ne, nm, y) && x.exp >= 1 && y.exp >= 1
    ensures var r, num, den := Product(ne, nm, x, y), ProductNum(nm, x, y), ProductDen(ne, nm);
            && Fits(ne, nm, r)
            && (RoundsTo(num, den, nm, r.exp, r.man) <==>
                  !Reaches(num, den, nm, Pow2(ne) - 1) &&
                  (2 * num <= den || Reaches(num, den, nm, 0) || LastSubnormal(num, den, nm)))
            && (r.exp != 0 || r.man != 0 ==> r.sign == (x.sign != y.sign))
  {
    hide Pow2, MulSig, Normalized, RoundsTo, Reaches, LastSubnormal, Product, ProductNum, ProductDen, Significand;
    var p := Significand(nm, x) * Significand(nm, y);
    ProductNormalized(ne, nm, x, y);
    ProductFields(ne, nm, x, y);
    FieldsExact(ProductNum(nm, x, y), ProductDen(ne, nm), ne, nm, x.exp + y.exp - 2 + MulDrop(nm, p) - nm, Bias(ne) - 1,
                MulSig(nm, p), ProductExp(ne, nm, x, y));
  }

  lemma ProductOfZero(ne: nat, nm: nat, x: Float, y: Float)
    requires ne >= 2 && nm >= 1 && NormalOrZero(ne, nm, x) && NormalOrZero(ne, nm, y) && (x.exp == 0 || y.exp == 0)
    ensures ProductNum(nm, x, y) == 0 && Product(ne, nm, x, y) == Float(false, 0, 0)
  {
    var a, b := Significand(nm, x), Significand(nm, y);
    assert a * b == 0;
    assert Magnitude(nm, x) == 0 || Magnitude(nm, y) == 0;
    assert MulSig(nm, 0) == 0 by {
      DivModUnique(0, Pow2(MulDrop(nm, 0)), 0, 0);
    }
  }

  /** A product beyond the largest number, or that twice over does not reach the least normal number, is flushed to zero
      with the sign cleared, other than in section 6.3 of IEEE 754-2008; any other result has the exclusive-or of the
      signs. */
  lemma ProductFlushed(ne: nat, nm: nat, x: Float, y: Float)
    requires ne >= 2 && nm >= 1 && NormalOrZero(ne, nm, x) && NormalOrZero(ne, nm, y)
    ensures Pow2(ne - 1) >= 2
    ensures var num, den := Magnitude(nm, x) * Magnitude(nm, y), Pow2(nm + Pow2(ne - 1) - 2);
            var r := Product(ne, nm, x, y);
            && (Reaches(num, den, nm, Pow2(ne) - 1) || !Reaches(2 * num, den, nm, 0) ==> r == Float(false, 0, 0))
            && (!Reaches(num, den, nm, Pow2(ne) - 1) && Reaches(2 * num, den, nm, 0) ==> r.sign == (x.sign != y.sign))
  {
    ProductQuanta(ne, nm, x, y);
    hide Pow2, MulSig, Normalized, Reaches, Product, ProductNum, ProductDen, Significand;
    var num, den := ProductNum(nm, x, y), ProductDen(ne, nm);
    if x.exp == 0 || y.exp == 0 {
      ProductOfZero(ne, nm, x, y);
      NotReached(den, nm, Pow2(ne) - 1);
      NotReached(den, nm, 0);
    } else {
      var p := Significand(nm, x) * Significand(nm, y);
      ProductNormalized(ne, nm, x, y);
      ProductFields(ne, nm, x, y);
      ExponentRange(num, den, ne, nm, x.exp + y.exp - 2 + MulDrop(nm, p) - nm, Bias(ne) - 1, MulSig(nm, p),
                    ProductExp(ne, nm, x, y));
    }
  }

  /** Overflow and the sign of zero at concrete operands: the square of the largest power of two gives zero, and a
      negative number times zero gives positive zero. */
  lemma OverflowFlushed()
    ensures Product(3, 3, Float(true, 7, 0), Float(false, 7, 0)) == Float(false, 0, 0)
    ensures Product(3, 3, Float(true, 1, 0), Float(false, 0, 0)) == Float(false, 0, 0)
  {
    SmallPowers();
    assert MulSig(3, 64) == 8 && MulSig(3, 0) == 0;
  }

  /** The least normal number can be missed: with 3 exponent and 3 mantissa bits the exact product 7.5 quanta rounds to
      the normal number 8, and the routine returns the subnormal 7. */
  lemma LeastNormalMissed()
    ensures var x, y := Float(false, 1, 0), Float(false, 2, 7);
            && NormalOrZero(3, 3, x) && NormalOrZero(3, 3, y)
            && RoundsTo(ProductNum(3, x, y), ProductDen(3, 3), 3, 1, 0)
            && Product(3, 3, x, y) == Float(false, 0, 7)
  {
    var x, y := Float(false, 1, 0), Float(false, 2, 7);
    SmallPowers();
    assert ProductNum(3, x, y) == 240 && ProductDen(3, 3) == 32;
    assert Half(240, 32, 8);
    GridRounds(240, 32, 3, 1, 8);
    assert MulSig(3, 120) == 15;
  }
}
