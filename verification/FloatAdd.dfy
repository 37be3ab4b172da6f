/** What floatingAdditionUnsigned and floatingAdditionSigned compute, on integers, and when it is roundTiesToEven of
    the sum. */
module FloatAdd {
  import opened Numbers
  import opened Rounding
  import opened Floats
  import opened Packing

  /** The operand with the larger exponent, and the other one. */
  function Hi(x: Float, y: Float): Float {
    if x.exp >= y.exp then x else y
  }

  function Lo(x: Float, y: Float): Float {
    if x.exp >= y.exp then y else x
  }

  function Gap(x: Float, y: Float): nat {
    Hi(x, y).exp - Lo(x, y).exp
  }

  /** The exact magnitude of the sum (`sub`: of the difference) of the significand `a`, `gap` places up, and `b`. */
  function Units(a: nat, b: nat, gap: nat, sub: bool): nat {
    var h := Pow2(gap) * a;
    if !sub then h + b else if h >= b then h - b else b - h
  }

  /** Whether `d` has a bit above the significand. */
  function Carry(nm: nat, gap: nat, d: nat): nat {
    if d >= Pow2(nm + 1 + gap) then 1 else 0
  }

  /** How many places up a nonzero `d` must go to fill the significand. */
  function Lead(nm: nat, gap: nat, d: nat): (t: nat)
    ensures d > 0 ==> Pow2(t) * d >= Pow2(nm + gap)
    ensures t > 0 ==> Pow2(t) * d < 2 * Pow2(nm + gap)
    decreases Pow2(nm + gap) - d
  {
    if d == 0 || d >= Pow2(nm + gap) then 0 else
    var t := Lead(nm, gap, 2 * d);
    Pow2Next(t);
    MulAssoc(Pow2(t), 2, d);
    t + 1
  }

  /** The rounded significand of the sum. */
  function AddSig(nm: nat, gap: nat, d: nat): nat {
    RoundDiv(Pow2(Lead(nm, gap, d)) * d, Pow2(gap + Carry(nm, gap, d)))
  }

  /** The exponent of the sum before it is reduced to the exponent field. */
  function AddExp(nm: nat, gap: nat, d: nat, he: nat): int {
    he + Carry(nm, gap, d) - Lead(nm, gap, d) + Carried(nm, AddSig(nm, gap, d))
  }

  /** The result of floatingAdditionSigned, field by field. */
  function SignedSum(ne: nat, nm: nat, x: Float, y: Float): Float {
    var h, l, g := Hi(x, y), Lo(x, y), Gap(x, y);
    var a, b := Significand(nm, h), Significand(nm, l);
    var d := Units(a, b, g, x.sign != y.sign);
    var e := AddExp(nm, g, d, h.exp);
    if d == 0 || e < 0 || e >= Pow2(ne) then Float(false, 0, 0)
    else Float(if Pow2(g) * a > b then h.sign else l.sign, e, FieldMan(ne, nm, e, AddSig(nm, g, d)))
  }

  /** The exact sum in quanta. */
  function SumNum(nm: nat, x: Float, y: Float, sub: bool): nat {
    var p, q := Magnitude(nm, x), Magnitude(nm, y);
    if !sub then p + q else if p >= q then p - q else q - p
  }

  /** The units of `Units` in quanta. */
  lemma SumUnits(nm: nat, x: Float, y: Float, sub: bool)
    requires (x.exp == 0 ==> x.man == 0) && (y.exp == 0 ==> y.man == 0)
    ensures var l, d := Lo(x, y).exp, Units(Significand(nm, Hi(x, y)), Significand(nm, Lo(x, y)), Gap(x, y), sub);
            if l >= 1 then SumNum(nm, x, y, sub) == d * Pow2(l - 1) else 2 * SumNum(nm, x, y, sub) == d
  {
    hide Pow2;
    var h, l, g := Hi(x, y), Lo(x, y), Gap(x, y);
    if l.exp >= 1 {
      MagnitudeOf(nm, h);
      MagnitudeOf(nm, l);
      Pow2Add(g, l.exp - 1);
      Distribute(Significand(nm, h), Significand(nm, l), Pow2(g), Pow2(l.exp - 1), Pow2(h.exp - 1));
    } else if h.exp >= 1 {
      MagnitudeOf(nm, h);
      Pow2Next(h.exp - 1);
      MulAssoc(2, Pow2(h.exp - 1), Significand(nm, h));
    } else {
      MulZero(Pow2(g));
    }
  }

  lemma Distribute(a: int, b: int, g: int, p: int, q: int)
    requires q == g * p && p > 0
    ensures (g * a + b) * p == a * q + b * p && (g * a - b) * p == a * q - b * p && (b - g * a) * p == b * p - a * q
    ensures g * a >= b <==> a * q >= b * p
  {
    MulAdd(p, g * a, b);
    MulSub(g * a, b, p);
    MulSub(b, g * a, p);
    MulAssoc(a, g, p);
    Cancel(g * a, b, p);
  }

  /** The carry and the leading zeros normalise the sum. */
  lemma SumNormalized(nm: nat, gap: nat, d: nat)
    requires nm >= 1 && d > 0 && d < 2 * Pow2(nm + 1 + gap)
    ensures var p, u := Pow2(Lead(nm, gap, d)) * d, Pow2(gap + Carry(nm, gap, d));
            Binade(Pow2(nm), u, p, AddSig(nm, gap, d))
  {
    var t, c := Lead(nm, gap, d), Carry(nm, gap, d);
    RoundDivHalf(Pow2(t) * d, Pow2(gap + c));
    Pow2Add(nm, gap);
    Pow2Add(nm, gap + 1);
    Pow2Next(nm + gap);
    MulAssoc(2, Pow2(nm), Pow2(gap));
    MulAssoc(2, Pow2(nm), Pow2(gap + 1));
    assert Pow2(0) == 1;
    hide Half, RoundDiv;
    if c == 1 {
      assert Pow2(nm + gap) <= d;
      assert t == 0;
    }
  }

  lemma UnitsBound(nm: nat, a: nat, b: nat, gap: nat, sub: bool)
    requires a < Pow2(nm + 1) && b < Pow2(nm + 1)
    ensures Units(a, b, gap, sub) < 2 * Pow2(nm + 1 + gap)
  {
    hide Pow2;
    Pow2Add(gap, nm + 1);
    MulLess(Pow2(gap), a, Pow2(nm + 1));
    MulMono(Pow2(nm + 1), 1, Pow2(gap));
  }

  /** The exact sum of two operands, in units. */
  function SumUnitsOf(nm: nat, x: Float, y: Float, sub: bool): nat {
    Units(Significand(nm, Hi(x, y)), Significand(nm, Lo(x, y)), Gap(x, y), sub)
  }

  /** The exponents that put the exact sum in the form of `Packing`. */
  function ScaleDown(nm: nat, x: Float, y: Float, d: nat): int {
    Hi(x, y).exp + Carry(nm, Gap(x, y), d) - if Lo(x, y).exp >= 1 then 1 else 0
  }

  function ScaleUp(nm: nat, x: Float, y: Float, d: nat): nat {
    Lead(nm, Gap(x, y), d) + if Lo(x, y).exp >= 1 then 0 else 1
  }

  lemma SumPacks(ne: nat, nm: nat, x: Float, y: Float, sub: bool)
    requires nm >= 1 && NormalOrZero(ne, nm, x) && NormalOrZero(ne, nm, y) && SumUnitsOf(nm, x, y, sub) > 0
    ensures var d := SumUnitsOf(nm, x, y, sub);
            && ScaleDown(nm, x, y, d) >= 0
            && Normalized(SumNum(nm, x, y, sub), 1, nm, ScaleDown(nm, x, y, d), ScaleUp(nm, x, y, d),
                          AddSig(nm, Gap(x, y), d))
  {
    var h, l, g, d := Hi(x, y), Lo(x, y), Gap(x, y), SumUnitsOf(nm, x, y, sub);
    var t, c, num, s := Lead(nm, g, d), Carry(nm, g, d), SumNum(nm, x, y, sub), AddSig(nm, g, d);
    Pow2Next(nm);
    hide Pow2, Binade, SumNum, AddSig, Lead, Normalized;
    UnitsBound(nm, Significand(nm, h), Significand(nm, l), g, sub);
    SumNormalized(nm, g, d);
    SumUnits(nm, x, y, sub);
    if l.exp >= 1 {
      PackUp(num, nm, d, g + c, t, l.exp - 1, s);
    } else {
      PackZero(num, nm, d, g + c, t, s);
    }
  }

  lemma PackUp(num: nat, nm: nat, d: nat, g: nat, t: nat, l: nat, s: nat)
    requires nm >= 1 && num == d * Pow2(l)
    requires Binade(Pow2(nm), Pow2(g), Pow2(t) * d, s)
    ensures Normalized(num, 1, nm, l + g, t, s)
  {
    hide Pow2, Binade, Normalized;
    Pow2Add(g, l);
    ScaledSum(num, d, Pow2(nm), Pow2(g), Pow2(t), Pow2(l), s);
    NormalizedWhole(num, nm, g + l, t, s, num * Pow2(t), Pow2(g) * Pow2(l));
  }

  lemma NormalizedWhole(num: nat, nm: nat, a: nat, b: nat, s: nat, p: int, u: int)
    requires nm >= 1 && p == num * Pow2(b) && u == Pow2(a) && Binade(Pow2(nm), u, p, s)
    ensures Normalized(num, 1, nm, a, b, s)
  {
    hide Pow2, Binade;
    assert 1 * Pow2(a) == u;
  }

  lemma ScaledSum(num: nat, d: nat, k: nat, g: nat, t: nat, l: nat, s: nat)
    requires g > 0 && l > 0 && num == d * l && Binade(k, g, t * d, s)
    ensures Binade(k, g * l, num * t, s)
  {
    hide Binade;
    Scaled(t * d, g, k, s, l);
    MulAssoc(t, d, l);
  }

  lemma PackZero(num: nat, nm: nat, d: nat, g: nat, t: nat, s: nat)
    requires nm >= 1 && 2 * num == d
    requires Binade(Pow2(nm), Pow2(g), Pow2(t) * d, s)
    ensures Normalized(num, 1, nm, g, t + 1, s)
  {
    Pow2Next(t);
    hide Pow2, Binade;
    assert num * (2 * Pow2(t)) == Pow2(t) * d by {
      MulAssoc(num, 2, Pow2(t));
    }
  }

  /** Integers leave no room for the exceptional values below the normal range. */
  lemma IntegerRange(num: nat, nm: nat)
    ensures Reaches(num, 1, nm, 0) <==> num >= Pow2(nm)
    ensures !LastSubnormal(num, 1, nm)
  {
    assert Pow2(0) == 1;
  }

  /** The sign of a nonzero sum: that of the larger operand. */
  function SumSign(nm: nat, x: Float, y: Float): bool {
    if x.sign == y.sign || Magnitude(nm, x) > Magnitude(nm, y) then x.sign else y.sign
  }

  /** The magnitude and the sign of the result, against the exact sum in the form the proof works with. */
  lemma SignedRounds(ne: nat, nm: nat, x: Float, y: Float)
    requires ne >= 1 && nm >= 1 && NormalOrZero(ne, nm, x) && NormalOrZero(ne, nm, y)
    ensures var r, num := SignedSum(ne, nm, x, y), SumNum(nm, x, y, x.sign != y.sign);
            && Fits(ne, nm, r)
            && (RoundsTo(num, 1, nm, r.exp, r.man) <==>
                  !Reaches(num, 1, nm, Pow2(ne) - 1) && (num == 0 || num >= Pow2(nm)))
            && (r.exp != 0 || r.man != 0 ==> r.sign == SumSign(nm, x, y))
  {
    hide *;
    SignedSign(nm, ne, x, y);
    SignedFields(ne, nm, x, y);
  }

  lemma SumFlushed(ne: nat, nm: nat, x: Float, y: Float)
    requires ne >= 1 && nm >= 1 && NormalOrZero(ne, nm, x) && NormalOrZero(ne, nm, y)
    ensures var r, num := SignedSum(ne, nm, x, y), SumNum(nm, x, y, x.sign != y.sign);
            && (Reaches(num, 1, nm, Pow2(ne) - 1) || !Reaches(2 * num, 1, nm, 0) ==> r == Float(false, 0, 0))
            && (!Reaches(num, 1, nm, Pow2(ne) - 1) && Reaches(2 * num, 1, nm, 0) ==> r.sign == SumSign(nm, x, y))
            && (Reaches(2 * num, 1, nm, 0) <==> 2 * num >= Pow2(nm))
  {
    hide Pow2, AddSig, Lead, Carry, Reaches, SumNum, Normalized, Units, Magnitude, Significand, SumSign;
    var sub, g := x.sign != y.sign, Gap(x, y);
    var d, num := SumUnitsOf(nm, x, y, sub), SumNum(nm, x, y, sub);
    IntegerRange(2 * num, nm);
    if d == 0 {
      SumUnits(nm, x, y, sub);
      NotReached(1, nm, Pow2(ne) - 1);
      NotReached(1, nm, 0);
    } else {
      SignedSign(nm, ne, x, y);
      SumPacks(ne, nm, x, y, sub);
      ExponentRange(num, 1, ne, nm, ScaleDown(nm, x, y, d), ScaleUp(nm, x, y, d), AddSig(nm, g, d),
                    AddExp(nm, g, d, Hi(x, y).exp));
    }
  }

  /** The exact sum is that of the signed operands. */
  lemma SumValue(nm: nat, x: Float, y: Float, v: int, w: int)
    requires Magnitude(nm, x) == (if x.sign then -v else v) && Magnitude(nm, y) == if y.sign then -w else w
    ensures SumNum(nm, x, y, x.sign != y.sign) == if v + w < 0 then -(v + w) else v + w
    ensures v + w != 0 ==> (SumSign(nm, x, y) <==> v + w < 0)
  {
    hide Magnitude;
  }

  /** floatingAdditionSigned of normal or zero operands is roundTiesToEven of the exact sum `v + w` in quanta, with its
      sign, exactly when the sum is zero or at least the least normal number and does not round beyond the largest
      exponent. */
  lemma SignedExact(ne: nat, nm: nat, x: Float, y: Float, v: int, w: int)
    requires ne >= 1 && nm >= 1 && NormalOrZero(ne, nm, x) && NormalOrZero(ne, nm, y)
    requires Magnitude(nm, x) == (if x.sign then -v else v) && Magnitude(nm, y) == if y.sign then -w else w
    ensures var r, num := SignedSum(ne, nm, x, y), if v + w < 0 then -(v + w) else v + w;
            && Fits(ne, nm, r)
            && (RoundsTo(num, 1, nm, r.exp, r.man) <==>
                  !Reaches(num, 1, nm, Pow2(ne) - 1) && (num == 0 || num >= Pow2(nm)))
            && (r.exp != 0 || r.man != 0 ==> (r.sign <==> v + w < 0))
  {
    hide *;
    SumValue(nm, x, y, v, w);
    SignedRounds(ne, nm, x, y);
    SumFlushed(ne, nm, x, y);
    NotReached(1, nm, 0);
  }

  /** A sum beyond the largest number, or less than half the least normal number, is flushed to zero with the sign
      cleared, other than in section 6.3 of IEEE 754-2008; any other result has the sign of the exact sum. */
  lemma SignedFlushed(ne: nat, nm: nat, x: Float, y: Float, v: int, w: int)
    requires ne >= 1 && nm >= 1 && NormalOrZero(ne, nm, x) && NormalOrZero(ne, nm, y)
    requires Magnitude(nm, x) == (if x.sign then -v else v) && Magnitude(nm, y) == if y.sign then -w else w
    ensures var r, num := SignedSum(ne, nm, x, y), if v + w < 0 then -(v + w) else v + w;
            && (Reaches(num, 1, nm, Pow2(ne) - 1) || 2 * num < Pow2(nm) ==> r == Float(false, 0, 0))
            && (!Reaches(num, 1, nm, Pow2(ne) - 1) && 2 * num >= Pow2(nm) ==> (r.sign <==> v + w < 0))
  {
    hide *;
    SumValue(nm, x, y, v, w);
    SumFlushed(ne, nm, x, y);
  }

  /** floatingSubtractionSigned, which adds with the sign of `y` inverted, is roundTiesToEven of the exact difference
      `v - w` in quanta, with its sign, under the same conditions. */
  lemma DifferenceExact(ne: nat, nm: nat, x: Float, y: Float, v: int, w: int)
    requires ne >= 1 && nm >= 1 && NormalOrZero(ne, nm, x) && NormalOrZero(ne, nm, y)
    requires Magnitude(nm, x) == (if x.sign then -v else v) && Magnitude(nm, y) == if y.sign then -w else w
    ensures var r, num := SignedSum(ne, nm, x, Float(!y.sign, y.exp, y.man)), if v < w then w - v else v - w;
            && Fits(ne, nm, r)
            && (RoundsTo(num, 1, nm, r.exp, r.man) <==>
                  !Reaches(num, 1, nm, Pow2(ne) - 1) && (num == 0 || num >= Pow2(nm)))
            && (r.exp != 0 || r.man != 0 ==> (r.sign <==> v < w))
            && (v == w ==> r == Float(false, 0, 0))
  {
    var y' := Float(!y.sign, y.exp, y.man);
    assert NormalOrZero(ne, nm, y') && Magnitude(nm, y') == Magnitude(nm, y);
    hide *;
    SignedExact(ne, nm, x, y', v, -w);
    SignedFlushed(ne, nm, x, y', v, -w);
  }

  /** Overflow and the sign of zero at concrete operands: each sum gives positive zero. */
  lemma SumsFlushed()
    ensures SignedSum(3, 3, Float(true, 7, 0), Float(true, 7, 0)) == Float(false, 0, 0)
    ensures SignedSum(3, 3, Float(true, 0, 0), Float(true, 0, 0)) == Float(false, 0, 0)
  {
    SmallPowers();
    hide Pow2, SignedSum, SumNum;
    var x, z := Float(true, 7, 0), Float(true, 0, 0);
    assert SumNum(3, x, x, false) == 1024 by { MagnitudeOf(3, x); SumOfTwo(3, x); }
    SumFlushed(3, 3, x, x);
    SignedZero(3, 3, z, z);
  }

  lemma SumOfTwo(nm: nat, x: Float)
    ensures SumNum(nm, x, x, false) == 2 * Magnitude(nm, x)
  {
  }

  lemma SignedZero(ne: nat, nm: nat, x: Float, y: Float)
    requires x.exp == 0 && x.man == 0 && y.exp == 0 && y.man == 0 && x.sign == y.sign
    ensures SignedSum(ne, nm, x, y) == Float(false, 0, 0)
  {
    hide Pow2;
    ZeroOperands(nm, x, y);
  }

  /** An exact sum of one quantum, which the format could represent, is returned as zero. */
  lemma SubnormalLost()
    ensures var x, y := Float(false, 1, 1), Float(true, 1, 0);
            Magnitude(3, x) - Magnitude(3, y) == 1 && SignedSum(3, 3, x, y) == Float(false, 0, 0)
  {
    SmallPowers();
    var x, y := Float(false, 1, 1), Float(true, 1, 0);
    MagnitudeOf(3, x);
    MagnitudeOf(3, y);
    assert SumNum(3, x, y, true) == 1;
    hide Pow2, SumNum, SignedSum, Reaches;
    SumFlushed(3, 3, x, y);
  }

  lemma SignedFields(ne: nat, nm: nat, x: Float, y: Float)
    requires ne >= 1 && nm >= 1 && NormalOrZero(ne, nm, x) && NormalOrZero(ne, nm, y)
    ensures var r, num := SignedSum(ne, nm, x, y), SumNum(nm, x, y, x.sign != y.sign);
            && Fits(ne, nm, r)
            && (RoundsTo(num, 1, nm, r.exp, r.man) <==>
                  !Reaches(num, 1, nm, Pow2(ne) - 1) && (num == 0 || num >= Pow2(nm)))
  {
    hide Pow2, Half, RoundsTo, AddSig, Lead, Carry, Reaches, LastSubnormal, SumNum, Normalized, Units, Magnitude,
         Significand;
    var sub, g := x.sign != y.sign, Gap(x, y);
    var d, num := SumUnitsOf(nm, x, y, sub), SumNum(nm, x, y, sub);
    IntegerRange(num, nm);
    if d == 0 {
      SumUnits(nm, x, y, sub);
      SubnormalRounds(0, 1, nm, 0);
      ZeroIsHalf(1);
      NotReached(1, nm, Pow2(ne) - 1);
    } else {
      SumPacks(ne, nm, x, y, sub);
      FieldsExact(num, 1, ne, nm, ScaleDown(nm, x, y, d), ScaleUp(nm, x, y, d), AddSig(nm, g, d),
                  AddExp(nm, g, d, Hi(x, y).exp));
    }
  }

  lemma SignedSign(nm: nat, ne: nat, x: Float, y: Float)
    requires ne >= 1 && nm >= 1 && NormalOrZero(ne, nm, x) && NormalOrZero(ne, nm, y)
    ensures var r, d := SignedSum(ne, nm, x, y), SumUnitsOf(nm, x, y, x.sign != y.sign);
            if d > 0 && 0 <= AddExp(nm, Gap(x, y), d, Hi(x, y).exp) < Pow2(ne) then r.sign == SumSign(nm, x, y)
            else r == Float(false, 0, 0)
  {
    hide Pow2, Magnitude, AddSig, Lead, Carry, FieldMan, Significand;
    SignOfSum(nm, x, y);
  }

  /** The larger operand gives the sign. */
  lemma SignOfSum(nm: nat, x: Float, y: Float)
    requires (x.exp == 0 ==> x.man == 0) && (y.exp == 0 ==> y.man == 0)
    ensures var h, l := Hi(x, y), Lo(x, y);
            && (SumUnitsOf(nm, x, y, true) > 0 ==>
                 (Pow2(Gap(x, y)) * Significand(nm, h) > Significand(nm, l) <==> Magnitude(nm, h) > Magnitude(nm, l)))
            && (SumUnitsOf(nm, x, y, true) == 0 <==> Magnitude(nm, x) == Magnitude(nm, y))
  {
    hide Pow2;
    var h, l, g := Hi(x, y), Lo(x, y), Gap(x, y);
    if l.exp >= 1 {
      MagnitudeOf(nm, h);
      MagnitudeOf(nm, l);
      Pow2Add(g, l.exp - 1);
      Distribute(Significand(nm, h), Significand(nm, l), Pow2(g), Pow2(l.exp - 1), Pow2(h.exp - 1));
      Cancel(Significand(nm, l), Pow2(g) * Significand(nm, h), Pow2(l.exp - 1));
      MulAssoc(Significand(nm, h), Pow2(g), Pow2(l.exp - 1));
    } else if h.exp >= 1 {
      MagnitudeOf(nm, h);
      Pow2Next(h.exp - 1);
      MulAssoc(2, Pow2(h.exp - 1), Significand(nm, h));
    } else {
      MulZero(Pow2(g));
    }
  }

  /** The rounded significand of a sum that needs no left shift. */
  function PlainSig(nm: nat, gap: nat, d: nat): nat {
    RoundDiv(d, Pow2(gap + Carry(nm, gap, d)))
  }

  /** The result of floatingAdditionUnsigned, field by field. */
  function UnsignedSum(ne: nat, nm: nat, x: Float, y: Float): Float {
    var g, d := Gap(x, y), SumUnitsOf(nm, x, y, false);
    var c, s := Carry(nm, g, d), PlainSig(nm, g, d);
    Float(false, (Hi(x, y).exp + c + Carried(nm, s)) % Pow2(ne), s % Pow2(nm))
  }

  /** After a carry, rounding never ripples out of an all-ones significand. */
  lemma NoRipple(nm: nat, a: nat, b: nat, gap: nat)
    requires a < Pow2(nm + 1) && b < Pow2(nm + 1) && Carry(nm, gap, Units(a, b, gap, false)) == 1
    ensures Pow2(nm) <= PlainSig(nm, gap, Units(a, b, gap, false)) < Pow2(nm + 1)
  {
    var d, q, k := Units(a, b, gap, false), Pow2(gap), Pow2(nm + 1);
    RoundDivHalf(d, Pow2(gap + 1));
    Pow2Next(gap);
    Pow2Next(nm);
    hide Pow2, RoundDiv;
    Pow2Add(nm + 1, gap);
    HalfOfSum(d, a, b, q, Pow2(nm), PlainSig(nm, gap, d));
  }

  lemma HalfOfSum(d: int, a: int, b: int, q: int, k: int, s: int)
    requires q >= 1 && 0 <= a < 2 * k && 0 <= b < 2 * k && 2 * k * q <= d == q * a + b && Half(d, 2 * q, s)
    ensures k <= s < 2 * k
  {
    hide Half;
    MulMono(q, a, 2 * k - 1);
    MulMono(2 * k - 1, 1, q);
    assert k * (2 * q) == 2 * k * q;
    assert (2 * k - 1) * (2 * q) == 2 * (q * (2 * k - 1));
    HalfWithin(d, 2 * q, k, 2 * k - 1, s);
  }

  lemma PlainIsAddSig(nm: nat, gap: nat, d: nat)
    requires d >= Pow2(nm + gap)
    ensures Lead(nm, gap, d) == 0 && PlainSig(nm, gap, d) == AddSig(nm, gap, d)
  {
    assert Pow2(0) * d == d;
  }

  lemma PlainSum(nm: nat, x: Float, y: Float)
    ensures SumNum(nm, x, y, false) == Magnitude(nm, x) + Magnitude(nm, y)
  {
  }

  /** floatingAdditionUnsigned of normal or zero operands is roundTiesToEven of the exact sum exactly when the sum does
      not round beyond the largest exponent. */
  lemma UnsignedExact(ne: nat, nm: nat, x: Float, y: Float)
    requires ne >= 1 && nm >= 1 && NormalOrZero(ne, nm, x) && NormalOrZero(ne, nm, y)
    ensures var r, num := UnsignedSum(ne, nm, x, y), Magnitude(nm, x) + Magnitude(nm, y);
            && Fits(ne, nm, r)
            && (RoundsTo(num, 1, nm, r.exp, r.man) <==> !Reaches(num, 1, nm, Pow2(ne) - 1))
  {
    PlainSum(nm, x, y);
    hide Pow2, RoundsTo, Reaches, Half, UnsignedSum, SumNum;
    if Hi(x, y).exp == 0 {
      UnsignedZero(ne, nm, x, y);
      SubnormalRounds(0, 1, nm, 0);
      ZeroIsHalf(1);
      NotReached(1, nm, Pow2(ne) - 1);
    } else {
      NormalUnsigned(ne, nm, x, y);
    }
  }

  /** The exponent of a sum beyond the largest number wraps to zero, and the sign is always cleared. */
  lemma UnsignedWraps(ne: nat, nm: nat, x: Float, y: Float)
    requires ne >= 1 && nm >= 1 && NormalOrZero(ne, nm, x) && NormalOrZero(ne, nm, y)
    ensures var r, num := UnsignedSum(ne, nm, x, y), Magnitude(nm, x) + Magnitude(nm, y);
            !r.sign && (Reaches(num, 1, nm, Pow2(ne) - 1) ==> r.exp == 0)
  {
    PlainSum(nm, x, y);
    hide Pow2, Reaches, Normalized, SumNum, AddSig, PlainSig, Lead, Units, Carry, Significand;
    var h, g, d := Hi(x, y), Gap(x, y), SumUnitsOf(nm, x, y, false);
    if h.exp == 0 {
      UnsignedZero(ne, nm, x, y);
    } else {
      UnsignedUnits(nm, x, y);
      PlainIsAddSig(nm, g, d);
      UnsignedExponent(ne, nm, x, y);
      SumPacks(ne, nm, x, y, false);
      ExponentRange(SumNum(nm, x, y, false), 1, ne, nm, ScaleDown(nm, x, y, d), ScaleUp(nm, x, y, d),
                    AddSig(nm, g, d), AddExp(nm, g, d, h.exp));
      if AddExp(nm, g, d, h.exp) == Pow2(ne) {
        DivModUnique(AddExp(nm, g, d, h.exp), Pow2(ne), 1, 0);
      }
    }
  }

  /** With 3 exponent and 3 mantissa bits, twice the largest power of two wraps to zero. */
  lemma SumWrapped()
    ensures UnsignedSum(3, 3, Float(false, 7, 0), Float(false, 7, 0)) == Float(false, 0, 0)
  {
    SmallPowers();
    assert RoundDiv(16, 2) == 8;
    hide Pow2, RoundDiv;
    var x := Float(false, 7, 0);
    assert SumUnitsOf(3, x, x, false) == 16;
    assert Carry(3, 0, 16) == 1 && PlainSig(3, 0, 16) == 8 && Carried(3, 8) == 0;
  }

  lemma UnsignedUnits(nm: nat, x: Float, y: Float)
    requires (x.exp == 0 ==> x.man == 0) && (y.exp == 0 ==> y.man == 0)
    ensures Hi(x, y).exp >= 1 ==> SumUnitsOf(nm, x, y, false) >= Pow2(nm + Gap(x, y))
  {
    hide Pow2;
    Pow2Add(nm, Gap(x, y));
    if Hi(x, y).exp >= 1 {
      MulMono(Pow2(Gap(x, y)), Pow2(nm), Significand(nm, Hi(x, y)));
    }
  }

  lemma UnsignedZero(ne: nat, nm: nat, x: Float, y: Float)
    requires NormalOrZero(ne, nm, x) && NormalOrZero(ne, nm, y) && Hi(x, y).exp == 0
    ensures UnsignedSum(ne, nm, x, y) == Float(false, 0, 0) && SumNum(nm, x, y, false) == 0
  {
    hide Pow2, PlainSig, SumNum, Carry, SumUnitsOf, Gap;
    ZeroOperands(nm, x, y);
    PlainZero(nm, Gap(x, y));
    assert Carried(nm, 0) == 0;
    ZeroMod(Pow2(ne));
    ZeroMod(Pow2(nm));
  }

  lemma ZeroOperands(nm: nat, x: Float, y: Float)
    requires x.exp == 0 && x.man == 0 && y.exp == 0 && y.man == 0
    ensures SumUnitsOf(nm, x, y, false) == 0 && SumNum(nm, x, y, false) == 0
  {
    hide Pow2;
    MulZero(Pow2(Gap(x, y)));
  }

  lemma ZeroMod(n: int)
    requires n > 0
    ensures 0 % n == 0
  {
  }

  lemma PlainZero(nm: nat, g: nat)
    ensures Carry(nm, g, 0) == 0 && PlainSig(nm, g, 0) == 0
  {
    DivModUnique(0, Pow2(g), 0, 0);
  }

  lemma NormalUnsigned(ne: nat, nm: nat, x: Float, y: Float)
    requires ne >= 1 && nm >= 1 && NormalOrZero(ne, nm, x) && NormalOrZero(ne, nm, y) && Hi(x, y).exp >= 1
    ensures var r, num := UnsignedSum(ne, nm, x, y), SumNum(nm, x, y, false);
            && Fits(ne, nm, r)
            && (RoundsTo(num, 1, nm, r.exp, r.man) <==> !Reaches(num, 1, nm, Pow2(ne) - 1))
  {
    hide Pow2, RoundsTo, Reaches, Normalized, SumNum, AddSig, PlainSig, Lead, Units, Carry, Significand;
    var h, g, d := Hi(x, y), Gap(x, y), SumUnitsOf(nm, x, y, false);
    UnsignedUnits(nm, x, y);
    PlainIsAddSig(nm, g, d);
    UnsignedExponent(ne, nm, x, y);
    SumPacks(ne, nm, x, y, false);
    UnsignedPacks(SumNum(nm, x, y, false), ne, nm, ScaleDown(nm, x, y, d), ScaleUp(nm, x, y, d), AddSig(nm, g, d),
                  AddExp(nm, g, d, h.exp));
  }

  lemma UnsignedPacks(num: nat, ne: nat, nm: nat, a: nat, b: nat, s: nat, e: int)
    requires ne >= 1 && nm >= 1 && Normalized(num, 1, nm, a, b, s) && e == 1 + a - b + Carried(nm, s)
    requires 1 <= e <= Pow2(ne)
    ensures e % Pow2(ne) < Pow2(ne) && s % Pow2(nm) < Pow2(nm)
    ensures RoundsTo(num, 1, nm, e % Pow2(ne), s % Pow2(nm)) <==> !Reaches(num, 1, nm, Pow2(ne) - 1)
  {
    hide Pow2, RoundsTo, Reaches, Normalized, LastSubnormal, Half;
    NormalizedRange(num, 1, nm, a, b, s);
    ReachesExponent(num, 1, nm, a, b, s, 0);
    ReachesExponent(num, 1, nm, a, b, s, Pow2(ne) - 1);
    IntegerRange(num, nm);
    FieldsExact(num, 1, ne, nm, a, b, s, e);
    WrappedFields(ne, nm, e, s);
    if e == Pow2(ne) {
      SubnormalRounds(num, 1, nm, s % Pow2(nm));
      NotNear(num, s % Pow2(nm));
    }
  }

  lemma UnsignedExponent(ne: nat, nm: nat, x: Float, y: Float)
    requires NormalOrZero(ne, nm, x) && NormalOrZero(ne, nm, y)
    ensures var d := SumUnitsOf(nm, x, y, false);
            Hi(x, y).exp + Carry(nm, Gap(x, y), d) + Carried(nm, PlainSig(nm, Gap(x, y), d)) <= Pow2(ne)
  {
    Pow2Next(nm);
    hide Pow2, PlainSig;
    var d := SumUnitsOf(nm, x, y, false);
    if Carry(nm, Gap(x, y), d) == 1 {
      NoRipple(nm, Significand(nm, Hi(x, y)), Significand(nm, Lo(x, y)), Gap(x, y));
    }
  }

  lemma WrappedFields(ne: nat, nm: nat, e: int, s: nat)
    requires 1 <= e <= Pow2(ne) && Pow2(nm) <= s <= Pow2(nm + 1)
    ensures e % Pow2(ne) == FieldExp(ne, e) && s % Pow2(nm) < Pow2(nm)
    ensures e < Pow2(ne) ==> s % Pow2(nm) == FieldMan(ne, nm, e, s)
  {
    Pow2Next(nm);
    hide Pow2;
    var k := Pow2(nm);
    if e < Pow2(ne) {
      DivModUnique(e, Pow2(ne), 0, e);
    } else {
      DivModUnique(e, Pow2(ne), 1, 0);
    }
    if s == 2 * k {
      DivModUnique(s, k, 2, 0);
    } else {
      DivModUnique(s, k, 1, s - k);
    }
  }

  lemma NotNear(num: nat, m: nat)
    requires m < num
    ensures !Half(num, 1, m)
  {
  }
}
