/** Floating-point encodings with `ne` exponent bits and `nm` mantissa bits (section 3.4 of IEEE 754-2008),
    all-ones exponents being ordinary as in the routines. */
module Floats {
  import opened Numbers
  import opened Rounding

  datatype Float = Float(sign: bool, exp: nat, man: nat)

  ghost predicate Fits(ne: nat, nm: nat, x: Float) {
    x.exp < Pow2(ne) && x.man < Pow2(nm)
  }

  /** Normal, or zero: the inputs for which the routines promise a result. */
  ghost predicate NormalOrZero(ne: nat, nm: nat, x: Float) {
    Fits(ne, nm, x) && (x.exp == 0 ==> x.man == 0)
  }

  /** The significand with the hidden bit that a nonzero exponent implies. */
  function Significand(nm: nat, x: Float): nat {
    if x.exp == 0 then x.man else Pow2(nm) + x.man
  }

  /** The magnitude in quanta. */
  function Magnitude(nm: nat, x: Float): nat {
    Quanta(nm, x.exp, x.man)
  }

  function Bias(ne: nat): (b: nat)
    requires ne >= 1
    ensures ne >= 2 ==> b >= 1
  {
    Pow2(ne - 1) - 1
  }

  lemma SmallPowers()
    ensures Pow2(0) == 1 && Pow2(1) == 2 && Pow2(2) == 4 && Pow2(3) == 8 && Pow2(4) == 16 && Pow2(5) == 32
    ensures Pow2(6) == 64 && Pow2(7) == 128
  {
  }

  lemma MagnitudeOf(nm: nat, x: Float)
    requires x.exp >= 1
    ensures Magnitude(nm, x) == Significand(nm, x) * Pow2(x.exp - 1)
  {
  }
}
