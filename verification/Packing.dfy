/** A normalised, rounded significand put into an exponent field of bounded width: exactly when the fields are
    the roundTiesToEven encoding of the value. Shared by the floating-point routines. */
module Packing {
  import opened Numbers
  import opened Rounding

  /** `p/u` lies between `k` and `2 * k`, and rounds to `s`. */
  ghost predicate Binade(k: int, u: int, p: int, s: int) {
    k * u <= p < 2 * k * u && Half(p, u, s)
  }

  /** `s` is the significand of `num/den` rounded in units of `2^(a-b)` quanta, the unit in which it has `nm + 1`
      bits. */
  ghost predicate Normalized(num: nat, den: nat, nm: nat, a: nat, b: nat, s: nat) {
    && nm >= 1 && den > 0 && den * Pow2(a) > 0
    && Binade(Pow2(nm), den * Pow2(a), num * Pow2(b), s)
  }

  /** Whether rounding carried the significand to the next power of two. */
  function Carried(nm: nat, s: nat): nat {
    if s == Pow2(nm + 1) then 1 else 0
  }

  /** The overflow of rounding `n` bits is the carry into the exponent. */
  lemma CarriedBit(n: nat, s: nat, overflow: bool)
    requires n >= 1 && (overflow <==> s == Pow2(n))
    ensures Carried(n - 1, s) == if overflow then 1 else 0
  {
  }

  /** `num/den` is at least the least number with exponent field `t + 1`, less a quarter of that number's unit. */
  ghost predicate Reaches(num: nat, den: nat, nm: nat, t: nat) {
    4 * num >= (4 * Pow2(nm) - 1) * (den * Pow2(t))
  }

  /** Subnormal values whose last place the routines get right although they do not support them. */
  ghost predicate LastSubnormal(num: nat, den: nat, nm: nat) {
    LastBelow(num, den, Pow2(nm))
  }

  /** `num/den` lies strictly between three quarters and one half below `k`. */
  ghost predicate LastBelow(num: int, den: int, k: int) {
    (4 * k - 3) * den < 4 * num < (4 * k - 2) * den
  }

  /** The fields that the routines write for the exponent `e` and significand `s`. */
  function FieldExp(ne: nat, e: int): nat {
    if e < 0 || e >= Pow2(ne) then 0 else e
  }

  function FieldMan(ne: nat, nm: nat, e: int, s: nat): nat {
    if e < 0 || e >= Pow2(ne) || s < Pow2(nm) || s == Pow2(nm + 1) then 0 else s - Pow2(nm)
  }

  lemma HalfWithin(d: int, u: int, lo: int, hi: int, s: int)
    requires u > 0 && lo * u <= d <= hi * u && Half(d, u, s)
    ensures lo <= s <= hi
  {
    if s < lo {
      MulMono(u, s + 1, lo);
      MulAdd(u, s, 1);
    } else if s > hi {
      MulMono(u, hi + 1, s);
      MulAdd(u, hi, 1);
    }
  }

  /** Where the top of a range is rounded to. */
  lemma HalfTop(p: int, d: int, j: int, t: int, s: int)
    requires d > 0 && t == j * d && s <= j && j % 2 == 0 && Half(p, d, s)
    ensures s == j <==> 2 * p >= 2 * t - d
  {
    if s < j {
      MulMono(d, s, j - 1);
      MulSub(j, 1, d);
      if s < j - 1 {
        MulMono(d, s, j - 2);
        MulSub(j, 2, d);
      }
    }
  }

  lemma HalfRange(p: int, d: int, k: int, s: int)
    requires d > 0 && k >= 1 && k * d <= p < 2 * k * d && Half(p, d, s)
    ensures k <= s <= 2 * k
    ensures s == 2 * k <==> 2 * p >= (4 * k - 1) * d
  {
    hide Half;
    HalfWithin(p, d, k, 2 * k, s);
    HalfTop(p, d, 2 * k, 2 * k * d, s);
    MulSub(4 * k, 1, d);
    MulAssoc(2, 2 * k, d);
  }

  lemma NormalizedRange(num: nat, den: nat, nm: nat, a: nat, b: nat, s: nat)
    requires Normalized(num, den, nm, a, b, s)
    ensures Pow2(nm) <= s <= Pow2(nm + 1) == 2 * Pow2(nm)
    ensures s == Pow2(nm + 1) <==> 2 * (num * Pow2(b)) >= (4 * Pow2(nm) - 1) * (den * Pow2(a))
  {
    Pow2Next(nm);
    hide Pow2, Half;
    HalfRange(num * Pow2(b), den * Pow2(a), Pow2(nm), s);
  }

  lemma Cancel(x: int, y: int, c: int)
    requires c > 0
    ensures x * c >= y * c <==> x >= y
  {
    ScaledCompare(x, y, c);
  }

  /** The exponent reaches `t + 1` exactly when the value does. */
  lemma ReachesExponent(num: nat, den: nat, nm: nat, a: nat, b: nat, s: nat, t: nat)
    requires Normalized(num, den, nm, a, b, s)
    ensures a + Carried(nm, s) >= b + t <==> Reaches(num, den, nm, t)
  {
    NormalizedRange(num, den, nm, a, b, s);
    hide Pow2, Half;
    UnitCases(num, den, Pow2(nm), a, b, t);
  }

  lemma UnitCases(num: int, den: int, k: int, a: nat, b: nat, t: nat)
    requires den > 0 && k >= 1 && k * (den * Pow2(a)) <= num * Pow2(b) < 2 * k * (den * Pow2(a))
    ensures a + (if 2 * (num * Pow2(b)) >= (4 * k - 1) * (den * Pow2(a)) then 1 else 0) >= b + t <==>
            4 * num >= (4 * k - 1) * (den * Pow2(t))
  {
    hide Pow2;
    var c, p := Pow2(b), num * Pow2(b);
    Cancel(4 * num, (4 * k - 1) * (den * Pow2(t)), c);
    MulAssoc(4, num, c);
    Pow2Add(t, b);
    if a >= b + t {
      Pow2Add(a - b - t, b + t);
      AboveUnit(p, den, k, Pow2(t), c, Pow2(a), Pow2(a - b - t));
    } else if a + 1 == b + t {
      Pow2Next(a);
      AtUnit(p, den, k, Pow2(t), c, Pow2(a));
    } else {
      FourTimes(a, b + t);
      BelowUnit(p, den, k, Pow2(t), c, Pow2(a), Pow2(b + t - a - 2));
    }
  }

  lemma FourTimes(a: nat, b: nat)
    requires b >= a + 2
    ensures Pow2(b) == Pow2(b - a - 2) * (4 * Pow2(a))
  {
    Pow2Add(b - a - 2, a + 2);
    Pow2Next(a);
    Pow2Next(a + 1);
  }

  lemma AboveUnit(p: int, den: int, k: int, t: int, c: int, u: int, w: int)
    requires den > 0 && k >= 1 && w >= 1 && t * c >= 1 && u == w * (t * c) && k * (den * u) <= p
    ensures 4 * p >= (4 * k - 1) * (den * t) * c
  {
    var d := den * (t * c);
    MulMono(t * c, 1, w);
    MulMono(den, t * c, u);
    MulMono(k, d, den * u);
    MulLess(den, 0, t * c);
    assert (4 * k - 1) * d == 4 * (k * d) - d;
    assert den * t * c == d;
    MulAssoc(4 * k - 1, den * t, c);
  }

  lemma AtUnit(p: int, den: int, k: int, t: int, c: int, u: int)
    requires t * c == 2 * u
    ensures 2 * p >= (4 * k - 1) * (den * u) <==> 4 * p >= (4 * k - 1) * (den * t) * c
  {
    MulAssoc(4 * k - 1, den * t, c);
    MulAssoc(den, t, c);
    assert den * (t * c) == 2 * (den * u);
    assert (4 * k - 1) * (2 * (den * u)) == 2 * ((4 * k - 1) * (den * u));
  }

  lemma BelowUnit(p: int, den: int, k: int, t: int, c: int, u: int, w: int)
    requires den > 0 && k >= 1 && w >= 1 && u >= 1 && t * c == w * (4 * u) && p < 2 * k * (den * u)
    ensures 4 * p < (4 * k - 1) * (den * t) * c
  {
    var d := den * (t * c);
    MulMono(4 * u, 1, w);
    MulMono(den, 4 * u, t * c);
    assert den * (4 * u) == 4 * (den * u);
    MulLess(den, 0, u);
    MulMono(2 * k, 4 * (den * u), d);
    assert 2 * k * (4 * (den * u)) == 4 * (2 * k * (den * u));
    MulMono(d, 2 * k, 4 * k - 1);
    MulAssoc(4 * k - 1, den * t, c);
    MulAssoc(den, t, c);
  }

  /** In range, the fields are the roundTiesToEven encoding. */
  lemma NormalizedRounds(num: nat, den: nat, nm: nat, a: nat, b: nat, s: nat)
    requires Normalized(num, den, nm, a, b, s) && a + Carried(nm, s) >= b
    ensures Pow2(nm) <= s <= Pow2(nm + 1)
    ensures RoundsTo(num, den, nm, 1 + a + Carried(nm, s) - b, EncMan(nm, s))
  {
    NormalizedRange(num, den, nm, a, b, s);
    hide Pow2, Half, RoundsTo;
    if a >= b {
      OverUnit(num, den, Pow2(nm), a, b, s);
      GridRounds(num, den, nm, a - b + 1, s);
    } else {
      LeastNormal(num, den, nm, a, s);
    }
  }

  lemma OverUnit(num: int, den: int, k: int, a: nat, b: nat, s: int)
    requires den > 0 && a >= b && k * (den * Pow2(a)) <= num * Pow2(b) && Half(num * Pow2(b), den * Pow2(a), s)
    ensures k * Pow2(a - b) * den <= num && Half(num, den * Pow2(a - b), s)
  {
    hide Pow2, Half;
    var u, c := Pow2(a - b), Pow2(b);
    Pow2Add(a - b, b);
    MulLess(den, 0, u);
    MulAssoc(den, u, c);
    HalfScale(num, den * u, c, s);
    MulAssoc(k, den * u, c);
    Cancel(num, k * (den * u), c);
    assert k * u * den == k * (den * u);
  }

  /** The encodings are the multiples of the unit of their binade: 0 first, one quantum apart below the least normal
      number `2^nm`, and twice as far apart in each binade as in the one before. */
  lemma QuantaGrid(nm: nat, e: nat, m: nat)
    ensures Quanta(nm, 0, 0) == 0 && Quanta(nm, 1, 0) == Pow2(nm)
    ensures Quanta(nm, e, m + 1) - Quanta(nm, e, m) == if e == 0 then 1 else Pow2(e - 1)
    ensures e >= 1 ==> Quanta(nm, e + 1, 0) == 2 * Quanta(nm, e, 0) == Quanta(nm, e, Pow2(nm))
  {
    assert Pow2(0) == 1;
    if e >= 1 {
      Pow2Next(e - 1);
      hide Pow2;
      MulAdd(Pow2(e - 1), Pow2(nm) + m, 1);
      MulAssoc(Pow2(nm), 2, Pow2(e - 1));
      MulAdd(Pow2(e - 1), Pow2(nm), Pow2(nm));
    }
  }

  /** Every encoding is the rounding of its own value. */
  lemma ExactRounds(nm: nat, e: nat, m: nat)
    requires m < Pow2(nm)
    ensures RoundsTo(Quanta(nm, e, m), 1, nm, e, m)
  {
    hide Pow2, Quanta;
  }

  /** Midway between two neighbours with the same exponent, the one with the even mantissa is the rounding. */
  lemma TiesToEven(nm: nat, e: nat, m: nat, k: nat)
    requires nm >= 1 && m + 1 < Pow2(nm) && (k == m || k == m + 1) && k % 2 == 0
    ensures RoundsTo(Quanta(nm, e, m) + Quanta(nm, e, m + 1), 2, nm, e, k)
  {
    if e == 0 {
      TiesSubnormal(nm, m, k);
    } else {
      NeighbourSum(nm, e, m);
      hide *;
      TiesNormal(nm, e, Pow2(nm) + m, k, Quanta(nm, e, m) + Quanta(nm, e, m + 1));
    }
  }

  lemma TiesSubnormal(nm: nat, m: nat, k: nat)
    requires nm >= 1 && k < Pow2(nm) && (k == m || k == m + 1) && k % 2 == 0
    ensures RoundsTo(Quanta(nm, 0, m) + Quanta(nm, 0, m + 1), 2, nm, 0, k)
  {
    assert Quanta(nm, 0, m) == m && Quanta(nm, 0, m + 1) == m + 1;
    hide Pow2, RoundsTo, Quanta;
    TieHalf(m, 1, k, 2 * m + 1);
    SubnormalRounds(2 * m + 1, 2, nm, k);
  }

  lemma TiesNormal(nm: nat, e: nat, s: nat, k: nat, num: nat)
    requires nm >= 1 && e >= 1 && k < Pow2(nm) && k % 2 == 0 && (s == Pow2(nm) + k || s + 1 == Pow2(nm) + k)
    requires s >= Pow2(nm) && num == (s + (s + 1)) * Pow2(e - 1)
    ensures RoundsTo(num, 2, nm, e, k)
  {
    Pow2Next(nm);
    EvenPower(nm);
    hide Pow2, RoundsTo, Half;
    var u, r := Pow2(e - 1), Pow2(nm) + k;
    EvenSum(Pow2(nm), k);
    TieHalf(s, u, r, num);
    TieAbove(Pow2(nm), s, u, num);
    GridRounds(num, 2, nm, e, r);
  }

  lemma EvenSum(a: int, b: int)
    requires a % 2 == 0 && b % 2 == 0
    ensures (a + b) % 2 == 0
  {
  }

  lemma NeighbourSum(nm: nat, e: nat, m: nat)
    requires e >= 1
    ensures var s := Pow2(nm) + m; Quanta(nm, e, m) + Quanta(nm, e, m + 1) == (s + (s + 1)) * Pow2(e - 1)
  {
    hide Pow2;
    var s := Pow2(nm) + m;
    MulAdd(Pow2(e - 1), s, s + 1);
  }

  lemma TieAbove(k: nat, s: nat, u: nat, num: nat)
    requires k <= s && num == (s + (s + 1)) * u
    ensures k * u * 2 <= num
  {
    MulMono(u, 2 * k, s + (s + 1));
    MulAssoc(2, k, u);
  }

  lemma TieHalf(s: nat, u: nat, k: nat, num: nat)
    requires u > 0 && k % 2 == 0 && (k == s || k == s + 1) && num == (s + (s + 1)) * u
    ensures Half(num, 2 * u, k)
  {
    MulAssoc(k, 2, u);
    MulAdd(u, 2 * s, 1);
    MulAdd(u, 2 * s, 2);
  }

  /** Scaling both by `c` does not change what a quotient rounds to. */
  lemma HalfScale(num: int, den: int, c: int, s: int)
    requires c > 0 && den > 0
    ensures Half(num * c, den * c, s) <==> Half(num, den, s)
  {
    MulAssoc(s, den, c);
    MulSub(num, s * den, c);
    MulSub(s * den, num, c);
    var d := Dist(num, den, s);
    ScaledCompare(num, s * den, c);
    assert Dist(num * c, den * c, s) == d * c;
    ScaledCompare(2 * d, den, c);
    ScaledCompare(den, 2 * d, c);
    MulAssoc(2, d, c);
  }

  lemma Scaled(p: nat, d: nat, k: nat, s: nat, u: nat)
    requires d > 0 && u > 0 && Binade(k, d, p, s)
    ensures d * u > 0 && Binade(k, d * u, p * u, s)
  {
    MulLess(d, 0, u);
    MulAssoc(k, d, u);
    MulAssoc(2 * k, d, u);
    MulMono(u, k * d, p);
    MulLess(u, p, 2 * k * d);
    HalfScale(p, d, u, s);
  }

  lemma LeastNormal(num: nat, den: nat, nm: nat, a: nat, s: nat)
    requires Normalized(num, den, nm, a, a + 1, s) && s == Pow2(nm + 1)
    ensures RoundsTo(num, den, nm, 1, EncMan(nm, s))
  {
    NormalizedRange(num, den, nm, a, a + 1, s);
    ReachesExponent(num, den, nm, a, a + 1, s, 0);
    assert Pow2(0) == 1;
    Pow2Next(a);
    hide Pow2;
    var k, u := Pow2(nm), Pow2(a);
    QuarterBelow(num, den, k, u);
    GridRounds(num, den, nm, 1, k);
  }

  lemma QuarterBelow(num: int, den: int, k: int, u: int)
    requires den > 0 && u > 0 && num * (2 * u) < 2 * k * (den * u) && 4 * num >= (4 * k - 1) * den
    ensures Half(num, den, k)
  {
    assert num * (2 * u) == 2 * num * u && 2 * k * (den * u) == 2 * (k * den) * u;
    Cancel(2 * num, 2 * (k * den), u);
    assert (4 * k - 1) * den == 4 * (k * den) - den;
  }

  /** A subnormal is the roundTiesToEven encoding exactly when it is within half a quantum, ties even. */
  lemma SubnormalRounds(num: nat, den: nat, nm: nat, m: nat)
    requires nm >= 1 && den > 0 && m < Pow2(nm)
    ensures RoundsTo(num, den, nm, 0, m) <==> Half(num, den, m)
  {
    if RoundsTo(num, den, nm, 0, m) {
      QuantaStep(nm, m);
      var e' := if m + 1 < Pow2(nm) then 0 else 1;
      RoundsToAt(num, den, nm, 0, m, e', if e' == 0 then m + 1 else 0);
      if m >= 1 {
        RoundsToAt(num, den, nm, 0, m, 0, m - 1);
      }
      Neighbours(num, den, m);
    }
    if Half(num, den, m) {
      forall e': nat, m': nat {:trigger Quanta(nm, e', m')} | m' < Pow2(nm)
        ensures Dist(num, den, m) <= Dist(num, den, Quanta(nm, e', m'))
        ensures Dist(num, den, m) == Dist(num, den, Quanta(nm, e', m')) ==> m == Quanta(nm, e', m') || m % 2 == 0
      {
        HalfIsNearest(num, den, m, Quanta(nm, e', m'));
      }
    }
  }

  lemma QuantaStep(nm: nat, m: nat)
    requires m < Pow2(nm)
    ensures Quanta(nm, 0, m) == m
    ensures m + 1 < Pow2(nm) ==> Quanta(nm, 0, m + 1) == m + 1
    ensures m + 1 == Pow2(nm) ==> Quanta(nm, 1, 0) == m + 1
  {
    assert Pow2(0) == 1;
  }

  lemma Neighbours(num: nat, den: nat, m: nat)
    requires den > 0
    requires Dist(num, den, m) <= Dist(num, den, m + 1) && (Dist(num, den, m) == Dist(num, den, m + 1) ==> m % 2 == 0)
    requires m >= 1 ==>
              Dist(num, den, m) <= Dist(num, den, m - 1) && (Dist(num, den, m) == Dist(num, den, m - 1) ==> m % 2 == 0)
    ensures Half(num, den, m)
  {
    assert (m + 1) * den == m * den + den && (m - 1) * den == m * den - den;
  }

  /** Below the range, what the routines leave is correct only for the values named here. */
  lemma BelowRange(num: nat, den: nat, nm: nat, a: nat, b: nat, s: nat, m: nat)
    requires Normalized(num, den, nm, a, b, s) && a + Carried(nm, s) < b && nm >= 1
    requires m == if b == a + 1 then s - Pow2(nm) else 0
    ensures m < Pow2(nm)
    ensures RoundsTo(num, den, nm, 0, m) <==> 2 * num <= den || LastSubnormal(num, den, nm)
  {
    hide Pow2, Half, RoundsTo, Normalized, LastBelow, Dist;
    NormalizedRange(num, den, nm, a, b, s);
    EvenPower(nm);
    BelowNormalized(num, den, nm, a, b, s, m);
    SubnormalRounds(num, den, nm, m);
  }

  lemma EvenPower(nm: nat)
    requires nm >= 1
    ensures Pow2(nm) >= 2 && Pow2(nm) % 2 == 0
  {
    Pow2Next(nm - 1);
  }

  lemma BelowNormalized(num: nat, den: nat, nm: nat, a: nat, b: nat, s: nat, m: nat)
    requires Normalized(num, den, nm, a, b, s) && s <= 2 * Pow2(nm) && a + (if s == 2 * Pow2(nm) then 1 else 0) < b
    requires nm >= 1
    requires m == if b == a + 1 then s - Pow2(nm) else 0
    ensures den > 0 && (Half(num, den, m) <==> 2 * num <= den || LastBelow(num, den, Pow2(nm)))
  {
    EvenPower(nm);
    hide Pow2, Half, Binade, LastBelow;
    BelowUnits(num, den, Pow2(nm), a, b, s, m);
  }

  lemma BelowUnits(num: int, den: int, k: int, a: nat, b: nat, s: int, m: int)
    requires den > 0 && k >= 2 && k % 2 == 0 && num >= 0 && s <= 2 * k && a + (if s == 2 * k then 1 else 0) < b
    requires Binade(k, den * Pow2(a), num * Pow2(b), s) && m == if b == a + 1 then s - k else 0
    ensures Half(num, den, m) <==> 2 * num <= den || LastBelow(num, den, k)
  {
    hide Pow2, Half;
    if b == a + 1 {
      HalfUnit(num, den, k, a, s);
      LastPlace(num, den, k, s);
    } else {
      QuarterUnit(num, den, k, a, b);
    }
  }

  lemma QuarterUnit(num: int, den: int, k: int, a: nat, b: nat)
    requires den > 0 && k >= 2 && num >= 0 && b >= a + 2 && num * Pow2(b) < 2 * k * (den * Pow2(a))
    ensures Half(num, den, 0) <==> 2 * num <= den || ((4 * k - 3) * den < 4 * num < (4 * k - 2) * den)
  {
    hide Pow2, Half;
    FourTimes(a, b);
    Quarter(num, den, k, Pow2(a), Pow2(b - a - 2));
  }

  lemma HalfUnit(num: int, den: int, k: int, a: nat, s: int)
    requires den > 0 && k * (den * Pow2(a)) <= num * Pow2(a + 1) && Half(num * Pow2(a + 1), den * Pow2(a), s)
    ensures Half(2 * num, den, s) && 2 * num >= k * den
  {
    Pow2Next(a);
    hide Pow2, Half;
    var u := Pow2(a);
    assert num * (2 * u) == 2 * num * u;
    HalfScale(2 * num, den, u, s);
    MulAssoc(k, den, u);
    Cancel(2 * num, k * den, u);
  }

  lemma LastPlace(num: int, den: int, k: int, s: int)
    requires den > 0 && k >= 2 && k % 2 == 0 && s <= 2 * k - 1 && Half(2 * num, den, s) && 2 * num >= k * den
    ensures Half(num, den, s - k) <==> 2 * num <= den || ((4 * k - 3) * den < 4 * num < (4 * k - 2) * den)
  {
    var t := k * den;
    MulMono(den, 2, k);
    MulSub(4 * k, 3, den);
    MulSub(4 * k, 2, den);
    MulSub(2 * k, 1, den);
    MulAssoc(4, k, den);
    MulAssoc(2, k, den);
    MulSub(s, k, den);
    if s < 2 * k - 1 {
      MulMono(den, s, 2 * k - 2);
      MulSub(2 * k, 2, den);
      LowerPlace(num, den, t, s * den, s, k);
    } else {
      LastOne(num, den, t, k);
    }
  }

  lemma LowerPlace(num: int, den: int, t: int, sd: int, s: int, k: int)
    requires den > 0 && t >= 2 * den && sd == s * den && sd <= 2 * t - 2 * den && (s - k) * den == sd - t
    requires Half(2 * num, den, s) && 2 * num >= t
    ensures !Half(num, den, s - k) && !(2 * num <= den) && !(4 * t - 3 * den < 4 * num < 4 * t - 2 * den)
  {
  }

  lemma LastOne(num: int, den: int, t: int, k: int)
    requires den > 0 && t >= 2 * den && k % 2 == 0 && (2 * k - 1) * den == 2 * t - den && (k - 1) * den == t - den
    requires Half(2 * num, den, 2 * k - 1) && 2 * num >= t
    ensures Half(num, den, k - 1) <==> 4 * t - 3 * den < 4 * num < 4 * t - 2 * den
  {
  }

  lemma Quarter(num: int, den: int, k: int, u: int, w: int)
    requires den > 0 && k >= 2 && u >= 1 && w >= 1 && num >= 0 && num * (w * (4 * u)) < 2 * k * (den * u)
    ensures Half(num, den, 0) <==> 2 * num <= den || ((4 * k - 3) * den < 4 * num < (4 * k - 2) * den)
  {
    MulMono(4 * u, 1, w);
    MulMono(num, 4 * u, w * (4 * u));
    assert num * (4 * u) == 4 * num * u && 2 * k * (den * u) == 2 * (k * den) * u;
    Cancel(4 * num, 2 * (k * den), u);
    MulMono(den, 2, k);
    assert (4 * k - 3) * den == 4 * (k * den) - 3 * den;
    assert 0 * den == 0;
  }

  /** The fields are the roundTiesToEven encoding exactly when the value does not round beyond the largest exponent and
      either rounds to zero, reaches the least normal number, or is one of the last subnormal values. */
  lemma FieldsExact(num: nat, den: nat, ne: nat, nm: nat, a: nat, b: nat, s: nat, e: int)
    requires Normalized(num, den, nm, a, b, s) && nm >= 1 && ne >= 1 && e == 1 + a - b + Carried(nm, s)
    ensures FieldMan(ne, nm, e, s) < Pow2(nm)
    ensures RoundsTo(num, den, nm, FieldExp(ne, e), FieldMan(ne, nm, e, s)) <==>
            !Reaches(num, den, nm, Pow2(ne) - 1) &&
            (2 * num <= den || Reaches(num, den, nm, 0) || LastSubnormal(num, den, nm))
  {
    NormalizedRange(num, den, nm, a, b, s);
    hide Pow2, Half, RoundsTo;
    ReachesExponent(num, den, nm, a, b, s, Pow2(ne) - 1);
    ReachesExponent(num, den, nm, a, b, s, 0);
    if e >= Pow2(ne) {
      SubnormalRounds(num, den, nm, 0);
      NotSmall(num, den, nm);
    } else if e >= 1 {
      NormalizedRounds(num, den, nm, a, b, s);
    } else {
      BelowRange(num, den, nm, a, b, s, FieldMan(ne, nm, e, s));
    }
  }

  lemma ZeroIsHalf(den: nat)
    ensures Half(0, den, 0)
  {
    assert 0 * den == 0;
  }

  lemma NotReached(den: nat, nm: nat, t: nat)
    requires den > 0
    ensures !Reaches(0, den, nm, t)
  {
    MulLess(den, 0, Pow2(t));
    MulLess(den * Pow2(t), 0, 4 * Pow2(nm) - 1);
  }

  lemma NotSmall(num: nat, den: nat, nm: nat)
    requires den > 0 && Reaches(num, den, nm, 0)
    ensures !Half(num, den, 0)
  {
    assert Pow2(0) == 1;
    MulMono(den, 3, 4 * Pow2(nm) - 1);
    assert 0 * den == 0;
  }

  lemma NormalizedTwice(num: nat, den: nat, nm: nat, a: nat, b: nat, s: nat)
    requires Normalized(num, den, nm, a, b, s)
    ensures Normalized(2 * num, den, nm, a + 1, b, s)
  {
    Pow2Next(a);
    hide Pow2, Half, Binade;
    Scaled(num * Pow2(b), den * Pow2(a), Pow2(nm), s, 2);
    MulAssoc(den, Pow2(a), 2);
    MulAssoc(2, num, Pow2(b));
  }

  /** The exponent leaves its field at the top exactly when the value rounds beyond the largest number, and at the
      bottom exactly when twice the value does not reach the least normal number. */
  lemma ExponentRange(num: nat, den: nat, ne: nat, nm: nat, a: nat, b: nat, s: nat, e: int)
    requires Normalized(num, den, nm, a, b, s) && e == 1 + a - b + Carried(nm, s)
    ensures e >= Pow2(ne) <==> Reaches(num, den, nm, Pow2(ne) - 1)
    ensures e >= 0 <==> Reaches(2 * num, den, nm, 0)
  {
    hide Pow2, Normalized, Reaches;
    ReachesExponent(num, den, nm, a, b, s, Pow2(ne) - 1);
    NormalizedTwice(num, den, nm, a, b, s);
    ReachesExponent(2 * num, den, nm, a + 1, b, s, 0);
  }
}
