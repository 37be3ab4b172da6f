/** roundTiesToEven of section 4.3.1 of IEEE 754-2008 on the encodings of section 3.4, exactly and over integers.
    All magnitudes are counted in quanta: the value of the least subnormal. */
module Rounding {
  import opened Numbers

  /** The magnitude of the encoding with exponent field `e` and `nm`-bit mantissa field `m`, in quanta. */
  function Quanta(nm: nat, e: nat, m: nat): nat {
    if e == 0 then m else (Pow2(nm) + m) * Pow2(e - 1)
  }

  /** `num/den` rounded to an integer, halves to even. */
  function RoundDiv(num: nat, den: nat): nat
    requires den > 0
  {
    var q, r := num / den, num % den;
    if 2 * r < den then q else if 2 * r > den then q + 1 else q + q % 2
  }

  function Dist(num: int, den: int, v: int): nat {
    if num >= v * den then num - v * den else v * den - num
  }

  /** The encoding `(e, m)` is nearest to `num/den` among all encodings (exponents unbounded above),
      and has an even mantissa if another encoding is equally near. */
  ghost predicate RoundsTo(num: nat, den: nat, nm: nat, e: nat, m: nat) {
    && m < Pow2(nm)
    && forall e': nat, m': nat {:trigger Quanta(nm, e', m')} | m' < Pow2(nm) ::
         && Dist(num, den, Quanta(nm, e, m)) <= Dist(num, den, Quanta(nm, e', m'))
         && (Dist(num, den, Quanta(nm, e, m)) == Dist(num, den, Quanta(nm, e', m')) ==>
               Quanta(nm, e, m) == Quanta(nm, e', m') || m % 2 == 0)
  }

  /** `s` is within half of `num/den`, and even at exactly half. */
  ghost predicate Half(num: int, den: int, s: int) {
    2 * Dist(num, den, s) <= den && (2 * Dist(num, den, s) == den ==> s % 2 == 0)
  }

  lemma RoundDivHalf(num: nat, den: nat)
    requires den > 0
    ensures Half(num, den, RoundDiv(num, den))
  {
    var q, r := num / den, num % den;
    MulAdd(den, q, 1);
  }

  /** Within half is nearest among the integers, with ties only when even. */
  lemma HalfIsNearest(num: int, den: int, s: int, k: int)
    requires den > 0 && Half(num, den, s)
    ensures Dist(num, den, s) <= Dist(num, den, k)
    ensures Dist(num, den, s) == Dist(num, den, k) ==> k == s || s % 2 == 0
  {
    MulSub(k, s, den);
    if k > s {
      MulAtLeast(k - s, den);
    } else if k < s {
      MulSub(s, k, den);
      MulAtLeast(s - k, den);
    }
  }

  /** Nothing else is within half. */
  lemma HalfUnique(num: int, den: int, s: int, k: int)
    requires den > 0 && Half(num, den, s) && Half(num, den, k)
    ensures k == s
  {
    if k < s {
      HalfGap(num, den, k, s);
    } else if s < k {
      HalfGap(num, den, s, k);
    }
  }

  lemma HalfGap(num: int, den: int, s: int, k: int)
    requires den > 0 && s < k
    ensures !(Half(num, den, s) && Half(num, den, k))
  {
    MulSub(k, s, den);
    if k == s + 1 {
      assert (k - s) * den == den;
    } else {
      MulMono(den, 2, k - s);
    }
  }

  /** Common factors do not matter. */
  lemma RoundDivScale(num: nat, den: nat, c: nat)
    requires den > 0 && c > 0
    ensures num * c >= 0 && den * c > 0 && RoundDiv(num * c, den * c) == RoundDiv(num, den)
  {
    var q, r := num / den, num % den;
    MulMono(c, 0, num);
    MulLess(c, 0, den);
    MulAdd(c, q * den, r);
    MulAssoc(q, den, c);
    MulLess(c, r, den);
    MulMono(c, 0, r);
    DivModUnique(num * c, den * c, q, r * c);
    ScaledCompare(2 * r, den, c);
  }

  lemma ScaledCompare(a: int, b: int, c: int)
    requires c > 0
    ensures a < b <==> a * c < b * c
    ensures a > b <==> a * c > b * c
  {
    if a < b {
      MulLess(c, a, b);
    } else if b < a {
      MulLess(c, b, a);
    }
  }

  /** The encoding of `s` units of `2^(e-1)` quanta when `2^nm <= s <= 2^(nm+1)`. */
  function EncExp(nm: nat, e: nat, s: nat): nat {
    if s == Pow2(nm + 1) then e + 1 else e
  }

  function EncMan(nm: nat, s: nat): nat
    requires Pow2(nm) <= s
  {
    if s == Pow2(nm + 1) then 0 else s - Pow2(nm)
  }

  lemma QuantaEnc(nm: nat, e: nat, s: nat)
    requires e >= 1 && Pow2(nm) <= s <= Pow2(nm + 1)
    ensures Quanta(nm, EncExp(nm, e, s), EncMan(nm, s)) == s * Pow2(e - 1)
    ensures EncMan(nm, s) < Pow2(nm)
  {
    Pow2Next(nm);
    Pow2Next(e - 1);
    MulAssoc(Pow2(nm), 2, Pow2(e - 1));
  }

  lemma DistUnits(num: int, den: int, k: int, u: int)
    ensures Dist(num, den, k * u) == Dist(num, den * u, k)
  {
    MulAssoc(k, u, den);
    assert k * u * den == k * (den * u);
  }

  /** Encodings with an exponent field of at least `e` lie on the grid of `2^(e-1)` quanta. */
  lemma OnGrid(nm: nat, e: nat, e': nat, m': nat) returns (k: nat)
    requires e >= 1 && (e == 1 || e' >= e)
    ensures Quanta(nm, e', m') == k * Pow2(e - 1)
  {
    if e' < e {
      k := m';
      assert Pow2(0) == 1;
    } else {
      k := (Pow2(nm) + m') * Pow2(e' - e);
      Pow2Add(e' - e, e - 1);
      MulAssoc(Pow2(nm) + m', Pow2(e' - e), Pow2(e - 1));
    }
  }

  /** Encodings with a smaller exponent field lie below `2^nm` units of `2^(e-1)` quanta. */
  lemma BelowGrid(nm: nat, e: nat, e': nat, m': nat)
    requires e' < e && e >= 2 && m' < Pow2(nm)
    ensures Quanta(nm, e', m') < Pow2(nm) * Pow2(e - 1)
  {
    hide Pow2;
    if e' == 0 {
      MulMono(Pow2(nm), 1, Pow2(e - 1));
    } else {
      MulLess(Pow2(e' - 1), Pow2(nm) + m', 2 * Pow2(nm));
      Pow2Next(e' - 1);
      Pow2Mono(e', e - 1);
      MulMono(Pow2(nm), Pow2(e'), Pow2(e - 1));
      MulAssoc(Pow2(nm), 2, Pow2(e' - 1));
    }
  }

  /** Rounding on the grid of the right binade is roundTiesToEven over all encodings. */
  lemma GridRounds(num: nat, den: nat, nm: nat, e: nat, s: nat)
    requires nm >= 1 && e >= 1 && den > 0 && Pow2(nm) <= s <= Pow2(nm + 1)
    requires Half(num, den * Pow2(e - 1), s)
    requires e == 1 || Pow2(nm) * Pow2(e - 1) * den <= num
    ensures RoundsTo(num, den, nm, EncExp(nm, e, s), EncMan(nm, s))
  {
    hide Pow2, Half, Dist;
    var u, v := Pow2(e - 1), s * Pow2(e - 1);
    QuantaEnc(nm, e, s);
    EncParity(nm, s);
    forall e': nat, m': nat {:trigger Quanta(nm, e', m')} | m' < Pow2(nm)
      ensures Dist(num, den, v) <= Dist(num, den, Quanta(nm, e', m'))
      ensures Dist(num, den, v) == Dist(num, den, Quanta(nm, e', m')) ==> v == Quanta(nm, e', m') || s % 2 == 0
    {
      GridCandidate(num, den, nm, e, s, e', m');
    }
  }

  lemma EncParity(nm: nat, s: nat)
    requires nm >= 1 && Pow2(nm) <= s <= Pow2(nm + 1)
    ensures s % 2 == 0 ==> EncMan(nm, s) % 2 == 0
  {
    Pow2Next(nm - 1);
  }

  lemma GridCandidate(num: nat, den: nat, nm: nat, e: nat, s: nat, e': nat, m': nat)
    requires e >= 1 && den > 0 && m' < Pow2(nm) && Half(num, den * Pow2(e - 1), s)
    requires e == 1 || Pow2(nm) * Pow2(e - 1) * den <= num
    ensures Dist(num, den, s * Pow2(e - 1)) <= Dist(num, den, Quanta(nm, e', m'))
    ensures Dist(num, den, s * Pow2(e - 1)) == Dist(num, den, Quanta(nm, e', m')) ==>
              s * Pow2(e - 1) == Quanta(nm, e', m') || s % 2 == 0
  {
    hide Pow2, Half, Quanta;
    var u, f := Pow2(e - 1), Quanta(nm, e', m');
    MulLess(den, 0, u);
    DistUnits(num, den, s, u);
    if e == 1 || e' >= e {
      var k := OnGrid(nm, e, e', m');
      DistUnits(num, den, k, u);
      HalfIsNearest(num, den * u, s, k);
    } else {
      BelowGrid(nm, e, e', m');
      DistUnits(num, den, Pow2(nm), u);
      HalfIsNearest(num, den * u, s, Pow2(nm));
      MulLess(den, f, Pow2(nm) * u);
    }
  }

  /** Encodings are ordered like their fields. */
  lemma QuantaOrder(nm: nat, e: nat, m: nat, e': nat, m': nat)
    requires m < Pow2(nm) && m' < Pow2(nm) && (e < e' || (e == e' && m < m'))
    ensures Quanta(nm, e, m) < Quanta(nm, e', m')
  {
    hide Pow2, Quanta;
    if e == e' {
      QuantaSameExp(nm, e, m, m');
    } else {
      QuantaLow(nm, e', m');
      if e' >= 2 {
        BelowGrid(nm, e', e, m);
      } else {
        QuantaSubnormal(nm, m);
      }
    }
  }

  lemma QuantaSameExp(nm: nat, e: nat, m: nat, m': nat)
    requires m < m'
    ensures Quanta(nm, e, m) < Quanta(nm, e, m')
  {
    if e > 0 {
      MulLess(Pow2(e - 1), Pow2(nm) + m, Pow2(nm) + m');
    }
  }

  lemma QuantaLow(nm: nat, e: nat, m: nat)
    requires e >= 1
    ensures Pow2(nm) * Pow2(e - 1) <= Quanta(nm, e, m)
  {
    MulMono(Pow2(e - 1), Pow2(nm), Pow2(nm) + m);
  }

  lemma QuantaSubnormal(nm: nat, m: nat)
    ensures Quanta(nm, 0, m) == m && Pow2(nm) * Pow2(0) == Pow2(nm)
  {
  }

  /** roundTiesToEven is a function: no two encodings satisfy it for one value. */
  lemma RoundsToUnique(num: nat, den: nat, nm: nat, e: nat, m: nat, e': nat, m': nat)
    requires nm >= 1 && den > 0 && m < Pow2(nm) && m' < Pow2(nm)
    requires RoundsTo(num, den, nm, e, m) && RoundsTo(num, den, nm, e', m')
    ensures e == e' && m == m'
  {
    hide Pow2, Quanta, Dist, RoundsTo;
    RoundsToAt(num, den, nm, e, m, e', m');
    RoundsToAt(num, den, nm, e', m', e, m);
    if e < e' || (e == e' && m < m') {
      QuantaOrder(nm, e, m, e', m');
      RoundsToBelow(num, den, nm, e, m, e', m');
      RoundsToAt(num, den, nm, e, m, e, m + 1);
    } else if e' < e || (e == e' && m' < m) {
      QuantaOrder(nm, e', m', e, m);
      RoundsToBelow(num, den, nm, e', m', e, m);
      RoundsToAt(num, den, nm, e', m', e', m' + 1);
    }
  }

  lemma RoundsToAt(num: nat, den: nat, nm: nat, e: nat, m: nat, e': nat, m': nat)
    requires RoundsTo(num, den, nm, e, m) && m' < Pow2(nm)
    ensures m < Pow2(nm)
    ensures Dist(num, den, Quanta(nm, e, m)) <= Dist(num, den, Quanta(nm, e', m'))
    ensures Dist(num, den, Quanta(nm, e, m)) == Dist(num, den, Quanta(nm, e', m')) ==>
              Quanta(nm, e, m) == Quanta(nm, e', m') || m % 2 == 0
  {
  }

  /** Two equally near encodings with even mantissas have a nearer one between them. */
  lemma RoundsToBelow(num: nat, den: nat, nm: nat, e: nat, m: nat, e': nat, m': nat)
    requires nm >= 1 && den > 0 && m < Pow2(nm) && m' < Pow2(nm) && (e < e' || (e == e' && m < m'))
    requires Dist(num, den, Quanta(nm, e, m)) == Dist(num, den, Quanta(nm, e', m'))
    requires m % 2 == 0 && m' % 2 == 0
    ensures m + 1 < Pow2(nm) && Dist(num, den, Quanta(nm, e, m + 1)) < Dist(num, den, Quanta(nm, e, m))
  {
    Pow2Next(nm - 1);
    hide Pow2, Quanta, Dist;
    QuantaOrder(nm, e, m, e, m + 1);
    QuantaOrder(nm, e, m + 1, e', m');
    Midpoint(num, den, Quanta(nm, e, m), Quanta(nm, e, m + 1), Quanta(nm, e', m'));
  }

  lemma Midpoint(num: int, den: int, f: int, g: int, f': int)
    requires den > 0 && f < g < f' && Dist(num, den, f) == Dist(num, den, f')
    ensures Dist(num, den, g) < Dist(num, den, f)
  {
    MulLess(den, f, g);
    MulLess(den, g, f');
  }

  /** What the guard and sticky bits decide: one more unit when past half, or at half and odd. */
  function RoundUp(z: nat, guard: bool, sticky: bool): nat {
    if guard && (sticky || z % 2 == 1) then z + 1 else z
  }

  /** A truncated quotient with its next bit and whether anything is left beyond it rounds to even correctly. */
  lemma GuardSticky(p: nat, d: nat, z: nat, guard: bool, rest: nat)
    requires d > 0 && rest < d && 2 * p == (2 * z + if guard then 1 else 0) * d + rest
    ensures RoundUp(z, guard, rest != 0) == RoundDiv(p, d)
  {
    var s := RoundUp(z, guard, rest != 0);
    assert (2 * z + 1) * d == 2 * (z * d) + d && 2 * z * d == 2 * (z * d);
    assert (z + 1) * d == z * d + d;
    RoundDivHalf(p, d);
    assert Half(p, d, s);
    HalfUnique(p, d, s, RoundDiv(p, d));
  }
}
