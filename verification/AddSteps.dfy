/** The steps of floating-point addition on integers: alignment with guard, round and sticky bits, the sum or
    difference, its normalisation and its rounding give the rounded exact sum of `FloatAdd`. */
module AddSteps {
  import opened Numbers
  import opened Rounding
  import opened Packing
  import opened FloatAdd

  /** The smaller significand, extended to `b` by the guard and round places, shifted below the larger one;
      `drop` when the routine zeroes it. */
  function Aligned(drop: bool, b: nat, gap: nat): nat {
    if drop then 0 else Whole(b, Pow2(gap))
  }

  function Whole(n: nat, q: nat): nat
    requires q > 0
  {
    n / q
  }

  /** Whether the shift lost a set bit. */
  function Lost(drop: bool, b: nat, gap: nat): bool {
    !drop && b % Pow2(gap) != 0
  }

  /** Sum or difference with the sticky bit as its lowest place. */
  function Combined(a: nat, p: nat, lost: bool, sub: bool): nat {
    var q := 2 * p + if lost then 1 else 0;
    if !sub then 8 * a + q else if 8 * a >= q then 8 * a - q else q - 8 * a
  }

  /** `4 * d` is `v` units of `q` and a rest that the sticky bit `st` records. */
  ghost predicate Truncates(d: nat, q: nat, v: nat, rest: nat, st: bool) {
    4 * d == v * q + rest && rest < q && (st <==> rest != 0)
  }

  /** Adding or subtracting the truncated operand with its sticky bit truncates the exact sum. */
  lemma CombinedTruncates(a: nat, b: nat, gap: nat, sub: bool) returns (rest: nat)
    ensures var r := Combined(a, Aligned(false, 4 * b, gap), Lost(false, 4 * b, gap), sub);
            Truncates(Units(a, b, gap, sub), Pow2(gap), r / 2, rest, r % 2 == 1)
  {
    hide Pow2;
    var q := Pow2(gap);
    var p, l := Aligned(false, 4 * b, gap), 4 * b % q;
    assert 4 * b == p * q + l;
    rest := Combine(q, a, b, p, l, sub);
  }

  lemma Combine(q: nat, a: nat, b: nat, p: nat, l: nat, sub: bool) returns (rest: nat)
    requires 4 * b == p * q + l && l < q
    ensures var r, h := Combined(a, p, l != 0, sub), q * a;
            Truncates(if !sub then h + b else if h >= b then h - b else b - h, q, r / 2, rest, r % 2 == 1)
  {
    var h, up := q * a, if l != 0 then 1 else 0;
    MulAssoc(4, a, q);
    CombinedParts(a, p, l != 0, sub);
    hide Combined;
    if !sub {
      rest := l;
      MulAdd(q, 4 * a, p);
    } else if 8 * a >= 2 * p + up {
      rest := CombineDown(q, 4 * a, h, b, p, l);
    } else {
      rest := CombineUp(q, 4 * a, h, b, p, l);
    }
  }

  lemma CombinedParts(a: nat, p: nat, lost: bool, sub: bool)
    ensures var r, up := Combined(a, p, lost, sub), if lost then 1 else 0;
            && (r % 2 == 1 <==> lost)
            && r / 2 == if !sub then 4 * a + p else if 8 * a >= 2 * p + up then 4 * a - p - up else p - 4 * a
  {
  }

  lemma CombineDown(q: nat, a: nat, h: int, b: int, p: nat, l: nat) returns (rest: nat)
    requires 4 * b == p * q + l && l < q && 4 * h == a * q && 2 * a >= 2 * p + if l != 0 then 1 else 0
    ensures h >= b && 4 * (h - b) == (a - p - if l != 0 then 1 else 0) * q + rest && rest < q && (rest != 0 <==> l != 0)
  {
    rest := if l != 0 then q - l else 0;
    Differs(a, p, q, l);
  }

  lemma CombineUp(q: nat, a: nat, h: int, b: int, p: nat, l: nat) returns (rest: nat)
    requires 4 * b == p * q + l && l < q && 4 * h == a * q && 2 * a < 2 * p + if l != 0 then 1 else 0
    ensures h <= b && (h == b ==> p == a && l == 0) && 4 * (b - h) == (p - a) * q + rest && rest < q
    ensures (rest != 0 <==> l != 0)
  {
    rest := l;
    MulSub(p, a, q);
    MulMono(q, a, p);
    if p > a {
      MulLess(q, a, p);
    }
  }

  lemma Differs(a: int, p: int, q: int, l: int)
    requires q > 0 && 0 <= l < q && 2 * a >= 2 * p + if l != 0 then 1 else 0
    ensures a * q - (p * q + l) == (if l != 0 then a - p - 1 else a - p) * q + (if l != 0 then q - l else 0)
    ensures a * q >= p * q + l
  {
    MulSub(a, p, q);
    if l != 0 {
      MulSub(a - p, 1, q);
      MulMono(q, 1, a - p);
    } else {
      MulMono(q, 0, a - p);
    }
  }

  /** The right shift by the carry keeps the truncation. */
  lemma CarryTruncates(nm: nat, gap: nat, d: nat, v: nat, rest: nat, st: bool) returns (rest': nat)
    requires Truncates(d, Pow2(gap), v, rest, st)
    ensures v >= Pow2(nm + 3) <==> Carry(nm, gap, d) == 1
    ensures v >= Pow2(nm + 3) ==> Truncates(d, Pow2(gap + 1), v / 2, rest', st || v % 2 == 1)
    ensures v < Pow2(nm + 3) ==> rest' == rest
  {
    Pow2Next(nm + 1 + gap);
    Pow2Next(nm + 2 + gap);
    Pow2Next(gap);
    hide Pow2;
    Pow2Add(nm + 3, gap);
    Reached(4 * d, v, Pow2(gap), rest, Pow2(nm + 3));
    rest' := rest;
    if v >= Pow2(nm + 3) {
      rest' := rest + if v % 2 == 1 then Pow2(gap) else 0;
      HalfUnits(v, Pow2(gap));
    }
  }

  lemma Reached(n: int, v: int, q: int, rest: int, k: int)
    requires n == v * q + rest && 0 <= rest < q
    ensures v >= k <==> n >= k * q
  {
    if v >= k {
      MulMono(q, k, v);
    } else {
      MulMono(q, v + 1, k);
      MulAdd(q, v, 1);
    }
  }

  lemma HalfUnits(v: int, q: int)
    ensures v * q == v / 2 * (2 * q) + if v % 2 == 1 then q else 0
  {
    var h := v / 2;
    assert h * (2 * q) == 2 * h * q;
    if v % 2 == 1 {
      assert v == 2 * h + 1;
      MulAdd(q, 2 * h, 1);
    } else {
      assert v == 2 * h;
    }
  }

  lemma LeadUnique(nm: nat, gap: nat, d: nat, t: nat)
    requires d > 0 && Pow2(t) * d >= Pow2(nm + gap) && (t > 0 ==> Pow2(t) * d < 2 * Pow2(nm + gap))
    ensures t == Lead(nm, gap, d)
  {
    hide Pow2;
    var u := Lead(nm, gap, d);
    if t < u {
      Doubling(t, u, d);
    } else if u < t {
      Doubling(u, t, d);
    }
  }

  lemma Doubling(t: nat, u: nat, d: nat)
    requires t < u
    ensures Pow2(u) * d >= 2 * (Pow2(t) * d)
  {
    Pow2Mono(t + 1, u);
    Pow2Next(t);
    MulMono(d, 2 * Pow2(t), Pow2(u));
    MulAssoc(2, Pow2(t), d);
  }

  lemma ScaleTerms(p: int, d: int, q: int, v: int, rest: int)
    requires 4 * d == v * q + rest
    ensures 4 * (p * d) == p * v * q + p * rest
  {
    MulAssoc(p, v, q);
    MulAdd(p, v * q, rest);
    MulAssoc(p, 4, d);
    MulAssoc(4, p, d);
  }

  /** The truncated sum, `t` places up: with a rest at most one place, so that guard and sticky bit still suffice. */
  lemma ScaledUnits(d: nat, q: nat, v: nat, rest: nat, st: bool, t: nat, w: nat)
    requires Truncates(d, q, v, rest, st) && w == Pow2(t) * v && (st ==> t <= 1)
    ensures 4 * (Pow2(t) * d) == w * q + Pow2(t) * rest
    ensures t == 0 ==> w == v && Pow2(t) * rest == rest
    ensures t > 0 ==> w % 2 == 0 && 0 <= Pow2(t) * rest < 2 * q
    ensures Pow2(t) * rest != 0 <==> st
  {
    var p := Pow2(t);
    assert t == 0 ==> p == 1;
    assert t == 1 ==> p == 2 by { Pow2Next(0); }
    hide Pow2;
    ScaleTerms(p, d, q, v, rest);
    if t > 0 {
      EvenMultiple(t, v);
    }
    if !st {
      MulZero(p);
    } else if t > 0 {
      assert p * rest == 2 * rest;
    }
  }

  lemma EvenMultiple(t: nat, v: nat)
    requires t > 0
    ensures Pow2(t) * v % 2 == 0
  {
    MulAssoc(2, Pow2(t - 1), v);
  }

  /** The leading zeros of the truncated sum are those of the exact sum. */
  lemma LeadOf(nm: nat, gap: nat, d: nat, c: nat, v: nat, rest: nat, st: bool, t: nat, w: nat)
    requires c == Carry(nm, gap, d) && Truncates(d, Pow2(gap + c), v, rest, st) && v > 0
    requires w == Pow2(t) * v && Pow2(nm + 2) <= w < Pow2(nm + 3) && (st ==> t <= 1) && (c == 1 ==> t == 0)
    ensures d > 0 && t == Lead(nm, gap, d)
  {
    Pow2Next(nm);
    Pow2Next(nm + 1);
    Pow2Next(nm + 2);
    Pow2Next(nm + gap);
    hide Pow2, Truncates;
    Pow2Add(nm, gap);
    TruncatesRest(d, Pow2(gap + c), v, rest, st);
    if c == 0 {
      ScaledUnits(d, Pow2(gap), v, rest, st, t, w);
      LeadBounds(Pow2(t) * d, Pow2(gap), w, Pow2(t) * rest, Pow2(nm), t > 0);
      LeadUnique(nm, gap, d, t);
    }
  }

  lemma LeadBounds(p: int, q: int, w: int, rest: int, k: int, up: bool)
    requires q > 0 && 4 * p == w * q + rest && 4 * k <= w < 8 * k && rest >= 0 && (up ==> w % 2 == 0 && rest < 2 * q)
    ensures p >= k * q && (up ==> p < 2 * (k * q))
  {
    MulMono(q, 4 * k, w);
    assert 4 * k * q == 4 * (k * q);
    if up {
      MulMono(q, w, 8 * k - 2);
      assert (8 * k - 2) * q == 8 * (k * q) - 2 * q;
    }
  }

  /** Rounding by guard, round and sticky bit is rounding the exact sum. */
  lemma SigOf(nm: nat, gap: nat, d: nat, c: nat, v: nat, rest: nat, st: bool, t: nat, w: nat)
    requires c == Carry(nm, gap, d) && Truncates(d, Pow2(gap + c), v, rest, st) && t == Lead(nm, gap, d)
    requires w == Pow2(t) * v && (st ==> t <= 1)
    ensures RoundUp(w / 4, w / 2 % 2 == 1, st || w % 2 == 1) == AddSig(nm, gap, d)
  {
    hide Pow2, RoundUp, RoundDiv, Lead, Truncates;
    var q, p := Pow2(gap + c), Pow2(t) * d;
    ScaledUnits(d, q, v, rest, st, t, w);
    TruncatesRest(d, q, v, rest, st);
    RoundUnits(p, q, w, Pow2(t) * rest, st);
  }

  lemma TruncatesRest(d: nat, q: nat, v: nat, rest: nat, st: bool)
    requires Truncates(d, q, v, rest, st)
    ensures rest < q && (v > 0 ==> d > 0)
  {
    if v > 0 {
      MulLess(q, 0, v);
    }
  }

  lemma RoundUnits(p: nat, q: nat, w: nat, rest: int, st: bool)
    requires 4 * p == w * q + rest && 0 <= rest && (if w % 2 == 0 then rest < 2 * q else rest < q)
    requires (st <==> rest != 0)
    ensures q > 0 && RoundUp(w / 4, w / 2 % 2 == 1, st || w % 2 == 1) == RoundDiv(p, q)
  {
    hide RoundUp, RoundDiv;
    var h, z, r := w / 2, w / 4, rest + if w % 2 == 1 then q else 0;
    HalfUnits(w, q);
    QuarterIs(w);
    GuardSticky(2 * p, 2 * q, z, h % 2 == 1, r);
    RoundDivScale(p, q, 2);
  }

  lemma QuarterIs(w: int)
    ensures w / 2 == 2 * (w / 4) + if w / 2 % 2 == 1 then 1 else 0
  {
  }

  /** A set bit can only be lost when the exponents differ so much that at most one leading place cancels. */
  lemma LostIsSmall(k: nat, a: nat, b: nat, gap: nat, sub: bool)
    requires b < 2 * k && (gap >= 1 ==> a >= k) && Lost(false, 4 * b, gap)
    ensures Combined(a, Aligned(false, 4 * b, gap), true, sub) / 2 >= 2 * k
  {
    LostGap(b, gap);
    AlignedSmall(4 * b, gap);
  }

  lemma LostGap(b: nat, gap: nat)
    requires Lost(false, 4 * b, gap)
    ensures gap >= 3
  {
    if gap < 3 {
      SmallGap(b, gap);
    }
  }

  lemma SmallGap(b: nat, gap: nat)
    requires gap < 3
    ensures 4 * b % Pow2(gap) == 0
  {
    assert Pow2(0) == 1 && Pow2(1) == 2 && Pow2(2) == 4;
    DivModUnique(4 * b, Pow2(gap), if gap == 0 then 4 * b else if gap == 1 then 2 * b else b, 0);
  }

  lemma AlignedSmall(b: nat, gap: nat)
    requires gap >= 3
    ensures 8 * Aligned(false, b, gap) <= b
  {
    assert Pow2(0) == 1 && Pow2(1) == 2 && Pow2(2) == 4 && Pow2(3) == 8;
    hide Pow2;
    Pow2Mono(3, gap);
    var p := Aligned(false, b, gap);
    assert p * Pow2(gap) <= b;
    MulMono(p, 8, Pow2(gap));
  }

  /** How far a register with a known top bit can move up. */
  lemma ShiftLimit(k: nat, v: nat, t: nat, w: nat)
    requires w == Pow2(t) * v && w < 8 * k
    ensures v >= 4 * k ==> t == 0
    ensures v >= 2 * k ==> t <= 1
  {
    assert Pow2(0) == 1 && Pow2(1) == 2 && Pow2(2) == 4;
    if t >= 1 {
      Pow2Mono(1, t);
      MulMono(v, 2, Pow2(t));
    }
    if t >= 2 {
      Pow2Mono(2, t);
      MulMono(v, 4, Pow2(t));
    }
  }

  /** The register with guard and round places after the sum and the shift by its carry. */
  function CarryShifted(nm: nat, r: nat): nat {
    if r / 2 >= Pow2(nm + 3) then r / 4 else r / 2
  }

  function CarrySticky(nm: nat, r: nat): bool {
    r % 2 == 1 || (r / 2 >= Pow2(nm + 3) && r / 2 % 2 == 1)
  }

  /** The register after the shift by the carry truncates the exact sum. */
  lemma SumTruncates(nm: nat, a: nat, b: nat, gap: nat, sub: bool, r: nat) returns (rest: nat)
    requires b < Pow2(nm + 1) && (gap >= 1 ==> a >= Pow2(nm))
    requires r == Combined(a, Aligned(false, 4 * b, gap), Lost(false, 4 * b, gap), sub)
    ensures var d := Units(a, b, gap, sub);
            && (r / 2 >= Pow2(nm + 3) <==> Carry(nm, gap, d) == 1)
            && Truncates(d, Pow2(gap + Carry(nm, gap, d)), CarryShifted(nm, r), rest, CarrySticky(nm, r))
    ensures CarrySticky(nm, r) ==> CarryShifted(nm, r) >= 2 * Pow2(nm)
  {
    StickyLarge(nm, a, b, gap, sub, r);
    hide Pow2, Truncates, Units, Aligned, Lost, Combined, CarryShifted, CarrySticky, Carry;
    CarryForms(nm, r);
    var rest0 := CombinedTruncates(a, b, gap, sub);
    rest := CarryTruncates(nm, gap, Units(a, b, gap, sub), r / 2, rest0, r % 2 == 1);
    CarryIsBit(nm, gap, Units(a, b, gap, sub));
  }

  lemma CarryIsBit(nm: nat, gap: nat, d: nat)
    ensures Carry(nm, gap, d) == 0 || Carry(nm, gap, d) == 1
  {
    hide Pow2;
  }

  /** The register after the carry shift, by whether the sum carried. */
  lemma CarryForms(nm: nat, r: nat)
    ensures r / 2 >= Pow2(nm + 3) ==>
              CarryShifted(nm, r) == r / 2 / 2 && (CarrySticky(nm, r) <==> r % 2 == 1 || r / 2 % 2 == 1)
    ensures r / 2 < Pow2(nm + 3) ==> CarryShifted(nm, r) == r / 2 && (CarrySticky(nm, r) <==> r % 2 == 1)
  {
    hide Pow2;
  }

  /** A sum that lost something is odd, hence large. */
  lemma OddIsLarge(k: nat, a: nat, b: nat, gap: nat, sub: bool, r: nat)
    requires b < 2 * k && (gap >= 1 ==> a >= k) && r % 2 == 1
    requires r == Combined(a, Aligned(false, 4 * b, gap), Lost(false, 4 * b, gap), sub)
    ensures r / 2 >= 2 * k
  {
    hide Aligned, Lost;
    LostIsSmall(k, a, b, gap, sub);
  }

  lemma StickyBound(r: nat, p: nat, k: nat, v: nat, st: bool)
    requires p == 8 * k && (r % 2 == 1 ==> r / 2 >= 2 * k)
    requires v == (if r / 2 >= p then r / 4 else r / 2) && (st <==> r % 2 == 1 || (r / 2 >= p && r / 2 % 2 == 1))
    ensures st ==> v >= 2 * k
  {
  }

  /** A set sticky bit leaves at most one leading zero. */
  lemma StickyLarge(nm: nat, a: nat, b: nat, gap: nat, sub: bool, r: nat)
    requires b < Pow2(nm + 1) && (gap >= 1 ==> a >= Pow2(nm))
    requires r == Combined(a, Aligned(false, 4 * b, gap), Lost(false, 4 * b, gap), sub)
    ensures CarrySticky(nm, r) ==> CarryShifted(nm, r) >= 2 * Pow2(nm)
  {
    Pow2Next(nm);
    Pow2Next(nm + 1);
    Pow2Next(nm + 2);
    hide Pow2, Aligned, Lost, Combined;
    if r % 2 == 1 {
      OddIsLarge(Pow2(nm), a, b, gap, sub, r);
    }
    StickyBound(r, Pow2(nm + 3), Pow2(nm), CarryShifted(nm, r), CarrySticky(nm, r));
  }

  /** The steps of signed addition compute carry, leading zeros and significand of the exact sum. */
  lemma SignedRefines(nm: nat, a: nat, b: nat, gap: nat, sub: bool, r: nat, t: nat, w: nat)
    requires b < Pow2(nm + 1) && (gap >= 1 ==> a >= Pow2(nm))
    requires r == Combined(a, Aligned(false, 4 * b, gap), Lost(false, 4 * b, gap), sub)
    requires var v := CarryShifted(nm, r);
             if v == 0 then w == 0 && t == 0 else w == Pow2(t) * v && Pow2(nm + 2) <= w < Pow2(nm + 3)
    ensures var d := Units(a, b, gap, sub);
            && (d == 0 <==> CarryShifted(nm, r) == 0)
            && (r / 2 >= Pow2(nm + 3) <==> Carry(nm, gap, d) == 1)
            && t == Lead(nm, gap, d)
            && RoundUp(w / 4, w / 2 % 2 == 1, CarrySticky(nm, r) || w % 2 == 1) == AddSig(nm, gap, d)
  {
    Pow2Next(nm);
    Pow2Next(nm + 1);
    Pow2Next(nm + 2);
    hide Pow2, Lead, AddSig, RoundUp, Truncates, Units, CarrySticky, Combined;
    var d := Units(a, b, gap, sub);
    var c, v, st := Carry(nm, gap, d), CarryShifted(nm, r), CarrySticky(nm, r);
    var rest := SumTruncates(nm, a, b, gap, sub, r);
    TruncatesZero(d, Pow2(gap + c), v, rest, st);
    if v == 0 {
      ZeroSteps(nm, gap, w, st);
    } else {
      ShiftLimit(Pow2(nm), v, t, w);
      LeadOf(nm, gap, d, c, v, rest, st, t, w);
      SigOf(nm, gap, d, c, v, rest, st, t, w);
    }
  }

  lemma TruncatesZero(d: nat, q: nat, v: nat, rest: nat, st: bool)
    requires Truncates(d, q, v, rest, st) && (st ==> v > 0)
    ensures d == 0 <==> v == 0
  {
    if v > 0 {
      MulLess(q, 0, v);
    }
  }

  lemma ZeroSteps(nm: nat, gap: nat, w: nat, st: bool)
    requires w == 0
    ensures Lead(nm, gap, 0) == 0 && AddSig(nm, gap, 0) == 0
    ensures RoundUp(w / 4, w / 2 % 2 == 1, st || w % 2 == 1) == 0
  {
    assert Pow2(0) * 0 == 0;
    DivModUnique(0, Pow2(gap + Carry(nm, gap, 0)), 0, 0);
  }

  /** An operand below a quarter of a unit does not change the sum, so the routines may drop it. */
  lemma DroppedSum(ne: nat, nm: nat, a: nat, b: nat, gap: nat, sub: bool, he: nat)
    requires gap >= nm + 3 && Pow2(nm) <= a < 2 * Pow2(nm) && b < 2 * Pow2(nm)
    ensures var d := Units(a, b, gap, sub);
            d > 0 && AddExp(nm, gap, d, he) == he && FieldMan(ne, nm, he, AddSig(nm, gap, d)) == FieldMan(ne, nm, he, a)
  {
    Pow2Next(nm);
    Pow2Next(nm + 1);
    Pow2Next(nm + 2);
    Pow2Mono(nm + 3, gap);
    Pow2Next(nm + gap);
    hide Pow2, RoundDiv, Half;
    Pow2Add(nm, gap);
    var q, k, d := Pow2(gap), Pow2(nm), Units(a, b, gap, sub);
    RoundDivHalf(Pow2(Lead(nm, gap, d)) * d, q);
    DropCases(nm, q, k, a, b, sub, d);
    if sub && a == k && b > 0 {
      OneLead(nm, gap, d);
      HalfUnique(2 * d, q, 2 * k, AddSig(nm, gap, d));
    } else {
      NoLead(nm, gap, d);
      HalfUnique(d, q, a, AddSig(nm, gap, d));
    }
  }

  lemma NoLead(nm: nat, gap: nat, d: nat)
    requires d >= Pow2(nm + gap)
    ensures Lead(nm, gap, d) == 0 && Pow2(0) * d == d
  {
  }

  lemma OneLead(nm: nat, gap: nat, d: nat)
    requires 0 < d < Pow2(nm + gap) <= 2 * d
    ensures Lead(nm, gap, d) == 1 && Pow2(1) * d == 2 * d
  {
    NoLead(nm, gap, 2 * d);
    assert Pow2(1) == 2 * Pow2(0);
  }

  /** `DropCases` with the products `kq` and `aq` named. */
  lemma DropBounds(q: int, k: int, a: int, b: int, sub: bool, d: int, kq: int, aq: int)
    requires q >= 8 * k && k >= 1 && k <= a < 2 * k && 0 <= b < 2 * k
    requires d == if !sub then aq + b else if aq >= b then aq - b else b - aq
    requires kq <= aq <= 2 * kq - q && q <= kq && (a == k ==> aq == kq) && (a > k ==> aq >= kq + q)
    ensures 0 < d < 2 * kq
    ensures if sub && a == k && b > 0 then d < kq <= 2 * d && d == kq - b else d >= kq && -b <= d - aq <= b
  {
  }

  lemma DropCases(nm: nat, q: nat, k: nat, a: nat, b: nat, sub: bool, d: nat)
    requires q >= 8 * k && k >= 1 && k <= a < 2 * k && b < 2 * k
    requires d == var h := q * a; if !sub then h + b else if h >= b then h - b else b - h
    ensures 0 < d < 2 * (k * q)
    ensures if sub && a == k && b > 0 then d < k * q <= 2 * d && Half(2 * d, q, 2 * k) else d >= k * q && Half(d, q, a)
  {
    var kq, aq := k * q, q * a;
    MulMono(q, k, a);
    MulMono(q, a, 2 * k - 1);
    assert q * (2 * k - 1) == 2 * kq - q;
    MulMono(q, 1, k);
    if a > k {
      MulMono(q, k + 1, a);
      MulAdd(q, k, 1);
    }
    DropBounds(q, k, a, b, sub, d, kq, aq);
    MulAssoc(2, k, q);
  }

  /** The register of unsigned addition (guard bit and significand) after the shift by the carry, whose own bit is
      lost. */
  function PlainShifted(nm: nat, v: nat): nat
    requires v < 2 * Pow2(nm + 2)
  {
    if v >= Pow2(nm + 2) then (v - Pow2(nm + 2)) / 2 else v
  }

  function PlainSticky(nm: nat, v: nat, st: bool): bool {
    st || (v >= Pow2(nm + 2) && v % 2 == 1)
  }

  /** The steps of unsigned addition compute carry and significand of the exact sum, up to the lost carry bit. */
  lemma UnsignedRefines(nm: nat, a: nat, b: nat, gap: nat, drop: bool, v: nat, w: nat, st: bool)
    requires nm >= 1 && a < Pow2(nm + 1) && b < Pow2(nm + 1) && (drop ==> gap >= nm + 2)
    requires v == 2 * a + Aligned(drop, 2 * b, gap) && st == PlainSticky(nm, v, Lost(drop, 2 * b, gap))
    requires v < 2 * Pow2(nm + 2) && w == PlainShifted(nm, v)
    ensures var d := Units(a, b, gap, false);
            && (v >= Pow2(nm + 2) <==> Carry(nm, gap, d) == 1)
            && RoundUp(w / 2, w % 2 == 1, st) + (if v >= Pow2(nm + 2) then Pow2(nm) else 0) == PlainSig(nm, gap, d)
  {
    if drop {
      DroppedPlain(nm, a, b, gap);
    } else {
      hide Pow2, RoundUp, RoundDiv, Units;
      PlainTruncates(a, b, gap);
      PlainRounds(nm, gap, Units(a, b, gap, false), v, 2 * b % Pow2(gap), Lost(drop, 2 * b, gap), w, st);
    }
  }

  lemma PlainTruncates(a: nat, b: nat, gap: nat)
    ensures 2 * Units(a, b, gap, false) == (2 * a + Aligned(false, 2 * b, gap)) * Pow2(gap) + 2 * b % Pow2(gap)
  {
    hide Pow2;
    var q := Pow2(gap);
    var p := Aligned(false, 2 * b, gap);
    assert 2 * b == p * q + 2 * b % q;
    MulAdd(q, 2 * a, p);
    assert q * (2 * a) == 2 * (q * a);
  }

  lemma PlainRounds(nm: nat, gap: nat, d: nat, v: nat, rest: nat, lost: bool, w: nat, st: bool)
    requires nm >= 1 && 2 * d == v * Pow2(gap) + rest && rest < Pow2(gap) && (lost <==> rest != 0)
    requires v < 2 * Pow2(nm + 2)
    requires w == PlainShifted(nm, v) && st == PlainSticky(nm, v, lost)
    ensures v >= Pow2(nm + 2) <==> Carry(nm, gap, d) == 1
    ensures RoundUp(w / 2, w % 2 == 1, st) + (if v >= Pow2(nm + 2) then Pow2(nm) else 0) == PlainSig(nm, gap, d)
  {
    Pow2Next(nm);
    Pow2Next(nm + 1);
    Pow2Next(nm + 1 + gap);
    Pow2Next(gap);
    hide Pow2, RoundDiv, RoundUp;
    Pow2Add(nm + 2, gap);
    Reached(2 * d, v, Pow2(gap), rest, Pow2(nm + 2));
    if v >= Pow2(nm + 2) {
      CarriedRounds(d, Pow2(gap), v, rest);
      LostCarry(nm, v, w, st);
    } else {
      GuardSticky(d, Pow2(gap), v / 2, v % 2 == 1, rest);
    }
  }

  lemma CarriedRounds(d: nat, q: nat, v: nat, rest: nat)
    requires 2 * d == v * q + rest && rest < q
    ensures RoundUp(v / 4, v / 2 % 2 == 1, rest != 0 || v % 2 == 1) == RoundDiv(d, 2 * q)
  {
    hide RoundUp, RoundDiv;
    HalfUnits(v, q);
    var h := v / 2;
    assert h == 2 * (v / 4) + if h % 2 == 1 then 1 else 0;
    GuardSticky(d, 2 * q, v / 4, h % 2 == 1, rest + if v % 2 == 1 then q else 0);
  }

  lemma LostCarry(nm: nat, v: nat, w: nat, st: bool)
    requires nm >= 1 && Pow2(nm + 2) <= v && w == (v - Pow2(nm + 2)) / 2
    ensures RoundUp(w / 2, w % 2 == 1, st) + Pow2(nm) == RoundUp(v / 4, v / 2 % 2 == 1, st)
  {
    Pow2Next(nm - 1);
    Pow2Next(nm);
    Pow2Next(nm + 1);
    hide Pow2;
    var k := Pow2(nm - 1);
    assert w == v / 2 - 4 * k;
    assert w / 2 == v / 4 - 2 * k && w % 2 == v / 2 % 2;
  }

  lemma DroppedPlain(nm: nat, a: nat, b: nat, gap: nat)
    requires a < Pow2(nm + 1) && b < Pow2(nm + 1) && gap >= nm + 2
    ensures var d := Units(a, b, gap, false);
            2 * a < Pow2(nm + 2) && Carry(nm, gap, d) == 0 && PlainSig(nm, gap, d) == a
  {
    Pow2Next(nm + 1);
    Pow2Mono(nm + 2, gap);
    hide Pow2, RoundDiv;
    Pow2Add(nm + 1, gap);
    BelowCarry(Pow2(gap), a, b, Pow2(nm + 1));
    SmallRest(Pow2(gap), a, b);
  }

  lemma BelowCarry(q: int, a: int, b: int, k: int)
    requires a < k && b < q && q > 0
    ensures q * a + b < k * q
  {
    MulMono(q, a + 1, k);
    MulAdd(q, a, 1);
  }

  lemma SmallRest(q: nat, a: nat, b: nat)
    requires 2 * b < q
    ensures RoundDiv(q * a + b, q) == a
  {
    DivModUnique(q * a + b, q, a, b);
  }

  /** The rounded register of unsigned addition has the mantissa field and the exponent increments of the exact sum. */
  lemma UnsignedFields(nm: nat, a: nat, b: nat, gap: nat, drop: bool, v: nat, w: nat, st: bool, z: nat)
    requires nm >= 1 && a < Pow2(nm + 1) && b < Pow2(nm + 1) && (drop ==> gap >= nm + 2)
    requires v == 2 * a + Aligned(drop, 2 * b, gap) && st == PlainSticky(nm, v, Lost(drop, 2 * b, gap))
    requires v < 2 * Pow2(nm + 2) && w == PlainShifted(nm, v)
    requires var s := RoundUp(w / 2, w % 2 == 1, st); z == if s == Pow2(nm + 1) then Pow2(nm) else s
    ensures var d, s := Units(a, b, gap, false), RoundUp(w / 2, w % 2 == 1, st);
            && z % Pow2(nm) == PlainSig(nm, gap, d) % Pow2(nm)
            && (if v >= Pow2(nm + 2) then 1 else 0) + Carried(nm, s) ==
               Carry(nm, gap, d) + Carried(nm, PlainSig(nm, gap, d))
  {
    Pow2Next(nm);
    hide Pow2, RoundUp, PlainSig, Units, Aligned, Lost;
    var d, k := Units(a, b, gap, false), Pow2(nm);
    UnsignedRefines(nm, a, b, gap, drop, v, w, st);
    if v >= Pow2(nm + 2) {
      NoRipple(nm, a, b, gap);
      DivModUnique(PlainSig(nm, gap, d), k, 1, z);
      DivModUnique(z, k, 0, z);
    } else if z == k {
      DivModUnique(2 * k, k, 2, 0);
      DivModUnique(k, k, 1, 0);
    }
  }
}
