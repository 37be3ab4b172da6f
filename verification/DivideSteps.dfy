/** The recurrence of carry-save non-restoring division, on words and integers. */
module DivideSteps {
  import opened Numbers
  import opened Words
  import opened Prefix
  import opened CarrySave

  /** The dividend (`w` above `z`) without its lowest `j` bits. */
  function ZTop(w: Word, z: Word, j: nat): nat
    requires j <= |z|
    decreases |z| - j
  {
    if j == |z| then Num(w) else BitOf(z[j]) + 2 * ZTop(w, z, j + 1)
  }

  /** The quotient bits from `j` up, as a number. */
  function QHigh(q: Word, j: nat): nat
    requires j <= |q|
    decreases |q| - j
  {
    if j == |q| then 0 else BitOf(q[j]) + 2 * QHigh(q, j + 1)
  }

  lemma {:induction false} ZTopWhole(w: Word, z: Word, j: nat)
    requires j <= |z|
    ensures NumN(z, j) + Pow2(j) * ZTop(w, z, j) == Num(z) + Pow2(|z|) * Num(w)
    decreases |z| - j
  {
    if j < |z| {
      ZTopWhole(w, z, j + 1);
      MulAdd(Pow2(j), BitOf(z[j]), 2 * ZTop(w, z, j + 1));
      MulAssoc(Pow2(j), 2, ZTop(w, z, j + 1));
    }
  }

  lemma {:induction false} QHighWhole(q: Word, j: nat)
    requires j <= |q|
    ensures NumN(q, j) + Pow2(j) * QHigh(q, j) == Num(q)
    decreases |q| - j
  {
    if j < |q| {
      QHighWhole(q, j + 1);
      MulAdd(Pow2(j), BitOf(q[j]), 2 * QHigh(q, j + 1));
      MulAssoc(Pow2(j), 2, QHigh(q, j + 1));
    } else {
      assert Pow2(j) * 0 == 0;
    }
  }

  lemma {:induction false} QHighSame(q: Word, q': Word, j: nat)
    requires |q| == |q'| && j <= |q| && forall k | j <= k < |q| :: q[k] == q'[k]
    ensures QHigh(q, j) == QHigh(q', j)
    decreases |q| - j
  {
    if j < |q| {
      QHighSame(q, q', j + 1);
    }
  }

  /** Whether the step for bit `j` subtracts: at the first bit, and after a quotient bit 1. */
  predicate Subtracts(q: Word, j: nat)
    requires j < |q|
  {
    j + 1 == |q| || q[j + 1]
  }

  /** The remainder that the step for bit `j` starts from. */
  function Before(w: Word, z: Word, d: int, q: Word, j: nat): int
    requires j < |z| == |q|
  {
    ZTop(w, z, j) - 2 * (QHigh(q, j + 1) + if Subtracts(q, j) then 0 else 1) * d
  }

  /** The remainder that the step for bit `j` leaves. */
  function After(w: Word, z: Word, d: int, q: Word, j: nat): int
    requires j < |z| == |q|
  {
    ZTop(w, z, j) - (2 * QHigh(q, j + 1) + 1) * d
  }

  /** The divisor with the sign that a step adds it with. */
  function Signed(b: bool, d: int): int {
    if b then -d else d
  }

  /** The range of remainders between steps. */
  ghost predicate Within(r: int, d: int) {
    -d <= r < d
  }

  /** Subtracting or adding the divisor leads from one to the other. */
  lemma StepIs(w: Word, z: Word, d: int, q: Word, j: nat)
    requires j < |z| == |q|
    ensures After(w, z, d, q, j) == Before(w, z, d, q, j) + Signed(Subtracts(q, j), d)
  {
    var h := QHigh(q, j + 1);
    MulAdd(d, 2 * h, 1);
    MulAdd(d, 2 * h, 2);
    assert 2 * (h + 1) == 2 * h + 2;
  }

  /** The next step starts from the doubled remainder and the next bit of the dividend. */
  lemma NextIs(w: Word, z: Word, d: int, q: Word, q': Word, j: nat)
    requires 0 < j < |z| == |q| == |q'| && forall k | j < k < |q| :: q'[k] == q[k]
    ensures Before(w, z, d, q', j - 1) == 2 * After(w, z, d, q, j) + BitOf(z[j - 1])
  {
    QHighSame(q, q', j + 1);
    var h := QHigh(q, j + 1);
    assert QHigh(q', j) + (if q'[j] then 0 else 1) == 2 * h + 1;
    assert 2 * (2 * h + 1) * d == 2 * ((2 * h + 1) * d);
  }

  /** `t` and `r` agree modulo `p`. */
  ghost predicate Congruent(t: int, r: int, p: int)
    requires p > 0
  {
    (t - r) % p == 0
  }

  lemma CongruentBy(t: int, r: int, p: int) returns (k: int)
    requires p > 0 && Congruent(t, r, p)
    ensures t == r + k * p
  {
    k := (t - r) / p;
  }

  lemma CongruentFrom(t: int, r: int, p: int, k: int)
    requires p > 0 && t == r + k * p
    ensures Congruent(t, r, p)
  {
    DivModUnique(t - r, p, k, 0);
  }

  /** The words hold the remainder modulo `2^(N+1)`: sum and carry word without its lowest partition, and the
      separate top bit. */
  ghost predicate Encodes(s: Word, c: Word, top: bool, r: int)
    requires |s| == |c| >= 1
  {
    Congruent(Num(s) + Num(c[0 := false]) + (if top then Pow2(|s|) else 0), r, 2 * Pow2(|s|))
  }

  lemma {:induction false} LowCarry(c: Word, b: bool, k: nat)
    requires 1 <= k <= |c|
    ensures NumN(c[0 := b], k) == NumN(c[0 := false], k) + BitOf(b)
  {
    if k > 1 {
      LowCarry(c, b, k - 1);
    } else {
      assert NumN(c[0 := b], 0) == 0 && NumN(c[0 := false], 0) == 0 && Pow2(0) == 1;
    }
  }

  lemma {:induction false} XorNum(b: bool, d: Word, k: nat)
    requires k <= |d|
    ensures NumN(XorW(Fill(b, |d|), d), k) == if b then Pow2(k) - 1 - NumN(d, k) else NumN(d, k)
  {
    if k > 0 {
      XorNum(b, d, k - 1);
    }
  }

  /** Sum and carry word of the step, given whether it subtracts. */
  function StepSum(s: Word, c: Word, d: Word, b: bool): (r: Word)
    requires |s| == |c| == |d| >= 1
    ensures |r| == |s|
  {
    Xor3W(s, c[0 := b], XorW(Fill(b, |s|), d))
  }

  function StepMaj(s: Word, c: Word, d: Word, b: bool): (r: Word)
    requires |s| == |c| == |d| >= 1
    ensures |r| == |s|
  {
    MajW(s, c[0 := b], XorW(Fill(b, |s|), d))
  }

  lemma SaveStep(s: Word, c: Word, d: Word, b: bool)
    requires |s| == |c| == |d| >= 1
    ensures var n, mj := |s|, StepMaj(s, c, d, b);
            Num(StepSum(s, c, d, b)) + Num(UpW(mj, false)) + (if mj[n - 1] then Pow2(n) else 0) ==
              Num(s) + Num(c[0 := false]) + if b then Pow2(n) - Num(d) else Num(d)
  {
    hide NumN, Pow2;
    var n, c1, x := |s|, c[0 := b], XorW(Fill(b, |s|), d);
    SaveNum(s, c1, x, n);
    LowCarry(c, b, n);
    XorNum(b, d, n);
    UpWhole(StepMaj(s, c, d, b), false);
  }

  /** The complement of the XOR of four bits. */
  predicate NotXor(a: bool, b: bool, c: bool, d: bool) {
    !(((a != b) != c) != d)
  }

  /** The sign of the remainder from the four bits at the top. */
  lemma SignBit(tl: int, r: int, p: int, k: int, g: bool, partial: bool, top: bool, b: bool)
    requires 0 <= tl < p && -p <= r < p
    requires tl == r + (2 * k + BitOf(b) - BitOf(partial) - BitOf(top) - BitOf(g)) * p
    ensures r >= 0 <==> NotXor(g, partial, top, b)
  {
    var e := 2 * k + BitOf(b) - BitOf(partial) - BitOf(top) - BitOf(g);
    if e < 0 {
      MulMono(p, e, -1);
    } else if e > 1 {
      MulMono(p, 2, e);
    }
    assert 0 <= e <= 1;
  }

  lemma StepCongruent(t: int, v: int, rest: int, r: int, d: int, p: int, k: int, partial: bool, top: bool, b: bool)
    requires t + (if partial then p else 0) == v + (if b then p - d else d)
    requires v + (if top then p else 0) == rest + k * (2 * p) && r == rest + Signed(b, d)
    ensures t == r + (2 * k + BitOf(b) - BitOf(partial) - BitOf(top)) * p
  {
    var e := 2 * k + BitOf(b) - BitOf(partial) - BitOf(top);
    assert k * (2 * p) == 2 * k * p;
    MulAdd(p, 2 * k, BitOf(b) - BitOf(partial) - BitOf(top));
    SmallMultiple(p, BitOf(b) - BitOf(partial) - BitOf(top));
  }

  lemma SmallMultiple(p: int, e: int)
    requires -2 <= e <= 1
    ensures e * p == if e == 1 then p else if e == 0 then 0 else if e == -1 then -p else -p - p
  {
  }

  /** One step on the words: the remainder modulo `2^N`, and the quotient bit as its sign. */
  lemma DivStep(s: Word, c: Word, d: Word, top: bool, b: bool, rest: int, r: int)
    requires |s| == |c| == |d| >= 1 && Encodes(s, c, top, rest) && r == rest + Signed(b, Num(d))
    ensures var n, mj := |s|, StepMaj(s, c, d, b);
            var s', c' := StepSum(s, c, d, b), UpW(StepMaj(s, c, d, b), false);
            && Congruent(Num(s') + Num(c'), r, Pow2(n))
            && (Within(r, Num(d)) ==> (r >= 0 <==> NotXor(CarryInto(s', c', false, n), mj[n - 1], top, b)))
  {
    hide NumN, Pow2, CarryInto, Num;
    var n, mj := |s|, StepMaj(s, c, d, b);
    var s', c', p := StepSum(s, c, d, b), UpW(mj, false), Pow2(n);
    var v := Num(s) + Num(c[0 := false]);
    var k := CongruentBy(v + (if top then p else 0), rest, 2 * p);
    SaveStep(s, c, d, b);
    StepCongruent(Num(s') + Num(c'), v, rest, r, Num(d), p, k, mj[n - 1], top, b);
    CongruentFrom(Num(s') + Num(c'), r, p, 2 * k + BitOf(b) - BitOf(mj[n - 1]) - BitOf(top));
    if Within(r, Num(d)) {
      var g := CarryInto(s', c', false, n);
      var tl := Num(s') + Num(c') - if g then p else 0;
      CarryLow(s', c');
      assert tl == r + (2 * k + BitOf(b) - BitOf(mj[n - 1]) - BitOf(top) - BitOf(g)) * p by {
        var e := 2 * k + BitOf(b) - BitOf(mj[n - 1]) - BitOf(top);
        MulSub(e, BitOf(g), p);
      }
      NumBound(d);
      SignBit(tl, r, p, k, g, mj[n - 1], top, b);
    }
  }

  lemma NumBound(d: Word)
    ensures Num(d) < Pow2(|d|)
  {
  }

  /** The carry out of a sum takes away exactly its overflow. */
  lemma CarryLow(x: Word, y: Word)
    requires |x| == |y|
    ensures 0 <= Num(x) + Num(y) - (if CarryInto(x, y, false, |x|) then Pow2(|x|) else 0) < Pow2(|x|)
  {
    var z := SumWord(x, y, |x|);
    RippleSum(x, y, z, false, |x|);
  }

  function SumWord(x: Word, y: Word, k: nat): (z: Word)
    requires k <= |x| == |y|
    ensures |z| == k && forall i {:trigger z[i]} | 0 <= i < k :: z[i] == ((x[i] != y[i]) != CarryInto(x, y, false, i))
  {
    seq(k, i requires 0 <= i < k => (x[i] != y[i]) != CarryInto(x, y, false, i))
  }

  /** Doubling the remainder and taking in the next bit of the dividend. */
  lemma ShiftStep(s: Word, c: Word, r: int, zb: bool, cn: Word, top: bool, next: int)
    requires |s| == |c| == |cn| >= 1 && Congruent(Num(s) + Num(c), r, Pow2(|s|)) && cn[0 := false] == UpW(c, false)
    requires top == (s[|s| - 1] != c[|s| - 1]) && next == 2 * r + BitOf(zb)
    ensures Encodes(UpW(s, zb), cn, top, next)
  {
    hide NumN, Pow2, Num, Congruent, Encodes;
    var n := |s|;
    UpWhole(s, zb);
    UpWhole(c, false);
    var us, uc := UpW(s, zb), UpW(c, false);
    assert BitOf(false) == 0;
    ShiftArith(Num(us), Num(uc), Num(s), Num(c), BitOf(zb), r, Pow2(|s|), s[n - 1], c[n - 1],
               Num(us) + Num(uc) + (if top then Pow2(|s|) else 0), next, 2 * Pow2(|s|));
    EncodesTotal(us, cn, uc, top, next, Num(us) + Num(uc) + (if top then Pow2(|s|) else 0), 2 * Pow2(|s|));
  }

  lemma EncodesTotal(s: Word, c: Word, c0: Word, top: bool, r: int, total: int, q: int)
    requires |s| == |c| >= 1 && c[0 := false] == c0 && total == Num(s) + Num(c0) + (if top then Pow2(|s|) else 0)
    requires q == 2 * Pow2(|s|) && q > 0 && Congruent(total, r, q)
    ensures Encodes(s, c, top, r)
  {
    hide Congruent, Num, Pow2;
  }

  lemma ShiftArith(us: int, uc: int, s: int, c: int, zb: int, r: int, p: int, st: bool, ct: bool, total: int,
                   next: int, q: int)
    requires p > 0 && us + (if st then p else 0) == zb + 2 * s && uc + (if ct then p else 0) == 2 * c
    requires Congruent(s + c, r, p)
    requires total == us + uc + (if st != ct then p else 0) && next == 2 * r + zb && q == 2 * p
    ensures q > 0 && Congruent(total, next, q)
  {
    var k := CongruentBy(s + c, r, p);
    var e := if st && ct then k - 1 else k;
    MulSub(k, 1, q);
    assert k * q == 2 * (k * p);
    CongruentFrom(total, next, q, e);
  }

  /** What holds before the step for bit `j`. */
  ghost predicate DivInv(w: Word, z: Word, d: Word, q: Word, s: Word, c: Word, top: bool, j: nat) {
    && |w| == |z| == |d| == |q| == |s| == |c| >= 1 && j < |z|
    && Encodes(s, c, top, Before(w, z, Num(d), q, j))
    && (Num(w) < Num(d) ==> Within(After(w, z, Num(d), q, j), Num(d)))
    && forall k {:trigger q[k]} | 0 <= k <= j :: q[k]
  }

  /** What holds after the step for bit `j`, before the words move up. */
  ghost predicate DivDone(w: Word, z: Word, d: Word, q: Word, s: Word, c: Word, j: nat) {
    && |w| == |z| == |d| == |q| == |s| == |c| >= 1 && j < |z|
    && Congruent(Num(s) + Num(c), After(w, z, Num(d), q, j), Pow2(|s|))
    && (Num(w) < Num(d) ==> Within(After(w, z, Num(d), q, j), Num(d)) && (q[j] <==> After(w, z, Num(d), q, j) >= 0))
    && forall k {:trigger q[k]} | 0 <= k < j :: q[k]
  }

  lemma AfterSame(w: Word, z: Word, d: int, q: Word, v: bool, j: nat)
    requires j < |z| == |q|
    ensures After(w, z, d, q[j := v], j) == After(w, z, d, q, j)
  {
    QHighSame(q, q[j := v], j + 1);
  }

  lemma InvDone(w: Word, z: Word, d: Word, q: Word, s: Word, c: Word, top: bool, j: nat, bit: bool)
    requires DivInv(w, z, d, q, s, c, top, j)
    requires var b := Subtracts(q, j);
             var s', c' := StepSum(s, c, d, b), UpW(StepMaj(s, c, d, b), false);
             bit == NotXor(CarryInto(s', c', false, |s|), StepMaj(s, c, d, b)[|s| - 1], top, b)
    ensures var b := Subtracts(q, j);
            DivDone(w, z, d, q[j := bit], StepSum(s, c, d, b), UpW(StepMaj(s, c, d, b), false), j)
  {
    hide Num, NumN, Pow2, CarryInto, Before, After, Encodes, Congruent, StepSum, StepMaj;
    StepIs(w, z, Num(d), q, j);
    DivStep(s, c, d, top, Subtracts(q, j), Before(w, z, Num(d), q, j), After(w, z, Num(d), q, j));
    AfterSame(w, z, Num(d), q, bit, j);
  }

  lemma DoneInv(w: Word, z: Word, d: Word, q: Word, s: Word, c: Word, cn: Word, j: nat)
    requires DivDone(w, z, d, q, s, c, j) && j >= 1 && |cn| == |c| && cn[0 := false] == UpW(c, false)
    ensures DivInv(w, z, d, q, UpW(s, z[j - 1]), cn, s[|s| - 1] != c[|s| - 1], j - 1)
  {
    hide Num, NumN, Pow2, Before, After, Encodes, Congruent;
    NextIs(w, z, Num(d), q, q, j);
    StepIs(w, z, Num(d), q, j - 1);
    ShiftStep(s, c, After(w, z, Num(d), q, j), z[j - 1], cn, s[|s| - 1] != c[|s| - 1], Before(w, z, Num(d), q, j - 1));
  }

  lemma Begins(w: Word, z: Word, d: Word, q: Word, c: Word)
    requires |w| == |z| == |d| == |q| == |c| >= 1 && c[0 := false] == Fill(false, |c|)
    requires forall k {:trigger q[k]} | 0 <= k < |q| :: q[k]
    ensures DivInv(w, z, d, q, UpW(w, z[|z| - 1]), c, w[|w| - 1], |z| - 1)
  {
    var n := |z|;
    FillNum(false, n, n);
    UpWhole(w, z[n - 1]);
    var r := Before(w, z, Num(d), q, n - 1);
    assert ZTop(w, z, n) == Num(w) && QHigh(q, n) == 0;
    assert r == BitOf(z[n - 1]) + 2 * Num(w);
    CongruentFrom(Num(UpW(w, z[n - 1])) + Num(c[0 := false]) + (if w[n - 1] then Pow2(n) else 0), r, 2 * Pow2(n), 0);
    StepIs(w, z, Num(d), q, n - 1);
  }

  /** The final addition and correction leave the last remainder, corrected by the divisor if it was negative. */
  lemma FinalRest(w: Word, z: Word, d: Word, q: Word, s: Word, c: Word, r1: nat, r2: nat)
    requires DivDone(w, z, d, q, s, c, 0) && Num(w) < Num(d) && r1 < Pow2(|s|) && r2 < Pow2(|s|)
    requires Num(s) + Num(c) == r1 || Num(s) + Num(c) == r1 + Pow2(|s|)
    requires var t := r1 + if q[0] then 0 else Num(d); t == r2 || t == r2 + Pow2(|s|)
    ensures r2 == (if q[0] then After(w, z, Num(d), q, 0) else After(w, z, Num(d), q, 0) + Num(d)) && r2 < Num(d)
  {
    NumBound(d);
    hide NumN, Pow2, Num, After, Congruent;
    var r, p := After(w, z, Num(d), q, 0), Pow2(|s|);
    var k := CongruentBy(Num(s) + Num(c), r, p);
    Corrected(Num(s) + Num(c), r, p, k, Num(d), r1, r2, q[0]);
  }

  /** The quotient, and the remainder once the last negative one is corrected by the divisor. */
  lemma Finishes(w: Word, z: Word, d: Word, q: Word, s: Word, c: Word, r1: nat, r2: nat)
    requires DivDone(w, z, d, q, s, c, 0) && Num(w) < Num(d) && r1 < Pow2(|s|) && r2 < Pow2(|s|)
    requires Num(s) + Num(c) == r1 || Num(s) + Num(c) == r1 + Pow2(|s|)
    requires var t := r1 + if q[0] then 0 else Num(d); t == r2 || t == r2 + Pow2(|s|)
    ensures Num(z) + Pow2(|z|) * Num(w) == Num(q) * Num(d) + r2 && r2 < Num(d)
  {
    FinalRest(w, z, d, q, s, c, r1, r2);
    WholeNumbers(w, z, q);
    hide NumN, Pow2, Num, ZTop, QHigh, Congruent;
    WholeQuotient(ZTop(w, z, 0), QHigh(q, 1), Num(d), After(w, z, Num(d), q, 0), r2, q[0]);
  }

  lemma WholeNumbers(w: Word, z: Word, q: Word)
    requires |q| >= 1
    ensures ZTop(w, z, 0) == Num(z) + Pow2(|z|) * Num(w) && Num(q) == BitOf(q[0]) + 2 * QHigh(q, 1)
  {
    ZTopWhole(w, z, 0);
    QHighWhole(q, 0);
    assert NumN(z, 0) == 0 && NumN(q, 0) == 0 && Pow2(0) == 1;
  }

  lemma WholeQuotient(v: int, h: int, d: int, r: int, r2: int, bit: bool)
    requires r == v - (2 * h + 1) * d && r2 == (if bit then r else r + d)
    ensures v == (BitOf(bit) + 2 * h) * d + r2
  {
    MulAdd(d, 2 * h, 1);
    assert d * (2 * h) == 2 * h * d;
  }

  lemma Corrected(t: int, r: int, p: int, k: int, d: int, r1: int, r2: int, bit: bool)
    requires t == r + k * p && Within(r, d) && (bit <==> r >= 0) && 0 <= d < p && 0 <= r1 < p && 0 <= r2 < p
    requires (t == r1 || t == r1 + p) && (var u := r1 + if bit then 0 else d; u == r2 || u == r2 + p)
    ensures r2 == if bit then r else r + d
  {
    var e := if t == r1 then k else k - 1;
    MulSub(k, 1, p);
    assert r1 == r + e * p;
    if e < 0 {
      MulMono(p, e, -1);
    } else if e > 1 {
      MulMono(p, 2, e);
    }
    assert 0 <= e <= 1;
  }
}
