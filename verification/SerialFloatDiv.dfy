/** floatingDivision of serial/AritPIM.py. */
module SerialFloatDiv {
  import opened Numbers
  import opened Rounding
  import opened Floats
  import opened Packing
  import opened Simulator
  import opened Allocator
  import opened Cells
  import opened SerialGates
  import opened SerialFixed
  import opened SerialShift
  import opened SerialKaratsuba
  import opened SerialDivide
  import opened SerialFloat
  import opened FloatDiv

  /** The dividend register: the significand `n` places up, below `k` zero cells. */
  function DividendCells(zero: nat, x: seq<nat>): (r: seq<nat>)
    ensures |r| == 2 * (|x| + 2)
    ensures forall i {:trigger r[i]} | 0 <= i < |r| ::
              r[i] == if |x| + 1 <= i < 2 * |x| + 1 then x[i - |x| - 1] else zero
  {
    Zeros(zero, |x| + 1) + x + Zeros(zero, 3)
  }

  lemma DividendVal(m: seq<bool>, zero: nat, x: seq<nat>)
    requires Bit(m, zero) == 0
    ensures Val(m, DividendCells(zero, x)) == Pow2(|x| + 1) * Val(m, x)
  {
    hide Val, Pow2;
    PadVal(m, Zeros(zero, |x| + 1) + x, zero, 3);
    ValAppend(m, Zeros(zero, |x| + 1), x);
    PadVal(m, [], zero, |x| + 1);
    assert [] + Zeros(zero, |x| + 1) == Zeros(zero, |x| + 1);
    EmptyVal(m);
  }

  lemma EmptyVal(m: seq<bool>)
    ensures Val(m, []) == 0
  {
  }

  /** The part of the dividend above the divisor's width is below every normal divisor. */
  lemma DividendHigh(m: seq<bool>, z: seq<nat>, x: seq<nat>, d: nat)
    requires |z| == 2 * (|x| + 2) && |x| >= 1 && Val(m, z) == Pow2(|x| + 1) * Val(m, x) && d >= Pow2(|x| - 1)
    ensures Val(m, z[|x| + 2..]) < d
  {
    hide ValN, Val;
    ValDivMod(m, z, |x| + 2);
    ValAll(m, z[|x| + 2..]);
    Pow2Next(|x| + 1);
    Pow2Next(|x| - 1);
    hide Pow2;
    HalfOf(Val(m, z), Pow2(|x| + 1), Val(m, x), Val(m, z[|x| + 2..]));
  }

  lemma ValAll(m: seq<bool>, a: seq<nat>)
    ensures Val(m, a) == ValN(m, a, |a|)
  {
  }

  lemma HalfOf(v: int, p: int, x: int, h: int)
    requires p > 0 && v == p * x && h == v / (2 * p)
    ensures 2 * h <= x
  {
    assert h * (2 * p) <= v;
    assert h * (2 * p) == p * (2 * h);
    if 2 * h > x {
      MulLess(p, x, 2 * h);
    }
  }

  /** The integer division of the significands, for use in contracts. */
  ghost predicate Divides(nm: nat, a: nat, b: nat, q: nat, r: nat) {
    Pow2(nm + 2) * a == q * b + r && r < b
  }

  lemma DividesBy(nm: nat, a: nat, b: nat, q: nat, r: nat)
    requires b > 0 && q == Pow2(nm + 2) * a / b && r == Pow2(nm + 2) * a % b
    ensures Divides(nm, a, b, q, r)
  {
    hide Pow2;
  }

  lemma QuotientCells(m: seq<bool>, round: nat, guard: nat, zm: seq<nat>)
    ensures Val(m, [round, guard] + zm) == Bit(m, round) + 2 * Bit(m, guard) + 4 * Val(m, zm)
  {
    hide Val;
    assert [round, guard] + zm == [round] + ([guard] + zm);
    ValBelow(m, round, [guard] + zm);
    ValBelow(m, guard, zm);
  }

  /** fixedDivision of the padded significands into the round, guard and significand cells. */
  method DivideInto(sim: SerialSimulator, inter: IntermediateAllocator, x: seq<nat>, y: seq<nat>, zm: seq<nat>,
                    zero: nat, guard: nat, round: nat, r: seq<nat>)
    requires Ready(sim, inter) && |x| == |y| == |zm| >= 2 && |inter.free| >= 10
    requires LiveReg(sim, inter, x) && LiveReg(sim, inter, y) && LiveReg(sim, inter, zm) && Distinct(zm)
    requires Apart(x, zm) && Apart(y, zm) && Live(sim, inter, zero) && zero !in zm && !sim.memory[zero]
    requires Live(sim, inter, guard) && Live(sim, inter, round) && guard != round && guard != zero && round != zero
    requires guard !in x && guard !in y && guard !in zm && round !in x && round !in y && round !in zm
    requires |r| == |x| + 2 && LiveReg(sim, inter, r) && Distinct(r) && Apart(x, r) && Apart(y, r) && Apart(zm, r)
    requires zero !in r && guard !in r && round !in r
    modifies sim, inter
    ensures Ready(sim, inter) && inter.free == old(inter.free)
    ensures Kept(old(sim.memory), sim.memory, inter.free, zm + [guard, round] + r)
    ensures old(Val(sim.memory, y)) >= Pow2(|x| - 1) ==>
              Divides(|x| - 1, old(Val(sim.memory, x)), old(Val(sim.memory, y)),
                      Bit(sim.memory, round) + 2 * Bit(sim.memory, guard) + 4 * Val(sim.memory, zm), Val(sim.memory, r))
    ensures sim.latency == old(sim.latency) + DivCycles(|x| + 2)
  {
    hide Val, Pow2, ValN, Divides, Tracks;
    ghost var m := sim.memory;
    var z, d, q := DividendCells(zero, x), y + Zeros(zero, 2), [round, guard] + zm;
    assert forall i {:trigger d[i]} | 0 <= i < |d| :: d[i] == if i < |y| then y[i] else zero;
    assert forall i {:trigger q[i]} | 0 <= i < |q| ::
             q[i] == if i == 0 then round else if i == 1 then guard else zm[i - 2];
    DividendVal(m, zero, x);
    PadVal(m, y, zero, 2);
    FixedDivision(sim, inter, z, d, q, r);
    QuotientCells(sim.memory, round, guard, zm);
    if Val(m, y) >= Pow2(|x| - 1) {
      DividendHigh(m, z, x, Val(m, y));
      DividesBy(|x| - 1, Val(m, x), Val(m, y), Val(sim.memory, q), Val(sim.memory, r));
    }
  }

  function DivCycles(n: nat): nat {
    26 * n * n + 56 * n + 7
  }

  lemma DivCyclesIs(n: nat)
    ensures DivCycles(n) == 26 * n * n + 56 * n + 7
  {
  }

  /** Quotient of the significands with a round bit, a guard bit and, from the remainder, a sticky bit. */
  method QuotientBits(sim: SerialSimulator, inter: IntermediateAllocator, x: seq<nat>, y: seq<nat>, zm: seq<nat>,
                      zero: nat, guard: nat, round: nat)
    returns (sticky: nat, ghost rest: nat)
    requires Ready(sim, inter) && |x| == |y| == |zm| >= 2 && |inter.free| >= |x| + 12
    requires LiveReg(sim, inter, x) && LiveReg(sim, inter, y) && LiveReg(sim, inter, zm) && Distinct(zm)
    requires Apart(x, zm) && Apart(y, zm) && Live(sim, inter, zero) && zero !in zm && !sim.memory[zero]
    requires Live(sim, inter, guard) && Live(sim, inter, round) && guard != round && guard != zero && round != zero
    requires guard !in x && guard !in y && guard !in zm && round !in x && round !in y && round !in zm
    modifies sim, inter
    ensures Ready(sim, inter) && Pooled(inter.cells, sticky)
    ensures sticky in old(inter.free) && inter.free == old(inter.free) - {sticky}
    ensures Kept(old(sim.memory), sim.memory, old(inter.free), zm + [guard, round])
    ensures old(Val(sim.memory, y)) >= Pow2(|x| - 1) ==>
              Divides(|x| - 1, old(Val(sim.memory, x)), old(Val(sim.memory, y)),
                      Bit(sim.memory, round) + 2 * Bit(sim.memory, guard) + 4 * Val(sim.memory, zm), rest)
    ensures Bit(sim.memory, sticky) == 1 <==> rest != 0
    ensures sim.latency == old(sim.latency) + DivCycles(|x| + 2) + 5 + |x|
  {
    hide Val, Pow2, Divides, DivCycles;
    var r := inter.Malloc(|x| + 2);
    DivideInto(sim, inter, x, y, zm, zero, guard, round, r);
    ghost var m1 := sim.memory;
    rest := Val(m1, r);
    sticky := inter.MallocCell();
    ReduceOr(sim, inter, r, sticky);
    ValKept(m1, sim.memory, inter.free, [sticky], zm);
    inter.Free(r);
  }

  /** Writes the bias, 2^(Ne-1) - 1, into the exponent cells. */
  method WriteBias(sim: SerialSimulator, ze: seq<nat>)
    requires |ze| >= 3 && Distinct(ze) && forall i | 0 <= i < |ze| :: ze[i] < |sim.memory|
    modifies sim
    ensures Kept(old(sim.memory), sim.memory, {}, ze)
    ensures Ones(sim.memory, ze)
    ensures sim.latency == old(sim.latency) + |ze|
  {
    ghost var m := sim.memory;
    var n := |ze| - 2;
    for i := 0 to n
      invariant Kept(m, sim.memory, {}, ze)
      invariant forall k {:trigger Bit(sim.memory, ze[k])} | 0 <= k < i :: Bit(sim.memory, ze[k]) == 1
      invariant sim.latency == old(sim.latency) + i
    {
      ghost var m1 := sim.memory;
      sim.Init1(ze[i]);
      assert forall k {:trigger ze[k]} | 0 <= k < i :: Bit(sim.memory, ze[k]) == Bit(m1, ze[k]);
    }
    ghost var m2 := sim.memory;
    sim.Init0(ze[n]);
    sim.Init0(ze[n + 1]);
    assert forall k {:trigger ze[k]} | 0 <= k < n :: Bit(sim.memory, ze[k]) == Bit(m2, ze[k]);
  }

  /** All but the two top cells are set. */
  ghost predicate Ones(m: seq<bool>, ze: seq<nat>)
    requires |ze| >= 3
  {
    && (forall k {:trigger Bit(m, ze[k])} | 0 <= k < |ze| - 2 :: Bit(m, ze[k]) == 1)
    && Bit(m, ze[|ze| - 2]) == 0 && Bit(m, ze[|ze| - 1]) == 0
  }

  lemma {:induction false} OnesVal(m: seq<bool>, ze: seq<nat>, n: nat)
    requires 1 <= n <= |ze| && forall k {:trigger Bit(m, ze[k])} | 1 <= k < n :: Bit(m, ze[k]) == 1
    ensures ValN(m, ze, n) == Pow2(n) - 2 + Bit(m, ze[0])
  {
    if n == 1 {
      assert ValN(m, ze, 0) == 0 && Pow2(0) == 1;
    } else {
      OnesVal(m, ze, n - 1);
      assert Bit(m, ze[n - 1]) == 1;
    }
  }

  /** The bias less the normalisation shift. */
  lemma BiasLess(m: seq<bool>, m': seq<bool>, ze: seq<nat>)
    requires |ze| >= 3 && Ones(m, ze) && Same(m, m', ze, 1, |ze|)
    ensures Val(m', ze) == Pow2(|ze| - 2) - 2 + Bit(m', ze[0])
  {
    var n := |ze| - 2;
    assert forall k {:trigger Bit(m', ze[k])} | 1 <= k < n :: Bit(m', ze[k]) == Bit(m, ze[k]);
    OnesVal(m', ze, n);
    assert Bit(m', ze[n]) == Bit(m, ze[n]) && Bit(m', ze[n + 1]) == Bit(m, ze[n + 1]);
    ValNext(m', ze, n);
    ValNext(m', ze, n + 1);
  }

  /** norm = NOT the top bit of the quotient, subtracted from the biased exponent through its lowest cell. */
  method SetNorm(sim: SerialSimulator, top: nat, norm: nat, ze: seq<nat>)
    requires |ze| >= 3 && Distinct(ze) && (forall i | 0 <= i < |ze| :: ze[i] < |sim.memory|) && Ones(sim.memory, ze)
    requires top < |sim.memory| && norm < |sim.memory| && top != norm && top !in ze && norm !in ze
    modifies sim
    ensures Kept(old(sim.memory), sim.memory, {}, [norm] + ze)
    ensures sim.memory[norm] == !old(sim.memory)[top]
    ensures Val(sim.memory, ze) == Pow2(|ze| - 2) - 1 - Bit(sim.memory, norm)
    ensures sim.latency == old(sim.latency) + 4
  {
    hide ValN, Val, Pow2;
    ghost var m := sim.memory;
    sim.Not(top, norm);
    sim.Not(norm, ze[0]);
    assert forall k {:trigger ze[k]} | 1 <= k < |ze| :: Bit(sim.memory, ze[k]) == Bit(m, ze[k]);
    BiasLess(m, sim.memory, ze);
  }

  lemma FourCells(m: seq<bool>, sticky: nat, round: nat, guard: nat, zm: seq<nat>)
    ensures var v := Val(m, [sticky, round, guard] + zm);
            && v == Bit(m, sticky) + 2 * (Bit(m, round) + 2 * Bit(m, guard) + 4 * Val(m, zm))
            && v / 8 == Val(m, zm) && v / 4 % 2 == Bit(m, guard) && v / 2 % 2 == Bit(m, round)
            && v % 2 == Bit(m, sticky)
  {
    hide Val, Bit;
    var high := [round, guard] + zm;
    assert [sticky, round, guard] + zm == [sticky] + high;
    ValBelow(m, sticky, high);
    QuotientCells(m, round, guard, zm);
    ThreeBits(Bit(m, sticky), Bit(m, round), Bit(m, guard), Val(m, zm));
  }

  lemma ThreeBits(s: nat, r: nat, g: nat, z: nat)
    requires s <= 1 && r <= 1 && g <= 1
    ensures var v := s + 2 * (r + 2 * g + 4 * z);
            v / 8 == z && v / 4 % 2 == g && v / 2 % 2 == r && v % 2 == s
  {
    var v, a, b := s + 2 * (r + 2 * g + 4 * z), r + 2 * g + 4 * z, g + 2 * z;
    DivModUnique(v, 2, a, s);
    DivModUnique(v, 4, b, s + 2 * r);
    DivModUnique(v, 8, z, s + 2 * r + 4 * g);
    DivModUnique(a, 2, b, r);
    DivModUnique(b, 2, z, g);
  }

  /** One left shift when `norm` is set. */
  method NormShift(sim: SerialSimulator, inter: IntermediateAllocator, reg: seq<nat>, norm: nat)
    requires Ready(sim, inter) && |inter.free| >= 3 && |reg| >= 2
    requires LiveReg(sim, inter, reg) && Distinct(reg) && Live(sim, inter, norm) && norm !in reg
    modifies sim, inter
    ensures Ready(sim, inter) && inter.free == old(inter.free)
    ensures Kept(old(sim.memory), sim.memory, inter.free, reg)
    ensures var v := old(Val(sim.memory, reg));
            Val(sim.memory, reg) == if old(sim.memory[norm]) then 2 * v % Pow2(|reg|) else v
    ensures sim.latency == old(sim.latency) + 6 * |reg| - 3
  {
    hide Val, Pow2;
    ghost var m := sim.memory;
    CeilLog2Positive(|reg|);
    Pow2Bit(1);
    VariableShiftLeft(sim, inter, reg, [norm], None);
    ValCell(m, norm);
    Pow2Bit(Bit(m, norm));
    ShiftByBit(Val(m, reg), Pow2(Val(m, [norm])), Pow2(|reg|));
  }

  lemma ShiftByBit(v: nat, p: nat, n: nat)
    requires v < n && 1 <= p <= 2
    ensures p * v % n == if p == 2 then 2 * v % n else v
  {
    if p == 1 {
      DivModUnique(v, n, 0, v);
    }
  }

  /** The left shift that normalises the quotient. */
  method DivNormalize(sim: SerialSimulator, inter: IntermediateAllocator, zm: seq<nat>, norm: nat, guard: nat,
                      round: nat, sticky: nat, ghost a: nat, ghost b: nat, ghost rest: nat)
    requires Ready(sim, inter) && |inter.free| >= 3 && |zm| >= 2
    requires LiveReg(sim, inter, zm) && Distinct(zm) && Live(sim, inter, norm) && norm !in zm
    requires Live(sim, inter, guard) && Live(sim, inter, round) && Live(sim, inter, sticky)
    requires guard !in zm && round !in zm && sticky !in zm && norm != guard && norm != round && norm != sticky
    requires guard != round && guard != sticky && round != sticky
    requires a < Pow2(|zm|)
    requires b >= Pow2(|zm| - 1) ==> Divides(|zm| - 1, a, b, Bit(sim.memory, round) + 2 * Bit(sim.memory, guard) +
                                             4 * Val(sim.memory, zm), rest)
    requires Bit(sim.memory, sticky) == 1 <==> rest != 0
    requires sim.memory[norm] == !sim.memory[zm[|zm| - 1]]
    modifies sim, inter
    ensures Ready(sim, inter) && inter.free == old(inter.free)
    ensures Kept(old(sim.memory), sim.memory, inter.free, [sticky, round, guard] + zm)
    ensures b >= Pow2(|zm| - 1) ==>
              Bit(sim.memory, norm) == DivNorm(a, b) &&
              RoundsFrom(sim.memory, zm, guard, round, sticky, DivSig(|zm| - 1, a, b))
    ensures sim.latency == old(sim.latency) + 6 * |zm| + 15
  {
    hide Val, Pow2, RoundUp, DivSig, Divides;
    ghost var m := sim.memory;
    var reg := [sticky, round, guard] + zm;
    assert forall i {:trigger reg[i]} | 0 <= i < |reg| ::
             reg[i] == if i == 0 then sticky else if i == 1 then round else if i == 2 then guard else zm[i - 3];
    NormShift(sim, inter, reg, norm);
    ghost var m1 := sim.memory;
    FourCells(m, sticky, round, guard, zm);
    FourCells(m1, sticky, round, guard, zm);
    TopBitVal(m, zm);
    if b >= Pow2(|zm| - 1) {
      DivShifted(|zm| - 1, a, b, Bit(m, round) + 2 * Bit(m, guard) + 4 * Val(m, zm), rest, Val(m, reg), Val(m1, reg),
                 Bit(m, norm));
    }
  }

  /** The complement of the top bit, the bias and the left shift, with the cell of the shift amount given. */
  method DivShiftBy(sim: SerialSimulator, inter: IntermediateAllocator, zm: seq<nat>, ze: seq<nat>, norm: nat,
                    guard: nat, round: nat, sticky: nat, ghost a: nat, ghost b: nat, ghost rest: nat)
    requires Ready(sim, inter) && |inter.free| >= 3 && |zm| >= 2 && |ze| >= 3
    requires LiveReg(sim, inter, zm) && Distinct(zm) && LiveReg(sim, inter, ze) && Distinct(ze) && Apart(zm, ze)
    requires Live(sim, inter, guard) && Live(sim, inter, round) && Live(sim, inter, sticky)
    requires guard !in zm && round !in zm && sticky !in zm && guard !in ze && round !in ze && sticky !in ze
    requires Live(sim, inter, norm) && norm !in zm && norm !in ze && norm != guard && norm != round && norm != sticky
    requires guard != round && guard != sticky && round != sticky
    requires a < Pow2(|zm|) && Ones(sim.memory, ze)
    requires b >= Pow2(|zm| - 1) ==> Divides(|zm| - 1, a, b, Bit(sim.memory, round) + 2 * Bit(sim.memory, guard) +
                                             4 * Val(sim.memory, zm), rest)
    requires Bit(sim.memory, sticky) == 1 <==> rest != 0
    modifies sim, inter
    ensures Ready(sim, inter) && inter.free == old(inter.free)
    ensures Kept(old(sim.memory), sim.memory, inter.free, zm + ze + [guard, round, sticky, norm])
    ensures b >= Pow2(|zm| - 1) ==>
              && Val(sim.memory, ze) == Pow2(|ze| - 2) - 1 - DivNorm(a, b)
              && RoundsFrom(sim.memory, zm, guard, round, sticky, DivSig(|zm| - 1, a, b))
    ensures sim.latency == old(sim.latency) + 6 * |zm| + 19
  {
    hide Val, Pow2, RoundsFrom, DivSig, Divides, Tracks, DivNorm;
    ghost var m1 := sim.memory;
    SetNorm(sim, zm[|zm| - 1], norm, ze);
    ghost var m2 := sim.memory;
    ValKept(m1, m2, {}, [norm] + ze, zm);
    DivNormalize(sim, inter, zm, norm, guard, round, sticky, a, b, rest);
    ValKept(m2, sim.memory, inter.free, [sticky, round, guard] + zm, ze);
  }

  /** norm, its effect on the exponent, and the shift. */
  method DivShift(sim: SerialSimulator, inter: IntermediateAllocator, zm: seq<nat>, ze: seq<nat>, guard: nat,
                  round: nat, sticky: nat, ghost a: nat, ghost b: nat, ghost rest: nat)
    requires Ready(sim, inter) && |inter.free| >= 4 && |zm| >= 2 && |ze| >= 3
    requires LiveReg(sim, inter, zm) && Distinct(zm) && LiveReg(sim, inter, ze) && Distinct(ze) && Apart(zm, ze)
    requires Live(sim, inter, guard) && Live(sim, inter, round) && Live(sim, inter, sticky)
    requires guard !in zm && round !in zm && sticky !in zm && guard !in ze && round !in ze && sticky !in ze
    requires guard != round && guard != sticky && round != sticky
    requires a < Pow2(|zm|) && Ones(sim.memory, ze)
    requires b >= Pow2(|zm| - 1) ==> Divides(|zm| - 1, a, b, Bit(sim.memory, round) + 2 * Bit(sim.memory, guard) +
                                             4 * Val(sim.memory, zm), rest)
    requires Bit(sim.memory, sticky) == 1 <==> rest != 0
    modifies sim, inter
    ensures Ready(sim, inter) && inter.free == old(inter.free)
    ensures Kept(old(sim.memory), sim.memory, inter.free, zm + ze + [guard, round, sticky])
    ensures b >= Pow2(|zm| - 1) ==>
              && Val(sim.memory, ze) == Pow2(|ze| - 2) - 1 - DivNorm(a, b)
              && RoundsFrom(sim.memory, zm, guard, round, sticky, DivSig(|zm| - 1, a, b))
    ensures sim.latency == old(sim.latency) + 6 * |zm| + 19
  {
    hide Val, Pow2, RoundsFrom, DivSig, Divides, Tracks, DivNorm, Ones, Distinct, Apart;
    var norm := inter.MallocCell();
    DivShiftBy(sim, inter, zm, ze, norm, guard, round, sticky, a, b, rest);
    inter.FreeCell(norm);
  }

  lemma DivShifted(nm: nat, a: nat, b: nat, q: nat, r: nat, w: nat, v: nat, norm: nat)
    requires nm >= 1 && Pow2(nm) <= b && a < Pow2(nm + 1) && Divides(nm, a, b, q, r)
    requires w == 2 * q + (if r != 0 then 1 else 0) && norm <= 1 && (norm == 1 <==> q / 4 < Pow2(nm))
    requires v == if norm == 1 then 2 * w % Pow2(nm + 4) else w
    ensures norm == DivNorm(a, b)
    ensures RoundUp(v / 8, v / 4 % 2 == 1, v / 2 % 2 == 1 || v % 2 == 1) == DivSig(nm, a, b)
  {
    Pow2Next(nm);
    Pow2Next(nm + 1);
    Pow2Next(nm + 2);
    Pow2Next(nm + 3);
    hide Pow2, RoundUp, DivSig;
    var u := if norm == 1 then 2 * w else w;
    assert norm == 1 <==> q < 4 * Pow2(nm);
    DivRounds(nm, a, b, q, r, u);
    if norm == 1 {
      DivModUnique(u, Pow2(nm + 4), 0, u);
    }
  }

  /** Quotient, biased exponent, normalisation; guard, round and sticky bits are left in their cells. */
  method DivTruncated(sim: SerialSimulator, inter: IntermediateAllocator, x: seq<nat>, y: seq<nat>, zm: seq<nat>,
                      ze: seq<nat>, zero: nat, guard: nat, round: nat)
    returns (sticky: nat)
    requires Ready(sim, inter) && |x| == |y| == |zm| >= 2 && |inter.free| >= |x| + 12 && |ze| >= 3
    requires LiveReg(sim, inter, x) && LiveReg(sim, inter, y) && LiveReg(sim, inter, zm) && LiveReg(sim, inter, ze)
    requires Distinct(zm) && Distinct(ze) && Apart(x, zm) && Apart(y, zm) && Apart(zm, ze)
    requires Live(sim, inter, zero) && zero !in zm && !sim.memory[zero]
    requires Live(sim, inter, guard) && Live(sim, inter, round) && guard != round && guard != zero && round != zero
    requires guard !in x && guard !in y && guard !in zm && round !in x && round !in y && round !in zm && guard !in ze
    requires round !in ze
    modifies sim, inter
    ensures Ready(sim, inter) && Pooled(inter.cells, sticky)
    ensures sticky in old(inter.free) && inter.free == old(inter.free) - {sticky}
    ensures Kept(old(sim.memory), sim.memory, old(inter.free), zm + ze + [guard, round])
    ensures var a, b := old(Val(sim.memory, x)), old(Val(sim.memory, y));
            b >= Pow2(|x| - 1) ==>
              && Val(sim.memory, ze) == Pow2(|ze| - 2) - 1 - DivNorm(a, b)
              && RoundsFrom(sim.memory, zm, guard, round, sticky, DivSig(|zm| - 1, a, b))
    ensures sim.latency == old(sim.latency) + DivCycles(|x| + 2) + 24 + 7 * |x| + |ze|
  {
    hide Val, Pow2, RoundsFrom, DivSig, Divides, DivCycles;
    ghost var a, b, rest := Val(sim.memory, x), Val(sim.memory, y), 0;
    sticky, rest := QuotientBits(sim, inter, x, y, zm, zero, guard, round);
    ghost var m1 := sim.memory;
    WriteBias(sim, ze);
    ValKept(m1, sim.memory, {}, ze, zm);
    DivShift(sim, inter, zm, ze, guard, round, sticky, a, b, rest);
  }

  /** Significand and biased exponent of the quotient; the new cell says whether rounding overflowed. */
  method DivSignificand(sim: SerialSimulator, inter: IntermediateAllocator, x: seq<nat>, y: seq<nat>, zm: seq<nat>,
                        ze: seq<nat>, zero: nat)
    returns (overflow: nat)
    requires Ready(sim, inter) && |x| == |y| == |zm| >= 2 && |inter.free| >= |x| + 14 && |ze| >= 3
    requires LiveReg(sim, inter, x) && LiveReg(sim, inter, y) && LiveReg(sim, inter, zm) && LiveReg(sim, inter, ze)
    requires Distinct(zm) && Distinct(ze) && Apart(x, zm) && Apart(y, zm) && Apart(zm, ze)
    requires Live(sim, inter, zero) && zero !in zm && !sim.memory[zero]
    modifies sim, inter
    ensures Ready(sim, inter) && Pooled(inter.cells, overflow)
    ensures overflow in old(inter.free) && inter.free == old(inter.free) - {overflow}
    ensures Kept(old(sim.memory), sim.memory, old(inter.free), zm + ze)
    ensures var a, b := old(Val(sim.memory, x)), old(Val(sim.memory, y));
            b >= Pow2(|x| - 1) ==>
              Val(sim.memory, ze) == Pow2(|ze| - 2) - 1 - DivNorm(a, b) &&
              RoundedTo(sim.memory, zm, overflow, DivSig(|zm| - 1, a, b))
    ensures sim.latency == old(sim.latency) + DivCycles(|x| + 2) + 38 + 17 * |x| + |ze|
  {
    hide Val, Pow2, RoundsFrom, RoundedTo, DivSig, DivCycles, Tracks;
    ghost var a, b := Val(sim.memory, x), Val(sim.memory, y);
    var guard, round := inter.Malloc2();
    var sticky := DivTruncated(sim, inter, x, y, zm, ze, zero, guard, round);
    ghost var m1, s := sim.memory, if b >= Pow2(|x| - 1) then DivSig(|zm| - 1, a, b) else 0;
    overflow := StickyRound(sim, inter, zm, guard, round, sticky, s);
    ValKept(m1, sim.memory, inter.free, zm + [overflow], ze);
  }

  lemma ExponentDiffers(ne: nat, e: nat, xe: nat, ov: nat, ye: nat, z1: nat, z2: nat)
    requires ne >= 2 && e <= Pow2(ne - 1) - 1 && xe < Pow2(ne) && ye < Pow2(ne) && ov <= 1
    requires z1 == (e + xe + ov) % Pow2(ne + 1) && z2 == z1 - ye + if z1 >= ye then 0 else Pow2(ne + 1)
    ensures var d := e + xe + ov - ye; if d < 0 then z2 >= Pow2(ne) else z2 == d
  {
    Pow2Next(ne - 1);
    Pow2Next(ne);
    DivModUnique(e + xe + ov, Pow2(ne + 1), 0, e + xe + ov);
  }

  /** ze + xe + bit, with `xe` padded by the zero cell. */
  method AddPadded(sim: SerialSimulator, inter: IntermediateAllocator, xe: seq<nat>, zero: nat, ze: seq<nat>, bit: nat)
    requires Ready(sim, inter) && |inter.free| >= 5 && |ze| == |xe| + 1
    requires LiveReg(sim, inter, xe) && LiveReg(sim, inter, ze) && Live(sim, inter, zero) && Live(sim, inter, bit)
    requires Distinct(ze) && Apart(xe, ze) && zero !in ze && bit !in ze && !sim.memory[zero]
    modifies sim, inter
    ensures Ready(sim, inter) && inter.free == old(inter.free)
    ensures Kept(old(sim.memory), sim.memory, inter.free, ze)
    ensures Val(sim.memory, ze) ==
            old(Val(sim.memory, ze) + Val(sim.memory, xe) + Bit(sim.memory, bit)) % Pow2(|ze|)
    ensures sim.latency == old(sim.latency) + 18 * |ze|
  {
    hide Val, Pow2, Tracks;
    ghost var m := sim.memory;
    var p := xe + Zeros(zero, 1);
    assert forall i {:trigger p[i]} | 0 <= i < |p| :: p[i] == if i < |xe| then xe[i] else zero;
    PadVal(m, xe, zero, 1);
    ghost var k := FixedAddition(sim, inter, ze, p, ze, CarryAt(bit), None);
    ModCarry(Val(sim.memory, ze), k, Pow2(|ze|), Val(m, ze) + Val(m, xe) + Bit(m, bit));
  }

  /** ze - ye, with `ye` padded by the zero cell. */
  method SubPadded(sim: SerialSimulator, inter: IntermediateAllocator, ye: seq<nat>, zero: nat, ze: seq<nat>)
    requires Ready(sim, inter) && |inter.free| >= 6 && |ze| == |ye| + 1
    requires LiveReg(sim, inter, ye) && LiveReg(sim, inter, ze) && Live(sim, inter, zero)
    requires Distinct(ze) && Apart(ye, ze) && zero !in ze && !sim.memory[zero]
    modifies sim, inter
    ensures Ready(sim, inter) && inter.free == old(inter.free)
    ensures Kept(old(sim.memory), sim.memory, inter.free, ze)
    ensures var z1, y := old(Val(sim.memory, ze)), old(Val(sim.memory, ye));
            Val(sim.memory, ze) == z1 - y + if z1 >= y then 0 else Pow2(|ze|)
    ensures sim.latency == old(sim.latency) + 20 * |ze| + 1
  {
    hide Val, Pow2, Tracks;
    var q := ye + Zeros(zero, 1);
    assert forall i {:trigger q[i]} | 0 <= i < |q| :: q[i] == if i < |ye| then ye[i] else zero;
    PadVal(sim.memory, ye, zero, 1);
    FixedSubtraction(sim, inter, ze, q, ze, None);
  }

  /** The dividend's exponent and the rounding overflow added to the biased exponent, the divisor's subtracted. */
  method DivExponent(sim: SerialSimulator, inter: IntermediateAllocator, xe: seq<nat>, ye: seq<nat>, zero: nat,
                     ze: seq<nat>, overflow: nat)
    requires Ready(sim, inter) && |inter.free| >= 6 && |ze| == |xe| + 1 == |ye| + 1
    requires LiveReg(sim, inter, xe) && LiveReg(sim, inter, ye) && LiveReg(sim, inter, ze) && Live(sim, inter, zero)
    requires Live(sim, inter, overflow)
    requires Distinct(ze) && Apart(xe, ze) && Apart(ye, ze) && zero !in ze && overflow !in ze && !sim.memory[zero]
    modifies sim, inter
    ensures Ready(sim, inter) && inter.free == old(inter.free)
    ensures Kept(old(sim.memory), sim.memory, inter.free, ze)
    ensures var z1 := old(Val(sim.memory, ze) + Val(sim.memory, xe) + Bit(sim.memory, overflow)) % Pow2(|ze|);
            var y := old(Val(sim.memory, ye));
            Val(sim.memory, ze) == z1 - y + if z1 >= y then 0 else Pow2(|ze|)
    ensures sim.latency == old(sim.latency) + 38 * |ze| + 1
  {
    hide Val, Pow2, Tracks, Distinct;
    ghost var m := sim.memory;
    AddPadded(sim, inter, xe, zero, ze, overflow);
    ValKept(m, sim.memory, inter.free, ze, ye);
    SubPadded(sim, inter, ye, zero, ze);
  }

  /** Significand and exponent of the quotient, before the flush. */
  method DivMagnitude(sim: SerialSimulator, inter: IntermediateAllocator, xe: seq<nat>, x: seq<nat>, ye: seq<nat>,
                      y: seq<nat>, ze: seq<nat>, zm: seq<nat>, zero: nat)
    requires Ready(sim, inter) && |x| == |y| == |zm| >= 2 && |inter.free| >= |x| + 14
    requires |ze| == |xe| + 1 == |ye| + 1 && |ze| >= 3
    requires LiveReg(sim, inter, x) && LiveReg(sim, inter, y) && LiveReg(sim, inter, zm) && LiveReg(sim, inter, ze)
    requires LiveReg(sim, inter, xe) && LiveReg(sim, inter, ye) && Live(sim, inter, zero) && !sim.memory[zero]
    requires Distinct(zm) && Distinct(ze) && zero !in zm && zero !in ze
    requires Apart(x, zm) && Apart(y, zm) && Apart(zm, ze) && Apart(xe, zm) && Apart(ye, zm) && Apart(xe, ze)
    requires Apart(ye, ze)
    modifies sim, inter
    ensures Ready(sim, inter) && inter.free == old(inter.free)
    ensures Kept(old(sim.memory), sim.memory, inter.free, zm + ze)
    ensures var a, b, nm := old(Val(sim.memory, x)), old(Val(sim.memory, y)), |zm| - 1;
            b >= Pow2(nm) ==>
              && Val(sim.memory, zm) == (if DivSig(nm, a, b) == Pow2(nm + 1) then Pow2(nm) else DivSig(nm, a, b))
              && WrappedTo(sim.memory, ze,
                           DivExp(|ze| - 1, nm, a, b, old(Val(sim.memory, xe)), old(Val(sim.memory, ye))))
    ensures sim.latency == old(sim.latency) + DivCycles(|x| + 2) + 39 + 17 * |x| + 39 * |ze|
  {
    hide Val, Pow2, DivSig, DivCycles;
    ghost var m := sim.memory;
    var overflow := DivSignificand(sim, inter, x, y, zm, ze, zero);
    ghost var m1 := sim.memory;
    ValKept(m, m1, old(inter.free), zm + ze, xe);
    ValKept(m, m1, old(inter.free), zm + ze, ye);
    DivExponent(sim, inter, xe, ye, zero, ze, overflow);
    ValKept(m1, sim.memory, inter.free, ze, zm);
    ghost var z1 := (Val(m1, ze) + Val(m, xe) + Bit(m1, overflow)) % Pow2(|ze|);
    if Val(m, y) >= Pow2(|zm| - 1) {
      ExponentDiffers(|ze| - 1, Val(m1, ze), Val(m, xe), Bit(m1, overflow), Val(m, ye), z1, Val(sim.memory, ze));
    }
    inter.FreeCell(overflow);
  }

  /** What the quotient's sign, exponent and significand become in the result cells. */
  ghost predicate DivResult(m: seq<bool>, hidden: bool, sign: bool, e: int, s: nat, zs: nat, ze: seq<nat>, zm: seq<nat>)
    requires |zm| >= 1
  {
    if !hidden || e < 0 || e >= Pow2(|ze|) then Bit(m, zs) == 0 && Val(m, ze) == 0 && Val(m, zm) == 0
    else Bit(m, zs) == (if sign then 1 else 0) && Val(m, ze) == e &&
         Val(m, zm) == if s == Pow2(|zm|) then Pow2(|zm| - 1) else s
  }

  /** Sign, and the flush to zero when the dividend is zero or the exponent leaves the range. */
  method DivSigned(sim: SerialSimulator, inter: IntermediateAllocator, xs: nat, xe: seq<nat>, x: seq<nat>,
                   ys: nat, ye: seq<nat>, y: seq<nat>, zs: nat, ze: seq<nat>, msb: nat, zm: seq<nat>, zero: nat)
    requires Ready(sim, inter) && |x| == |y| == |zm| >= 2 && |inter.free| >= |x| + 14
    requires |ze| == |xe| == |ye| && |ze| >= 2
    requires LiveReg(sim, inter, x) && LiveReg(sim, inter, y) && LiveReg(sim, inter, zm)
    requires LiveReg(sim, inter, ze + [msb])
    requires LiveReg(sim, inter, xe) && LiveReg(sim, inter, ye) && Live(sim, inter, zero) && !sim.memory[zero]
    requires Live(sim, inter, xs) && Live(sim, inter, ys) && Live(sim, inter, zs) && xs != ys
    requires Distinct(zm) && Distinct(ze + [msb]) && zero !in zm && zero !in ze + [msb]
    requires Apart(x, zm) && Apart(y, zm) && Apart(zm, ze + [msb]) && Apart(xe, zm) && Apart(ye, zm)
    requires Apart(xe, ze + [msb]) && Apart(ye, ze + [msb])
    requires x[|x| - 1] !in ze + [msb] && x[|x| - 1] != zs && msb != zs
    requires xs !in zm && xs !in ze + [msb] && ys !in zm && ys !in ze + [msb] && zs !in zm && zs !in ze + [msb]
    modifies sim, inter
    ensures Ready(sim, inter) && inter.free == old(inter.free)
    ensures Kept(old(sim.memory), sim.memory, inter.free, [zs] + ze + zm + [msb])
    ensures var a, b, nm := old(Val(sim.memory, x)), old(Val(sim.memory, y)), |zm| - 1;
            b >= Pow2(nm) ==>
              DivResult(sim.memory, a >= Pow2(nm), old(sim.memory[xs] != sim.memory[ys]),
                        DivExp(|ze|, nm, a, b, old(Val(sim.memory, xe)),
                               old(Val(sim.memory, ye))), DivSig(nm, a, b), zs, ze, zm)
    ensures sim.latency == old(sim.latency) + DivCycles(|x| + 2) + 95 + 18 * |x| + 40 * |ze|
  {
    hide Val, Pow2, DivSig, DivExp, DivCycles, WrappedTo, Tracks;
    ghost var m := sim.memory;
    var ze', xh := ze + [msb], x[|x| - 1];
    assert forall i {:trigger ze'[i]} | 0 <= i < |ze'| :: ze'[i] == if i < |ze| then ze[i] else msb;
    assert forall i {:trigger ze[i]} | 0 <= i < |ze| :: ze[i] == ze'[i];
    assert ze'[|ze|] == msb;
    TopBitVal(m, x);
    DivMagnitude(sim, inter, xe, x, ye, y, ze', zm, zero);
    ghost var m1 := sim.memory;
    Xor(sim, inter, xs, ys, zs);
    ghost var m2 := sim.memory;
    ValKeptCell(m1, m2, inter.free, zs, ze);
    ValKeptCell(m1, m2, inter.free, zs, zm);
    Flush(sim, inter, xh, msb, zs, ze, zm);
    if Val(m, y) >= Pow2(|zm| - 1) {
      WrappedTop(m1, ze, msb, DivExp(|ze|, |zm| - 1, Val(m, x), Val(m, y), Val(m, xe), Val(m, ye)));
    }
  }

  /** The top exponent bit around `DivSigned`. */
  method DivTop(sim: SerialSimulator, inter: IntermediateAllocator, xs: nat, xe: seq<nat>, x: seq<nat>,
                ys: nat, ye: seq<nat>, y: seq<nat>, zs: nat, ze: seq<nat>, zm: seq<nat>, zero: nat)
    requires Ready(sim, inter) && |x| == |y| == |zm| >= 2 && |inter.free| >= |x| + 15
    requires |ze| == |xe| == |ye| && |ze| >= 2
    requires LiveReg(sim, inter, x) && LiveReg(sim, inter, y) && LiveReg(sim, inter, zm) && LiveReg(sim, inter, ze)
    requires LiveReg(sim, inter, xe) && LiveReg(sim, inter, ye) && Live(sim, inter, zero) && !sim.memory[zero]
    requires Live(sim, inter, xs) && Live(sim, inter, ys) && Live(sim, inter, zs) && xs != ys
    requires Distinct(zm) && Distinct(ze) && zero !in zm && zero !in ze
    requires Apart(x, zm) && Apart(y, zm) && Apart(zm, ze) && Apart(xe, zm) && Apart(ye, zm) && Apart(xe, ze)
    requires Apart(ye, ze)
    requires x[|x| - 1] !in ze && x[|x| - 1] != zs
    requires xs !in zm && xs !in ze && ys !in zm && ys !in ze && zs !in zm && zs !in ze
    modifies sim, inter
    ensures Ready(sim, inter) && inter.free == old(inter.free)
    ensures Kept(old(sim.memory), sim.memory, inter.free, [zs] + ze + zm)
    ensures var a, b, nm := old(Val(sim.memory, x)), old(Val(sim.memory, y)), |zm| - 1;
            b >= Pow2(nm) ==>
              DivResult(sim.memory, a >= Pow2(nm), old(sim.memory[xs] != sim.memory[ys]),
                        DivExp(|ze|, nm, a, b, old(Val(sim.memory, xe)),
                               old(Val(sim.memory, ye))), DivSig(nm, a, b), zs, ze, zm)
    ensures sim.latency == old(sim.latency) + DivCycles(|x| + 2) + 95 + 18 * |x| + 40 * |ze|
  {
    hide Val, Pow2, DivSig, DivExp, DivCycles, DivResult, Distinct, Apart;
    var msb := inter.MallocCell();
    WithCell(sim, inter, ze, msb);
    ApartTop(xe, ze, msb);
    ApartTop(ye, ze, msb);
    ApartTop(zm, ze, msb);
    DivSigned(sim, inter, xs, xe, x, ys, ye, y, zs, ze, msb, zm, zero);
    inter.FreeCell(msb);
  }

  /** The padding cell around `DivTop`. */
  method DivExtended(sim: SerialSimulator, inter: IntermediateAllocator, xs: nat, xe: seq<nat>, x: seq<nat>,
                     ys: nat, ye: seq<nat>, y: seq<nat>, zs: nat, ze: seq<nat>, zm: seq<nat>)
    requires Ready(sim, inter) && |x| == |y| == |zm| >= 2 && |inter.free| >= |x| + 16
    requires |ze| == |xe| == |ye| && |ze| >= 2
    requires LiveReg(sim, inter, x) && LiveReg(sim, inter, y) && LiveReg(sim, inter, zm) && LiveReg(sim, inter, ze)
    requires LiveReg(sim, inter, xe) && LiveReg(sim, inter, ye)
    requires Live(sim, inter, xs) && Live(sim, inter, ys) && Live(sim, inter, zs) && xs != ys
    requires Distinct(zm) && Distinct(ze)
    requires Apart(x, zm) && Apart(y, zm) && Apart(zm, ze) && Apart(xe, zm) && Apart(ye, zm) && Apart(xe, ze)
    requires Apart(ye, ze)
    requires x[|x| - 1] !in ze && x[|x| - 1] != zs
    requires xs !in zm && xs !in ze && ys !in zm && ys !in ze && zs !in zm && zs !in ze
    modifies sim, inter
    ensures Ready(sim, inter) && inter.free == old(inter.free)
    ensures Kept(old(sim.memory), sim.memory, inter.free, [zs] + ze + zm)
    ensures var a, b, nm := old(Val(sim.memory, x)), old(Val(sim.memory, y)), |zm| - 1;
            b >= Pow2(nm) ==>
              DivResult(sim.memory, a >= Pow2(nm), old(sim.memory[xs] != sim.memory[ys]),
                        DivExp(|ze|, nm, a, b, old(Val(sim.memory, xe)),
                               old(Val(sim.memory, ye))), DivSig(nm, a, b), zs, ze, zm)
    ensures sim.latency == old(sim.latency) + DivCycles(|x| + 2) + 96 + 18 * |x| + 40 * |ze|
  {
    hide Val, Pow2, DivSig, DivExp, DivCycles, DivResult;
    ghost var m := sim.memory;
    var zero := inter.MallocCell();
    sim.Init0(zero);
    ghost var m1 := sim.memory;
    assert Kept1(m, m1, {}, zero);
    ValKeptCell(m, m1, {}, zero, x);
    ValKeptCell(m, m1, {}, zero, y);
    ValKeptCell(m, m1, {}, zero, xe);
    ValKeptCell(m, m1, {}, zero, ye);
    DivTop(sim, inter, xs, xe, x, ys, ye, y, zs, ze, zm, zero);
    inter.FreeCell(zero);
  }

  lemma QuotientFloat(m: seq<bool>, x: Float, y: Float, zs: nat, ze: seq<nat>, zm: seq<nat>, zh: nat)
    requires |ze| >= 2 && Fits(|ze|, |zm|, x) && Fits(|ze|, |zm|, y) && y.exp >= 1
    requires var a, b := Significand(|zm|, x), Significand(|zm|, y);
             DivResult(m, a >= Pow2(|zm|), x.sign != y.sign, DivExp(|ze|, |zm|, a, b, x.exp, y.exp),
                       DivSig(|zm|, a, b), zs, ze, zm + [zh])
    ensures FloatAt(m, zs, ze, zm) == Quotient(|ze|, |zm|, x, y)
  {
    Pow2Next(|zm|);
    hide Val, Pow2, DivSig;
    DropHidden(m, zm, zh);
    if x.exp >= 1 {
      DivSigRange(|zm|, Significand(|zm|, x), Significand(|zm|, y));
    }
  }

  /** floatingDivision once the hidden-bit cells are allocated. */
  method DivHidden(sim: SerialSimulator, inter: IntermediateAllocator, xs: nat, xe: seq<nat>, xm: seq<nat>, xh: nat,
                   ys: nat, ye: seq<nat>, ym: seq<nat>, yh: nat, zs: nat, ze: seq<nat>, zm: seq<nat>, zh: nat)
    requires Ready(sim, inter) && |xm| == |ym| == |zm| >= 1 && |inter.free| >= |xm| + 17
    requires |ze| == |xe| == |ye| && |ze| >= 2
    requires LiveReg(sim, inter, xe) && LiveReg(sim, inter, xm + [xh]) && LiveReg(sim, inter, ye)
    requires LiveReg(sim, inter, ym + [yh])
    requires LiveReg(sim, inter, ze) && LiveReg(sim, inter, zm + [zh])
    requires Live(sim, inter, xs) && Live(sim, inter, ys) && Live(sim, inter, zs) && xs != ys
    requires Distinct(zm + [zh]) && Distinct(ze)
    requires Apart(xm + [xh], zm + [zh]) && Apart(ym + [yh], zm + [zh]) && Apart(zm + [zh], ze)
    requires Apart(xe, zm + [zh]) && Apart(ye, zm + [zh]) && Apart(xe, ze) && Apart(ye, ze)
    requires xs !in zm + [zh] && xs !in ze && ys !in zm + [zh] && ys !in ze && zs !in zm + [zh] && zs !in ze
    requires xh != yh && xh !in ye && xh !in ym && yh !in xm && yh !in xe && yh !in ye && xh !in xe && xh != xs
    requires xh != ys && yh != xs && yh != ys
    requires xh !in xm && yh !in ym && xh !in ze && xh != zs
    modifies sim, inter
    ensures Ready(sim, inter) && inter.free == old(inter.free)
    ensures Kept(old(sim.memory), sim.memory, inter.free, [zs] + ze + (zm + [zh]) + [xh, yh])
    ensures var x, y := old(FloatAt(sim.memory, xs, xe, xm)), old(FloatAt(sim.memory, ys, ye, ym));
            y.exp >= 1 ==> FloatAt(sim.memory, zs, ze, zm) == Quotient(|ze|, |zm|, x, y)
    ensures sim.latency == old(sim.latency) + DivCycles(|xm| + 3) + 120 + 18 * |xm| + 42 * |ze|
  {
    hide Val, Pow2, DivSig, DivExp, DivCycles, DivResult, Quotient;
    ghost var m := sim.memory;
    assert forall i {:trigger xm[i]} | 0 <= i < |xm| :: xm[i] == (xm + [xh])[i];
    assert forall i {:trigger ym[i]} | 0 <= i < |ym| :: ym[i] == (ym + [yh])[i];
    assert (xm + [xh])[|xm|] == xh && (ym + [yh])[|ym|] == yh;
    HiddenBits(sim, inter, xs, xe, xm, xh, ys, ye, ym, yh);
    ghost var m1 := sim.memory;
    DivExtended(sim, inter, xs, xe, xm + [xh], ys, ye, ym + [yh], zs, ze, zm + [zh]);
    if Val(m, ye) >= 1 {
      QuotientFloat(sim.memory, FloatAt(m, xs, xe, xm), FloatAt(m, ys, ye, ym), zs, ze, zm, zh);
    }
  }

  /** What the routine asks of its registers. */
  ghost predicate DivRegisters(sim: SerialSimulator, inter: IntermediateAllocator, xs: nat, xe: seq<nat>, xm: seq<nat>,
                               ys: nat, ye: seq<nat>, ym: seq<nat>, zs: nat, ze: seq<nat>, zm: seq<nat>)
    reads sim, inter
  {
    && Ready(sim, inter) && |xm| == |ym| == |zm| >= 1 && |ze| == |xe| == |ye| && |ze| >= 2
    && LiveReg(sim, inter, xe) && LiveReg(sim, inter, xm) && LiveReg(sim, inter, ye) && LiveReg(sim, inter, ym)
    && LiveReg(sim, inter, ze) && LiveReg(sim, inter, zm) && Live(sim, inter, xs) && Live(sim, inter, ys)
    && Live(sim, inter, zs) && xs != ys && Distinct(xm) && Distinct(ym) && Distinct(zm) && Distinct(ze)
    && Apart(xm, zm) && Apart(ym, zm) && Apart(zm, ze) && Apart(xe, zm) && Apart(ye, zm) && Apart(xe, ze)
    && Apart(ye, ze) && xs !in zm && xs !in ze && ys !in zm && ys !in ze && zs !in zm && zs !in ze
  }

  /** The routine around its hidden-bit cells. */
  method DivideFloats(sim: SerialSimulator, inter: IntermediateAllocator, xs: nat, xe: seq<nat>, xm: seq<nat>,
                      ys: nat, ye: seq<nat>, ym: seq<nat>, zs: nat, ze: seq<nat>, zm: seq<nat>)
    requires DivRegisters(sim, inter, xs, xe, xm, ys, ye, ym, zs, ze, zm) && |inter.free| >= |xm| + 20
    modifies sim, inter
    ensures Ready(sim, inter) && inter.free == old(inter.free)
    ensures Kept(old(sim.memory), sim.memory, inter.free, [zs] + ze + zm)
    ensures var x, y := old(FloatAt(sim.memory, xs, xe, xm)), old(FloatAt(sim.memory, ys, ye, ym));
            y.exp >= 1 ==> FloatAt(sim.memory, zs, ze, zm) == Quotient(|ze|, |zm|, x, y)
    ensures sim.latency == old(sim.latency) + DivCycles(|xm| + 3) + 120 + 18 * |xm| + 42 * |ze|
  {
    hide FloatAt, DivCycles, Quotient, Distinct, Apart;
    var xh, yh, zh := inter.Malloc3();
    WithCell(sim, inter, xm, xh);
    WithCell(sim, inter, ym, yh);
    WithCell(sim, inter, zm, zh);
    ApartTop(xm, zm, zh);
    ApartTop(zm + [zh], xm, xh);
    ApartTop(ym, zm, zh);
    ApartTop(zm + [zh], ym, yh);
    ApartTop(xe, zm, zh);
    ApartTop(ye, zm, zh);
    ApartSwap(zm, ze);
    ApartTop(ze, zm, zh);
    DivHidden(sim, inter, xs, xe, xm, xh, ys, ye, ym, yh, zs, ze, zm, zh);
    inter.Free3(xh, yh, zh);
  }

  /** floatingDivision: by a normal divisor the result cells hold `Quotient` of the two floats; every other cell outside
      the pool keeps its bit, and the pool is given back whole, whatever the divisor. */
  method FloatingDivision(sim: SerialSimulator, inter: IntermediateAllocator, xs: nat, xe: seq<nat>, xm: seq<nat>,
                          ys: nat, ye: seq<nat>, ym: seq<nat>, zs: nat, ze: seq<nat>, zm: seq<nat>)
    requires DivRegisters(sim, inter, xs, xe, xm, ys, ye, ym, zs, ze, zm) && |inter.free| >= |xm| + 20
    modifies sim, inter
    ensures Ready(sim, inter) && inter.free == old(inter.free)
    ensures Kept(old(sim.memory), sim.memory, inter.free, [zs] + ze + zm)
    ensures var m := old(sim.memory);
            Val(m, ye) >= 1 ==>
              Float(sim.memory[zs], Val(sim.memory, ze), Val(sim.memory, zm)) ==
              Quotient(|ze|, |zm|, Float(m[xs], Val(m, xe), Val(m, xm)), Float(m[ys], Val(m, ye), Val(m, ym)))
    ensures var k := |xm| + 3;
            sim.latency == old(sim.latency) + (26 * k * k + 56 * k + 7) + 120 + 18 * |xm| + 42 * |ze|
  {
    hide FloatAt, Val, Quotient, Kept, DivCycles;
    ghost var m := sim.memory;
    DivideFloats(sim, inter, xs, xe, xm, ys, ye, ym, zs, ze, zm);
    KeptSize(m, sim.memory, inter.free, [zs] + ze + zm);
    FloatAtIs(m, xs, xe, xm);
    FloatAtIs(m, ys, ye, ym);
    FloatAtIs(sim.memory, zs, ze, zm);
    DivCyclesIs(|xm| + 3);
  }
}
