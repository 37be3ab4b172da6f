/** floatingAdditionSigned and floatingSubtractionSigned of serial/AritPIM.py. */
module SerialFloatAddSigned {
  import opened Numbers
  import opened Rounding
  import opened Packing
  import F = Floats
  import opened Simulator
  import opened Allocator
  import opened Cells
  import opened SerialGates
  import opened SerialFixed
  import opened SerialShift
  import opened SerialKaratsuba
  import opened SerialFloat
  import opened SerialAlign
  import opened FloatAdd
  import opened AddSteps

  /** One column of (xmt XOR sdiff) + ymt. */
  method SignedColumnGates(sim: SerialSimulator, inter: IntermediateAllocator, a: nat, b: nat, sdiff: nat,
                           notsdiff: nat, cin: nat, cout: nat)
    requires Ready(sim, inter) && |inter.free| >= 5
    requires Live(sim, inter, a) && Live(sim, inter, b) && Live(sim, inter, sdiff) && Live(sim, inter, notsdiff)
    requires Live(sim, inter, cin) && Live(sim, inter, cout)
    requires a != sdiff && a != cout && sim.memory[notsdiff] == !sim.memory[sdiff]
    modifies sim, inter
    ensures Ready(sim, inter) && inter.free == old(inter.free)
    ensures Kept2(old(sim.memory), sim.memory, inter.free, a, cout)
    ensures Bit(sim.memory, a) + 2 * Bit(sim.memory, cout) ==
            old(Bit(sim.memory, b) + Negated(Bit(sim.memory, sdiff), Bit(sim.memory, a), 1) + Bit(sim.memory, cin))
    ensures sim.latency == old(sim.latency) + 26
  {
    var t := inter.MallocCell();
    XorGiven(sim, inter, a, sdiff, t, notsdiff);
    FullAdder(sim, inter, b, t, cin, a, cout);
    inter.FreeCell(t);
  }

  lemma SignedColumn(s: nat, p: int, zi: nat, z: int, cin: nat, cout: nat, x: int, xi: nat, y: int, yi: nat)
    requires zi <= 1 && cin <= 1 && cout <= 1 && xi <= 1 && yi <= 1 && s <= 1
    requires z + (if cin == 1 then p else 0) == y + Negated(s, x, p)
    requires zi + 2 * cout == yi + Negated(s, xi, 1) + cin
    ensures z + (if zi == 1 then p else 0) + (if cout == 1 then 2 * p else 0) ==
            y + (if yi == 1 then p else 0) + Negated(s, x + (if xi == 1 then p else 0), 2 * p)
  {
  }

  /** What the mantissa loop keeps: on `i` columns the sum, or the difference in two's complement. */
  ghost predicate SignedInv(m: seq<bool>, m': seq<bool>, f: set<nat>, zm: seq<nat>, ymt: seq<nat>, i: nat,
                            sdiff: nat, c: nat, last: nat)
    requires i <= |zm| == |ymt|
  {
    && Kept(m, m', f, zm + [c, last])
    && Same(m, m', zm, i, |zm|)
    && ValN(m', zm, i) + (if Bit(m', CarryCell(i, |zm|, sdiff, c, last)) == 1 then Pow2(i) else 0) ==
       ValN(m, ymt, i) + Negated(Bit(m, sdiff), ValN(m, zm, i), Pow2(i))
  }

  ghost predicate SignedPre(sim: SerialSimulator, inter: IntermediateAllocator, zm: seq<nat>, ymt: seq<nat>, sdiff: nat,
                            notsdiff: nat, c: nat, last: nat)
    reads sim, inter
  {
    && Ready(sim, inter) && |zm| == |ymt|
    && LiveReg(sim, inter, zm) && LiveReg(sim, inter, ymt) && Distinct(zm) && Apart(zm, ymt)
    && Live(sim, inter, sdiff) && Live(sim, inter, notsdiff) && Live(sim, inter, c) && Live(sim, inter, last)
    && sdiff !in zm && notsdiff !in zm && c !in zm && last !in zm && c !in ymt && last !in ymt
    && sdiff != c && sdiff != last && notsdiff != c && notsdiff != last
    && sim.memory[notsdiff] == !sim.memory[sdiff]
  }

  method SignedStep(sim: SerialSimulator, inter: IntermediateAllocator, zm: seq<nat>, ymt: seq<nat>, i: nat, sdiff: nat,
                    notsdiff: nat, c: nat, last: nat, ghost m: seq<bool>)
    requires SignedPre(sim, inter, zm, ymt, sdiff, notsdiff, c, last) && |inter.free| >= 5 && i < |zm|
    requires SignedInv(m, sim.memory, inter.free, zm, ymt, i, sdiff, c, last)
    modifies sim, inter
    ensures Ready(sim, inter) && inter.free == old(inter.free) && |sim.memory| == |old(sim.memory)|
    ensures sim.memory[notsdiff] == !sim.memory[sdiff]
    ensures SignedInv(m, sim.memory, inter.free, zm, ymt, i + 1, sdiff, c, last)
    ensures sim.latency == old(sim.latency) + 26
  {
    hide ValN, Pow2, Negated, Tracks;
    ghost var m1 := sim.memory;
    var cin, cout := if i > 0 then c else sdiff, if i < |zm| - 1 then c else last;
    SignedColumnGates(sim, inter, zm[i], ymt[i], sdiff, notsdiff, cin, cout);
    SignedStepVal(m, m1, sim.memory, inter.free, zm, ymt, i, sdiff, c, last, cin, cout);
  }

  lemma SignedStepVal(m: seq<bool>, m1: seq<bool>, m2: seq<bool>, f: set<nat>, zm: seq<nat>, ymt: seq<nat>, i: nat,
                      sdiff: nat, c: nat, last: nat, cin: nat, cout: nat)
    requires i < |zm| == |ymt| && Distinct(zm) && Apart(zm, ymt)
    requires (forall k | 0 <= k < |zm| :: zm[k] !in f && ymt[k] !in f)
    requires c !in zm && last !in zm && c !in ymt && last !in ymt && sdiff !in zm && sdiff !in f && sdiff != c
    requires sdiff != last
    requires SignedInv(m, m1, f, zm, ymt, i, sdiff, c, last)
    requires cin == CarryCell(i, |zm|, sdiff, c, last) && cout == CarryCell(i + 1, |zm|, sdiff, c, last)
    requires Kept2(m1, m2, f, zm[i], cout)
    requires Bit(m2, zm[i]) + 2 * Bit(m2, cout) ==
            Bit(m1, ymt[i]) + Negated(Bit(m1, sdiff), Bit(m1, zm[i]), 1) + Bit(m1, cin)
    ensures |m1| == |m2| && SignedInv(m, m2, f, zm, ymt, i + 1, sdiff, c, last)
  {
    hide ValN, Pow2, Negated;
    BehindKept(m1, m2, f, zm, i, cout);
    AheadSame(m, m1, m2, f, zm, i, cout);
    assert Bit(m1, zm[i]) == Bit(m, zm[i]) && Bit(m1, ymt[i]) == Bit(m, ymt[i]) && Bit(m1, sdiff) == Bit(m, sdiff);
    SignedColumn(Bit(m, sdiff), Pow2(i), Bit(m2, zm[i]), ValN(m1, zm, i), Bit(m1, cin), Bit(m2, cout),
                 ValN(m, zm, i), Bit(m, zm[i]), ValN(m, ymt, i), Bit(m, ymt[i]));
    ValNext(m2, zm, i);
    ValNext(m, zm, i);
    ValNext(m, ymt, i);
    Pow2Next(i);
  }

  /** The columns ahead of a step still hold their first bits. */
  lemma AheadSame(m: seq<bool>, m1: seq<bool>, m2: seq<bool>, f: set<nat>, zm: seq<nat>, i: nat, cout: nat)
    requires i < |zm| && Distinct(zm) && Same(m, m1, zm, i, |zm|) && Kept2(m1, m2, f, zm[i], cout) && cout !in zm
    requires forall k | 0 <= k < |zm| :: zm[k] !in f
    ensures Same(m, m2, zm, i + 1, |zm|)
  {
    forall k {:trigger Bit(m2, zm[k])} {:trigger Bit(m, zm[k])} | i + 1 <= k < |zm|
      ensures Bit(m2, zm[k]) == Bit(m, zm[k])
    {
      assert Bit(m1, zm[k]) == Bit(m, zm[k]);
    }
  }

  /** zm = ymt + zm, or ymt - zm in two's complement when the signs differ; the carry out goes to `last`. */
  method SignedRipple(sim: SerialSimulator, inter: IntermediateAllocator, zm: seq<nat>, ymt: seq<nat>, sdiff: nat,
                      notsdiff: nat, c: nat, last: nat)
    requires SignedPre(sim, inter, zm, ymt, sdiff, notsdiff, c, last) && |inter.free| >= 5 && |zm| >= 1
    modifies sim, inter
    ensures Ready(sim, inter) && inter.free == old(inter.free)
    ensures Kept(old(sim.memory), sim.memory, inter.free, zm + [c, last])
    ensures Val(sim.memory, zm) + (if Bit(sim.memory, last) == 1 then Pow2(|zm|) else 0) ==
            old(Val(sim.memory, ymt) + Negated(Bit(sim.memory, sdiff), Val(sim.memory, zm), Pow2(|zm|)))
    ensures sim.latency == old(sim.latency) + 26 * |zm|
  {
    ghost var m := sim.memory;
    for i := 0 to |zm|
      invariant Ready(sim, inter) && inter.free == old(inter.free) && |sim.memory| == |m|
      invariant sim.memory[notsdiff] == !sim.memory[sdiff]
      invariant SignedInv(m, sim.memory, inter.free, zm, ymt, i, sdiff, c, last)
      invariant sim.latency == old(sim.latency) + 26 * i
    {
      SignedStep(sim, inter, zm, ymt, i, sdiff, notsdiff, c, last, m);
    }
  }

  /** The register below the two's-complement sign, least significant first. */
  function Register(sticky: nat, round: nat, guard: nat, zm: seq<nat>): (r: seq<nat>)
    ensures |r| == |zm| + 3
    ensures forall i {:trigger r[i]} | 0 <= i < |r| ::
              r[i] == if i == 0 then sticky else if i == 1 then round else if i == 2 then guard else zm[i - 3]
  {
    [sticky, round, guard] + zm
  }

  lemma RegisterVal(m: seq<bool>, sticky: nat, round: nat, guard: nat, zm: seq<nat>)
    ensures Val(m, Register(sticky, round, guard, zm)) ==
            Bit(m, sticky) + 2 * Bit(m, round) + 4 * Bit(m, guard) + 8 * Val(m, zm)
    ensures Val(m, Register(sticky, round, guard, zm)) == Bit(m, sticky) + 2 * Val(m, [round, guard] + zm)
  {
    hide Val;
    var r := Register(sticky, round, guard, zm);
    assert r == [sticky] + ([round] + ([guard] + zm));
    ValBelow(m, sticky, [round] + ([guard] + zm));
    ValBelow(m, round, [guard] + zm);
    ValBelow(m, guard, zm);
    assert [round, guard] + zm == [round] + ([guard] + zm);
  }

  /** Two's complement to magnitude: the sum, or the absolute difference. */
  lemma SignedTotal(n: nat, a: nat, bm: nat, low: nat, z: nat, carry: nat, sub: nat, v: nat)
    requires a < Pow2(n) && bm < Pow2(n) && z < Pow2(n) && low < 8 && carry <= 1 && sub <= 1
    requires z + (if carry == 1 then Pow2(n) else 0) == bm + Negated(sub, a, Pow2(n))
    requires v == if sub == 0 || carry == 1 || low + 8 * z == 0 then low + 8 * z else Pow2(n + 3) - (low + 8 * z)
    ensures var q := low + 8 * bm;
            v + (if sub == 0 && carry == 1 then Pow2(n + 3) else 0) ==
              (if sub == 0 then 8 * a + q else if 8 * a >= q then 8 * a - q else q - 8 * a)
    ensures sub == 1 ==> (carry == 0 <==> 8 * a > low + 8 * bm)
  {
    Pow2Next(n);
    Pow2Next(n + 1);
    Pow2Next(n + 2);
  }

  /** The absolute value of the register with the sign bit in a copy. */
  method SignedAbs(sim: SerialSimulator, inter: IntermediateAllocator, reg: seq<nat>, notneg: nat)
    requires Ready(sim, inter) && |inter.free| >= 7 && |reg| >= 1
    requires LiveReg(sim, inter, reg) && Distinct(reg) && Live(sim, inter, notneg) && notneg !in reg
    modifies sim, inter
    ensures Ready(sim, inter) && inter.free == old(inter.free)
    ensures Kept(old(sim.memory), sim.memory, inter.free, reg)
    ensures var v := old(Val(sim.memory, reg));
            Val(sim.memory, reg) == if old(sim.memory[notneg]) || v == 0 then v else Pow2(|reg|) - v
    ensures sim.latency == old(sim.latency) + 18 * |reg| + 5
  {
    hide ValN, Pow2;
    ghost var m := sim.memory;
    var copy := inter.MallocCell();
    sim.Not(notneg, copy);
    ghost var m1 := sim.memory;
    assert Kept1(m, m1, {}, copy);
    ValKeptCell(m, m1, {}, copy, reg);
    var x := reg + [copy];
    assert forall i {:trigger x[i]} | 0 <= i < |x| :: x[i] == if i < |reg| then reg[i] else copy;
    Abs(sim, inter, x, x);
    ValPrefix(m1, x, reg, |reg|);
    ValSnoc(sim.memory, reg, copy);
    inter.FreeCell(copy);
  }

  /** The sum of the significands, or their two's-complement difference, with its carry out. */
  method SignedTotals(sim: SerialSimulator, inter: IntermediateAllocator, zm: seq<nat>, ymt: seq<nat>, sdiff: nat,
                      notsdiff: nat, carry: nat)
    requires Ready(sim, inter) && |inter.free| >= 6 && |zm| == |ymt| >= 1
    requires LiveReg(sim, inter, zm) && LiveReg(sim, inter, ymt) && Distinct(zm) && Apart(zm, ymt)
    requires Live(sim, inter, sdiff) && Live(sim, inter, notsdiff) && Live(sim, inter, carry)
    requires sdiff !in zm && notsdiff !in zm && carry !in zm && carry !in ymt && sdiff != carry && notsdiff != carry
    requires sim.memory[notsdiff] == !sim.memory[sdiff]
    modifies sim, inter
    ensures Ready(sim, inter) && inter.free == old(inter.free)
    ensures Kept(old(sim.memory), sim.memory, inter.free, zm + [carry])
    ensures Val(sim.memory, zm) + (if Bit(sim.memory, carry) == 1 then Pow2(|zm|) else 0) ==
            old(Val(sim.memory, ymt) + Negated(Bit(sim.memory, sdiff), Val(sim.memory, zm), Pow2(|zm|)))
    ensures sim.latency == old(sim.latency) + 26 * |zm|
  {
    hide Val, Pow2, Tracks, Apart;
    var temp := inter.MallocCell();
    SignedRipple(sim, inter, zm, ymt, sdiff, notsdiff, temp, carry);
    inter.FreeCell(temp);
  }

  /** The sign of a difference: its carry out is missing. */
  method SignCells(sim: SerialSimulator, sdiff: nat, notsdiff: nat, carry: nat, neg: nat, notneg: nat)
    requires sdiff < |sim.memory| && notsdiff < |sim.memory| && carry < |sim.memory|
    requires neg < |sim.memory| && notneg < |sim.memory| && neg != notneg
    requires notsdiff != carry && neg != sdiff && neg != notsdiff && neg != carry
    requires notneg != sdiff && notneg != notsdiff && notneg != carry
    requires sim.memory[notsdiff] == !sim.memory[sdiff]
    modifies sim
    ensures Kept2(old(sim.memory), sim.memory, {}, neg, notneg)
    ensures sim.memory[neg] == (sim.memory[sdiff] && !sim.memory[carry]) && sim.memory[notneg] == !sim.memory[neg]
    ensures sim.latency == old(sim.latency) + 4
  {
    sim.Nor(notsdiff, carry, neg);
    sim.Not(neg, notneg);
  }

  /** The cells for the signs' exclusive-or, the carry of the sum and the sign of the difference, all different and
      outside the registers. */
  ghost predicate DiffCells(sim: SerialSimulator, inter: IntermediateAllocator, zm: seq<nat>, ymt: seq<nat>,
                            sdiff: nat, notsdiff: nat, carry: nat, neg: nat, notneg: nat)
    reads sim, inter
  {
    && Live(sim, inter, sdiff) && Live(sim, inter, notsdiff) && Live(sim, inter, carry)
    && Live(sim, inter, neg) && Live(sim, inter, notneg)
    && sdiff !in zm && notsdiff !in zm && carry !in zm && carry !in ymt && neg !in zm && notneg !in zm
    && sdiff != notsdiff && sdiff != carry && notsdiff != carry && neg != notneg && neg != carry && notneg != carry
    && neg != sdiff && neg != notsdiff && notneg != sdiff && notneg != notsdiff
  }

  /** Sum of the significands (or two's-complement difference) with its carry out, and the sign of the difference. */
  method SignedSumGates(sim: SerialSimulator, inter: IntermediateAllocator, zm: seq<nat>, ymt: seq<nat>, sdiff: nat,
                        notsdiff: nat, carry: nat, neg: nat, notneg: nat)
    requires Ready(sim, inter) && |inter.free| >= 6 && |zm| == |ymt| >= 1
    requires LiveReg(sim, inter, zm) && LiveReg(sim, inter, ymt) && Distinct(zm) && Apart(zm, ymt)
    requires DiffCells(sim, inter, zm, ymt, sdiff, notsdiff, carry, neg, notneg)
    requires sim.memory[notsdiff] == !sim.memory[sdiff]
    modifies sim, inter
    ensures Ready(sim, inter) && inter.free == old(inter.free)
    ensures Kept(old(sim.memory), sim.memory, inter.free, zm + [carry, neg, notneg])
    ensures Val(sim.memory, zm) + (if Bit(sim.memory, carry) == 1 then Pow2(|zm|) else 0) ==
            old(Val(sim.memory, ymt) + Negated(Bit(sim.memory, sdiff), Val(sim.memory, zm), Pow2(|zm|)))
    ensures sim.memory[neg] == (sim.memory[sdiff] && !sim.memory[carry]) && sim.memory[notneg] == !sim.memory[neg]
    ensures sim.latency == old(sim.latency) + 26 * |zm| + 4
  {
    hide Val, Pow2, Tracks, Distinct;
    SignedTotals(sim, inter, zm, ymt, sdiff, notsdiff, carry);
    ghost var m1 := sim.memory;
    SignCells(sim, sdiff, notsdiff, carry, neg, notneg);
    ValKept2(m1, sim.memory, {}, neg, notneg, zm);
  }

  lemma SignedMagnitudeVal(m: seq<bool>, m1: seq<bool>, m2: seq<bool>, zm: seq<nat>, ymt: seq<nat>, sticky: nat,
                           round: nat, guard: nat, sdiff: nat, carry: nat)
    requires |zm| == |ymt|
    requires Val(m1, zm) + (if Bit(m1, carry) == 1 then Pow2(|zm|) else 0) ==
            Val(m, ymt) + Negated(Bit(m, sdiff), Val(m, zm), Pow2(|zm|))
    requires Bit(m1, sticky) == Bit(m, sticky) && Bit(m1, round) == Bit(m, round) && Bit(m1, guard) == Bit(m, guard)
    requires var v := Val(m1, Register(sticky, round, guard, zm));
             Val(m2, Register(sticky, round, guard, zm)) ==
               if Bit(m, sdiff) == 0 || Bit(m1, carry) == 1 || v == 0 then v else Pow2(|zm| + 3) - v
    ensures Val(m2, Register(sticky, round, guard, zm)) +
            (if Bit(m, sdiff) == 0 && Bit(m1, carry) == 1 then Pow2(|zm| + 3) else 0) ==
            Combined(Val(m, zm), Val(m, [round, guard] + ymt), Bit(m, sticky) == 1, Bit(m, sdiff) == 1)
    ensures Bit(m, sdiff) == 1 ==>
              (Bit(m1, carry) == 0 <==> 8 * Val(m, zm) > 2 * Val(m, [round, guard] + ymt) + Bit(m, sticky))
  {
    hide Val, Pow2;
    RegisterVal(m, sticky, round, guard, ymt);
    RegisterVal(m1, sticky, round, guard, zm);
    var low := Bit(m, sticky) + 2 * Bit(m, round) + 4 * Bit(m, guard);
    SignedTotal(|zm|, Val(m, zm), Val(m, ymt), low, Val(m1, zm), Bit(m1, carry), Bit(m, sdiff),
                Val(m2, Register(sticky, round, guard, zm)));
  }

  ghost predicate Aside(c: nat, sdiff: nat, notsdiff: nat, carry: nat, neg: nat, notneg: nat) {
    c != sdiff && c != notsdiff && c != carry && c != neg && c != notneg
  }

  /** Sum or absolute difference of the significands: the register, and above it the carry of a sum. */
  method SignedMagnitude(sim: SerialSimulator, inter: IntermediateAllocator, zm: seq<nat>, ymt: seq<nat>, sticky: nat,
                         round: nat, guard: nat, sdiff: nat, notsdiff: nat, carry: nat, neg: nat, notneg: nat)
    requires Ready(sim, inter) && |inter.free| >= 7 && |zm| == |ymt| >= 1
    requires LiveReg(sim, inter, Register(sticky, round, guard, zm)) && LiveReg(sim, inter, ymt)
    requires Distinct(Register(sticky, round, guard, zm)) && Apart(zm, ymt)
    requires DiffCells(sim, inter, zm, ymt, sdiff, notsdiff, carry, neg, notneg)
    requires Aside(sticky, sdiff, notsdiff, carry, neg, notneg) && Aside(round, sdiff, notsdiff, carry, neg, notneg)
    requires Aside(guard, sdiff, notsdiff, carry, neg, notneg)
    requires sim.memory[notsdiff] == !sim.memory[sdiff]
    modifies sim, inter
    ensures Ready(sim, inter) && inter.free == old(inter.free)
    ensures Kept(old(sim.memory), sim.memory, inter.free, Register(sticky, round, guard, zm) + [carry, neg, notneg])
    ensures Val(sim.memory, Register(sticky, round, guard, zm)) +
            (if old(Bit(sim.memory, sdiff)) == 0 && Bit(sim.memory, carry) == 1 then Pow2(|zm| + 3) else 0) ==
            old(Combined(Val(sim.memory, zm), Val(sim.memory, [round, guard] + ymt), Bit(sim.memory, sticky) == 1,
                         Bit(sim.memory, sdiff) == 1))
    ensures sim.memory[neg] == !sim.memory[notneg]
    ensures old(sim.memory[sdiff]) ==>
              (sim.memory[neg] <==> old(8 * Val(sim.memory, zm) > 2 * Val(sim.memory, [round, guard] + ymt) +
                                        Bit(sim.memory, sticky)))
    ensures sim.latency == old(sim.latency) + 44 * |zm| + 63
  {
    hide Val, Pow2, Tracks;
    ghost var m := sim.memory;
    var reg := Register(sticky, round, guard, zm);
    assert forall i {:trigger zm[i]} | 0 <= i < |zm| :: zm[i] == reg[i + 3];
    assert reg[0] == sticky && reg[1] == round && reg[2] == guard;
    SignedSumGates(sim, inter, zm, ymt, sdiff, notsdiff, carry, neg, notneg);
    ghost var m1, o := sim.memory, zm + [carry, neg, notneg];
    assert sticky !in o && round !in o && guard !in o;
    assert Bit(m1, sticky) == Bit(m, sticky) && Bit(m1, round) == Bit(m, round) && Bit(m1, guard) == Bit(m, guard);
    SignedAbs(sim, inter, reg, notneg);
    SignedMagnitudeVal(m, m1, sim.memory, zm, ymt, sticky, round, guard, sdiff, carry);
  }

  /** Without a carry for differences, one right shift for the carry of a sum. */
  method SignedCarryShift(sim: SerialSimulator, inter: IntermediateAllocator, zm: seq<nat>, sticky: nat, round: nat,
                          guard: nat, sdiff: nat, carry: nat, ghost r: nat)
    requires Ready(sim, inter) && |inter.free| >= 4 && |zm| >= 1
    requires LiveReg(sim, inter, Register(sticky, round, guard, zm)) && Distinct(Register(sticky, round, guard, zm))
    requires Live(sim, inter, sdiff) && Live(sim, inter, carry) && sdiff != carry
    requires sdiff !in Register(sticky, round, guard, zm) && carry !in Register(sticky, round, guard, zm)
    requires Val(sim.memory, Register(sticky, round, guard, zm)) +
             (if Bit(sim.memory, sdiff) == 0 && Bit(sim.memory, carry) == 1 then Pow2(|zm| + 3) else 0) == r
    modifies sim, inter
    ensures Ready(sim, inter) && inter.free == old(inter.free)
    ensures Kept(old(sim.memory), sim.memory, inter.free, Register(sticky, round, guard, zm) + [carry])
    ensures Val(sim.memory, [round, guard] + zm) == CarryShifted(|zm| - 1, r)
    ensures Bit(sim.memory, sticky) == 1 <==> CarrySticky(|zm| - 1, r)
    ensures Bit(sim.memory, carry) == 1 <==> r / 2 >= Pow2(|zm| + 2)
    ensures sim.latency == old(sim.latency) + 6 * |zm| + 29
  {
    hide Val, Pow2;
    ghost var m := sim.memory;
    var all, reg := Register(sticky, round, guard, zm), [round, guard] + zm;
    assert forall i {:trigger reg[i]} | 0 <= i < |reg| :: reg[i] == all[i + 1];
    assert all[0] == sticky;
    sim.NotInto(sdiff, carry);
    ghost var m1 := sim.memory;
    assert Kept1(m, m1, {}, carry);
    ValKeptCell(m, m1, {}, carry, all);
    CarryShift(sim, inter, reg, carry, sticky);
    RegisterVal(m1, sticky, round, guard, zm);
    Pow2Next(|zm| + 2);
  }

  /** INIT0 over a list of cells. */
  method ClearCells(sim: SerialSimulator, a: seq<nat>)
    requires forall i | 0 <= i < |a| :: a[i] < |sim.memory|
    modifies sim
    ensures Kept(old(sim.memory), sim.memory, {}, a)
    ensures Val(sim.memory, a) == 0
    ensures sim.latency == old(sim.latency) + |a|
  {
    ghost var m := sim.memory;
    for i := 0 to |a|
      invariant Kept(m, sim.memory, {}, a)
      invariant forall k {:trigger a[k]} | 0 <= k < i :: Bit(sim.memory, a[k]) == 0
      invariant sim.latency == old(sim.latency) + i
    {
      sim.Init0(a[i]);
    }
    ValZero(sim.memory, a, |a|);
  }

  /** What left-shift normalisation leaves in the register `w` and in the shift amount `t`. */
  ghost predicate LeftNormal(v: nat, t: nat, w: nat, top: nat) {
    if v == 0 then w == 0 && t == 0 else w == Pow2(t) * v && w >= top
  }

  /** Left-shift normalisation, its amount subtracted from the exponent. */
  method SignedLeftShift(sim: SerialSimulator, inter: IntermediateAllocator, ze: seq<nat>, reg: seq<nat>,
                         ls: seq<nat>)
    returns (ghost t: nat)
    requires Ready(sim, inter) && |inter.free| >= 6 && |reg| >= 1 && |ze| == |ls| >= CeilLog2(|reg|)
    requires LiveReg(sim, inter, ze) && LiveReg(sim, inter, reg) && LiveReg(sim, inter, ls)
    requires Distinct(ze) && Distinct(reg) && Distinct(ls) && Apart(ze, reg) && Apart(ze, ls) && Apart(reg, ls)
    modifies sim, inter
    ensures Ready(sim, inter) && inter.free == old(inter.free)
    ensures Kept(old(sim.memory), sim.memory, inter.free, ze + reg + ls)
    ensures t < |reg| && LeftNormal(old(Val(sim.memory, reg)), t, Val(sim.memory, reg), Pow2(|reg| - 1))
    ensures Val(sim.memory, ze) ==
            old(Val(sim.memory, ze)) - t + if old(Val(sim.memory, ze)) >= t then 0 else Pow2(|ze|)
    ensures sim.latency == old(sim.latency) + NormCost(|reg|) + 21 * |ze| + 1
  {
    hide Val, Pow2;
    ghost var m := sim.memory;
    var w := CeilLog2(|reg|);
    var low, high := ls[..w], ls[w..];
    assert forall i {:trigger low[i]} | 0 <= i < |low| :: low[i] == ls[i];
    assert forall i {:trigger high[i]} | 0 <= i < |high| :: high[i] == ls[w + i];
    NormalizeShiftLeft(sim, inter, reg, low);
    ghost var m1 := sim.memory;
    t := Val(m1, low);
    ClearCells(sim, high);
    ghost var m2 := sim.memory;
    SplitCells(m1, m2, ls, w);
    ValKept(m1, m2, {}, high, reg);
    ValKept(m, m1, inter.free, reg + low, ze);
    ValKept(m1, m2, {}, high, ze);
    FixedSubtraction(sim, inter, ze, ls, ze, None);
    ValKept(m2, sim.memory, inter.free, ze, reg);
  }

  /** Cycles of the left-shift normalisation over `n` cells, less the clearing of the unused shift cells. */
  function NormCost(n: nat): int
    requires n >= 1
  {
    var w := CeilLog2(n);
    w * (6 * n + 4) - 4 * Pow2(w) + 6 - w
  }

  lemma SplitCells(m: seq<bool>, m': seq<bool>, ls: seq<nat>, w: nat)
    requires w <= |ls| && Distinct(ls) && Kept(m, m', {}, ls[w..]) && Val(m', ls[w..]) == 0
    ensures Val(m', ls) == Val(m, ls[..w])
  {
    hide Val, Pow2;
    var low, high := ls[..w], ls[w..];
    assert low + high == ls;
    ValAppend(m', low, high);
    assert forall i {:trigger low[i]} | 0 <= i < |low| :: low[i] == ls[i];
    assert forall i {:trigger high[i]} | 0 <= i < |high| :: high[i] == ls[w + i];
    ValKept(m, m', {}, high, low);
    assert Pow2(w) * 0 == 0;
  }

  /** The shift-amount cells around `SignedLeftShift`. */
  method SignedNormalize(sim: SerialSimulator, inter: IntermediateAllocator, ze: seq<nat>, reg: seq<nat>)
    returns (ghost t: nat)
    requires Ready(sim, inter) && |inter.free| >= |ze| + 6 && |reg| >= 1 && |ze| >= 1 && |ze| >= CeilLog2(|reg|)
    requires LiveReg(sim, inter, ze) && LiveReg(sim, inter, reg)
    requires Distinct(ze) && Distinct(reg) && Apart(ze, reg)
    modifies sim, inter
    ensures Ready(sim, inter) && inter.free == old(inter.free)
    ensures Kept(old(sim.memory), sim.memory, inter.free, ze + reg)
    ensures t < |reg| && LeftNormal(old(Val(sim.memory, reg)), t, Val(sim.memory, reg), Pow2(|reg| - 1))
    ensures Val(sim.memory, ze) ==
            old(Val(sim.memory, ze)) - t + if old(Val(sim.memory, ze)) >= t then 0 else Pow2(|ze|)
    ensures sim.latency == old(sim.latency) + NormCost(|reg|) + 21 * |ze| + 1
  {
    hide Val, Pow2, LeftNormal, NormCost, CeilLog2;
    var ls := inter.Malloc(|ze|);
    t := SignedLeftShift(sim, inter, ze, reg, ls);
    inter.Free(ls);
  }

  /** Rounding, and the exponent incremented by the carry and the overflow. */
  method SignedRound(sim: SerialSimulator, inter: IntermediateAllocator, ze: seq<nat>, zm: seq<nat>, guard: nat,
                     round: nat, sticky: nat, carry: nat, ghost s: nat)
    requires Ready(sim, inter) && |inter.free| >= 4 && |ze| >= 2 && |zm| >= 1
    requires LiveReg(sim, inter, ze) && LiveReg(sim, inter, zm) && Distinct(ze) && Distinct(zm) && Apart(ze, zm)
    requires Live(sim, inter, guard) && Live(sim, inter, round) && Live(sim, inter, sticky) && Live(sim, inter, carry)
    requires Pooled(inter.cells, guard) && Pooled(inter.cells, round) && Pooled(inter.cells, sticky)
    requires guard !in zm && round !in zm && sticky !in zm && carry !in zm && guard !in ze && round !in ze
    requires sticky !in ze && carry !in ze
    requires guard != round && guard != sticky && round != sticky && guard != carry && round != carry && sticky != carry
    requires RoundsFrom(sim.memory, zm, guard, round, sticky, s)
    modifies sim, inter
    ensures Ready(sim, inter) && inter.free == old(inter.free) + {guard, round, sticky}
    ensures Kept(old(sim.memory), sim.memory, inter.free, zm + ze)
    ensures Val(sim.memory, zm) == (if s == Pow2(|zm|) then Pow2(|zm| - 1) else s)
    ensures Val(sim.memory, ze) ==
            (old(Val(sim.memory, ze)) + old(Bit(sim.memory, carry)) + Carried(|zm| - 1, s)) % Pow2(|ze|)
    ensures sim.latency == old(sim.latency) + 10 * |zm| + 22 + 10 * |ze|
  {
    hide Val, Pow2, RoundsFrom;
    ghost var m := sim.memory;
    var overflow := StickyRound(sim, inter, zm, guard, round, sticky, s);
    ghost var m1 := sim.memory;
    ValKept(m, m1, inter.free, zm + [overflow], ze);
    BumpExponent(sim, inter, ze, carry, overflow);
    ValKept(m1, sim.memory, inter.free, ze, zm);
    inter.FreeCell(overflow);
  }

  /** Sum or difference of the aligned significands, carry and sticky bit adjusted. */
  method SignedCore(sim: SerialSimulator, inter: IntermediateAllocator, zm: seq<nat>, ymt: seq<nat>, sticky: nat,
                    round: nat, guard: nat, sdiff: nat, notsdiff: nat, carry: nat, neg: nat, notneg: nat)
    returns (ghost r: nat)
    requires Ready(sim, inter) && |inter.free| >= 7 && |zm| == |ymt| >= 1
    requires LiveReg(sim, inter, Register(sticky, round, guard, zm)) && LiveReg(sim, inter, ymt)
    requires Distinct(Register(sticky, round, guard, zm)) && Apart(zm, ymt)
    requires DiffCells(sim, inter, zm, ymt, sdiff, notsdiff, carry, neg, notneg)
    requires Aside(sticky, sdiff, notsdiff, carry, neg, notneg) && Aside(round, sdiff, notsdiff, carry, neg, notneg)
    requires Aside(guard, sdiff, notsdiff, carry, neg, notneg)
    requires sim.memory[notsdiff] == !sim.memory[sdiff]
    modifies sim, inter
    ensures Ready(sim, inter) && inter.free == old(inter.free)
    ensures Kept(old(sim.memory), sim.memory, inter.free, Register(sticky, round, guard, zm) + [carry, neg, notneg])
    ensures r == old(Combined(Val(sim.memory, zm), Val(sim.memory, [round, guard] + ymt), Bit(sim.memory, sticky) == 1,
                              Bit(sim.memory, sdiff) == 1))
    ensures Val(sim.memory, [round, guard] + zm) == CarryShifted(|zm| - 1, r)
    ensures Bit(sim.memory, sticky) == 1 <==> CarrySticky(|zm| - 1, r)
    ensures Bit(sim.memory, carry) == 1 <==> r / 2 >= Pow2(|zm| + 2)
    ensures sim.memory[neg] == !sim.memory[notneg]
    ensures old(sim.memory[sdiff]) ==>
              (sim.memory[neg] <==> old(8 * Val(sim.memory, zm) > 2 * Val(sim.memory, [round, guard] + ymt) +
                                        Bit(sim.memory, sticky)))
    ensures sim.latency == old(sim.latency) + 50 * |zm| + 92
  {
    hide Val, Pow2, CarryShifted, CarrySticky, Combined;
    ghost var m := sim.memory;
    r := Combined(Val(m, zm), Val(m, [round, guard] + ymt), Bit(m, sticky) == 1, Bit(m, sdiff) == 1);
    SignedMagnitude(sim, inter, zm, ymt, sticky, round, guard, sdiff, notsdiff, carry, neg, notneg);
    SignedCarryShift(sim, inter, zm, sticky, round, guard, sdiff, carry, r);
  }

  lemma RegisterParts(sim: SerialSimulator, inter: IntermediateAllocator, sticky: nat, round: nat, guard: nat,
                      zm: seq<nat>)
    requires LiveReg(sim, inter, Register(sticky, round, guard, zm)) && Distinct(Register(sticky, round, guard, zm))
    ensures Live(sim, inter, sticky) && Live(sim, inter, round) && Live(sim, inter, guard)
    ensures sticky !in zm && round !in zm && guard !in zm && sticky != round && sticky != guard && round != guard
  {
    var r := Register(sticky, round, guard, zm);
    assert r[0] == sticky && r[1] == round && r[2] == guard;
    assert forall i {:trigger zm[i]} | 0 <= i < |zm| :: zm[i] == r[i + 3];
  }

  lemma RegisterBits(m: seq<bool>, round: nat, guard: nat, zm: seq<nat>)
    ensures var w := Val(m, [round, guard] + zm);
            w / 4 == Val(m, zm) && w / 2 % 2 == Bit(m, guard) && w % 2 == Bit(m, round)
  {
    hide Val, Bit;
    var high := [guard] + zm;
    assert [round, guard] + zm == [round] + high;
    ValBelow(m, round, high);
    ValBelow(m, guard, zm);
    TwoBits(Bit(m, round), Bit(m, guard), Val(m, zm));
  }

  lemma TwoBits(r: nat, g: nat, z: nat)
    requires r <= 1 && g <= 1
    ensures var w := r + 2 * (g + 2 * z); w / 4 == z && w / 2 % 2 == g && w % 2 == r
  {
    var w, b := r + 2 * (g + 2 * z), g + 2 * z;
    DivModUnique(w, 2, b, r);
    DivModUnique(w, 4, z, r + 2 * g);
    DivModUnique(b, 2, z, g);
  }

  /** Costs and weights of the register of `n + 2` cells. */
  lemma RegisterWidth(k: nat, n: nat)
    requires k == n + 2
    ensures Pow2(k) == Pow2(n + 2) && Pow2(k - 1) == Pow2(n + 1) && NormCost(k) == NormCost(n + 2)
  {
  }

  /** Left-shift normalisation of the sum; `w` is the register that is left to round. */
  method SignedNormBits(sim: SerialSimulator, inter: IntermediateAllocator, ze: seq<nat>, zm: seq<nat>, guard: nat,
                        round: nat, sticky: nat, carry: nat)
    returns (ghost t: nat, ghost w: nat)
    requires Ready(sim, inter) && |inter.free| >= |ze| + 6 && |ze| >= 1 && |zm| >= 1 && |ze| >= CeilLog2(|zm| + 2)
    requires LiveReg(sim, inter, ze) && LiveReg(sim, inter, zm) && Distinct(ze) && Distinct(zm) && Apart(ze, zm)
    requires Live(sim, inter, guard) && Live(sim, inter, round) && Live(sim, inter, sticky) && Live(sim, inter, carry)
    requires guard !in zm && round !in zm && sticky !in zm && carry !in zm && guard !in ze && round !in ze
    requires sticky !in ze && carry !in ze
    requires guard != round && guard != sticky && round != sticky && guard != carry && round != carry
    modifies sim, inter
    ensures Ready(sim, inter) && inter.free == old(inter.free)
    ensures Kept(old(sim.memory), sim.memory, inter.free, ze + ([round, guard] + zm))
    ensures |sim.memory| == |old(sim.memory)| && Bit(sim.memory, carry) == old(Bit(sim.memory, carry))
    ensures t < |zm| + 2 && w < Pow2(|zm| + 2)
    ensures LeftNormal(old(Val(sim.memory, [round, guard] + zm)), t, w, Pow2(|zm| + 1))
    ensures RoundsFrom(sim.memory, zm, guard, round, sticky,
                       RoundUp(w / 4, w / 2 % 2 == 1, old(Bit(sim.memory, sticky) == 1) || w % 2 == 1))
    ensures Val(sim.memory, ze) ==
            old(Val(sim.memory, ze)) - t + if old(Val(sim.memory, ze)) >= t then 0 else Pow2(|ze|)
    ensures sim.latency == old(sim.latency) + NormCost(|zm| + 2) + 21 * |ze| + 1
  {
    hide Val, Pow2, RoundUp, LeftNormal, NormCost, CeilLog2, Tracks;
    ghost var m := sim.memory;
    var reg := [round, guard] + zm;
    assert forall i {:trigger reg[i]} | 0 <= i < |reg| ::
             reg[i] == if i == 0 then round else if i == 1 then guard else zm[i - 2];
    RegisterWidth(|reg|, |zm|);
    t := SignedNormalize(sim, inter, ze, reg);
    w := Val(sim.memory, reg);
    RegisterBits(sim.memory, round, guard, zm);
    assert sticky !in ze + reg && carry !in ze + reg;
  }

  /** Left-shift normalisation and rounding. */
  method SignedNormRound(sim: SerialSimulator, inter: IntermediateAllocator, ze: seq<nat>, zm: seq<nat>, guard: nat,
                         round: nat, sticky: nat, carry: nat)
    returns (ghost t: nat, ghost w: nat)
    requires Ready(sim, inter) && |inter.free| >= |ze| + 6 && |ze| >= 2 && |zm| >= 1 && |ze| >= CeilLog2(|zm| + 2)
    requires LiveReg(sim, inter, ze) && LiveReg(sim, inter, zm) && Distinct(ze) && Distinct(zm) && Apart(ze, zm)
    requires Live(sim, inter, guard) && Live(sim, inter, round) && Live(sim, inter, sticky) && Live(sim, inter, carry)
    requires Pooled(inter.cells, guard) && Pooled(inter.cells, round) && Pooled(inter.cells, sticky)
    requires guard !in zm && round !in zm && sticky !in zm && carry !in zm && guard !in ze && round !in ze
    requires sticky !in ze && carry !in ze
    requires guard != round && guard != sticky && round != sticky && guard != carry && round != carry && sticky != carry
    modifies sim, inter
    ensures Ready(sim, inter) && inter.free == old(inter.free) + {guard, round, sticky}
    ensures Kept(old(sim.memory), sim.memory, inter.free, zm + ze)
    ensures t < |zm| + 2 && w < Pow2(|zm| + 2)
    ensures LeftNormal(old(Val(sim.memory, [round, guard] + zm)), t, w, Pow2(|zm| + 1))
    ensures var s := RoundUp(w / 4, w / 2 % 2 == 1, old(Bit(sim.memory, sticky) == 1) || w % 2 == 1);
            var e := old(Val(sim.memory, ze)) - t + (if old(Val(sim.memory, ze)) >= t then 0 else Pow2(|ze|));
            && Val(sim.memory, zm) == (if s == Pow2(|zm|) then Pow2(|zm| - 1) else s)
            && Val(sim.memory, ze) == (e + old(Bit(sim.memory, carry)) + Carried(|zm| - 1, s)) % Pow2(|ze|)
    ensures sim.latency == old(sim.latency) + NormCost(|zm| + 2) + 10 * |zm| + 23 + 31 * |ze|
  {
    hide Val, Pow2, RoundUp, LeftNormal, NormCost, CeilLog2, Tracks, RoundsFrom, Carried;
    ghost var m := sim.memory;
    t, w := SignedNormBits(sim, inter, ze, zm, guard, round, sticky, carry);
    SignedRound(sim, inter, ze, zm, guard, round, sticky, carry,
                RoundUp(w / 4, w / 2 % 2 == 1, Bit(m, sticky) == 1 || w % 2 == 1));
  }

  /** The mantissa field of a significand. */
  function Fraction(nm: nat, s: nat): nat {
    if s < Pow2(nm) || s == Pow2(nm + 1) then 0 else s - Pow2(nm)
  }

  lemma ExponentWrapped(ne: nat, nm: nat, he: nat, t: nat, c: nat, ov: nat, z1: int, z2: int)
    requires ne >= CeilLog2(nm + 3) && he < Pow2(ne) && t < nm + 3 && c <= 1 && ov <= 1
    requires z1 == he - t + (if he >= t then 0 else Pow2(ne + 1)) && z2 == (z1 + c + ov) % Pow2(ne + 1)
    ensures var e := he + c - t + ov; if e < 0 then z2 >= Pow2(ne) else z2 == e
  {
    Pow2Next(ne);
    Pow2Mono(CeilLog2(nm + 3), ne);
    hide Pow2, CeilLog2;
    var p, e := Pow2(ne + 1), he + c - t + ov;
    if he >= t {
      DivModUnique(z1 + c + ov, p, 0, e);
    } else if e < 0 {
      DivModUnique(z1 + c + ov, p, 0, e + p);
    } else {
      DivModUnique(z1 + c + ov, p, 1, e);
    }
  }

  /** The values that the steps leave in the cells. */
  ghost predicate SignedSteps(ne: nat, nm: nat, he: nat, r: nat, t: nat, w: nat, z: nat, e: nat) {
    var s := RoundUp(w / 4, w / 2 % 2 == 1, CarrySticky(nm, r) || w % 2 == 1);
    var e1 := he - t + (if he >= t then 0 else Pow2(ne + 1));
    && t < nm + 3 && w < Pow2(nm + 3) && LeftNormal(CarryShifted(nm, r), t, w, Pow2(nm + 2))
    && z == (if s == Pow2(nm + 1) then Pow2(nm) else s)
    && e == (e1 + (if r / 2 >= Pow2(nm + 3) then 1 else 0) + Carried(nm, s)) % Pow2(ne + 1)
  }

  /** `z` and `e` are significand and wrapped exponent of the exact sum. */
  ghost predicate Sums(ne: nat, nm: nat, he: nat, a: nat, b: nat, gap: nat, sub: bool, z: nat, e: nat) {
    var d := Units(a, b, gap, sub);
    if d == 0 then z == 0
    else z == Pow2(nm) + Fraction(nm, AddSig(nm, gap, d)) &&
         var x := AddExp(nm, gap, d, he); if x < 0 then e >= Pow2(ne) else e == x
  }

  lemma NearSums(ne: nat, nm: nat, he: nat, a: nat, b: nat, gap: nat, sub: bool, r: nat, t: nat, w: nat, z: nat, e: nat)
    requires nm >= 1 && ne >= CeilLog2(nm + 3) && he < Pow2(ne)
    requires a < Pow2(nm + 1) && b < Pow2(nm + 1) && (gap >= 1 ==> a >= Pow2(nm))
    requires r == Combined(a, Aligned(false, 4 * b, gap), Lost(false, 4 * b, gap), sub)
    requires SignedSteps(ne, nm, he, r, t, w, z, e)
    ensures Sums(ne, nm, he, a, b, gap, sub, z, e)
  {
    hide Pow2, RoundUp, Units, AddSig, Lead, CarryShifted, CarrySticky, Combined, Aligned, Lost, CeilLog2;
    var d, s := Units(a, b, gap, sub), AddSig(nm, gap, Units(a, b, gap, sub));
    SignedRefines(nm, a, b, gap, sub, r, t, w);
    if d == 0 {
      ZeroSteps(nm, gap, 0, false);
      Pow2Mono(0, nm + 1);
    } else {
      SigRange(nm, a, b, gap, sub);
      ExponentWrapped(ne, nm, he, t, Carry(nm, gap, d), Carried(nm, s),
                      he - t + (if he >= t then 0 else Pow2(ne + 1)), e);
    }
  }

  lemma SigRange(nm: nat, a: nat, b: nat, gap: nat, sub: bool)
    requires nm >= 1 && a < Pow2(nm + 1) && b < Pow2(nm + 1) && Units(a, b, gap, sub) > 0
    ensures Pow2(nm) <= AddSig(nm, gap, Units(a, b, gap, sub)) <= Pow2(nm + 1) == 2 * Pow2(nm)
  {
    Pow2Next(nm);
    hide Pow2, AddSig, Half, Lead, Carry;
    var d := Units(a, b, gap, sub);
    UnitsBound(nm, a, b, gap, sub);
    SumNormalized(nm, gap, d);
    HalfRange(Pow2(Lead(nm, gap, d)) * d, Pow2(gap + Carry(nm, gap, d)), Pow2(nm), AddSig(nm, gap, d));
  }

  lemma FarSums(ne: nat, nm: nat, he: nat, a: nat, b: nat, gap: nat, sub: bool, r: nat, t: nat, w: nat, z: nat, e: nat)
    requires nm >= 1 && ne >= CeilLog2(nm + 3) && he < Pow2(ne) && gap >= nm + 3
    requires Pow2(nm) <= a < Pow2(nm + 1) && b < Pow2(nm + 1)
    requires r == Combined(a, 0, false, sub) && SignedSteps(ne, nm, he, r, t, w, z, e)
    ensures Sums(ne, nm, he, a, b, gap, sub, z, e)
  {
    FarSteps(ne, nm, he, a, sub, r, t, w, z, e);
    Pow2Next(nm);
    hide Pow2, Units, AddSig, Lead, Carry, CeilLog2, SignedSteps, Combined;
    DroppedSum(ne, nm, a, b, gap, sub, he);
  }

  /** Without a smaller operand the steps change nothing. */
  lemma FarSteps(ne: nat, nm: nat, he: nat, a: nat, sub: bool, r: nat, t: nat, w: nat, z: nat, e: nat)
    requires nm >= 1 && ne >= CeilLog2(nm + 3) && he < Pow2(ne) && Pow2(nm) <= a < Pow2(nm + 1)
    requires r == Combined(a, 0, false, sub) && SignedSteps(ne, nm, he, r, t, w, z, e)
    ensures z == a && e == he
  {
    Pow2Next(nm);
    Pow2Next(nm + 1);
    Pow2Next(nm + 2);
    hide Pow2, CeilLog2, RoundUp, LeftNormal;
    assert CarryShifted(nm, r) == 4 * a;
    FarShift(Pow2(nm), a, t, w, CarrySticky(nm, r));
    ExponentWrapped(ne, nm, he, 0, 0, 0, he, e);
  }

  lemma FarShift(k: nat, a: nat, t: nat, w: nat, st: bool)
    requires k >= 1 && k <= a < 2 * k && w < 8 * k && LeftNormal(4 * a, t, w, 4 * k)
    ensures t == 0 && w == 4 * a && RoundUp(w / 4, w / 2 % 2 == 1, st || w % 2 == 1) == a
  {
    ShiftLimit(k, 4 * a, t, w);
    assert Pow2(0) == 1;
  }

  lemma AllSums(ne: nat, nm: nat, he: nat, a: nat, b: nat, gap: nat, sub: bool, r: nat, t: nat, w: nat, z: nat, e: nat)
    requires nm >= 1 && ne >= CeilLog2(nm + 3) && he < Pow2(ne)
    requires a < Pow2(nm + 1) && b < Pow2(nm + 1) && (gap >= 1 ==> a >= Pow2(nm))
    requires var far := Far(ne, CeilLog2(nm + 3), gap);
             r == Combined(a, Aligned(far, 4 * b, gap), Lost(far, 4 * b, gap), sub)
    requires SignedSteps(ne, nm, he, r, t, w, z, e)
    ensures Sums(ne, nm, he, a, b, gap, sub, z, e)
  {
    hide Pow2, Combined, SignedSteps, Sums, CeilLog2, Far;
    if Far(ne, CeilLog2(nm + 3), gap) {
      FarGap(ne, nm + 3, gap);
      FarSums(ne, nm, he, a, b, gap, sub, r, t, w, z, e);
    } else {
      NearSums(ne, nm, he, a, b, gap, sub, r, t, w, z, e);
    }
  }

  /** Swap, absolute exponent difference, and the smaller significand cleared if it is too far down. */
  method SignedNear(sim: SerialSimulator, inter: IntermediateAllocator, xe: seq<nat>, x: seq<nat>, ye: seq<nat>,
                    y: seq<nat>, ze: seq<nat>, zm: seq<nat>, delta: seq<nat>, ymt: seq<nat>, swap: nat, notswap: nat,
                    w: nat)
    requires SwapPre(sim, inter, xe, x, ye, y, ze, zm, delta, ymt) && |inter.free| >= 6
    requires Live(sim, inter, swap) && Live(sim, inter, notswap) && swap != notswap
    requires Outside(swap, xe, x, ye, y, ze, zm, delta, ymt) && Outside(notswap, xe, x, ye, y, ze, zm, delta, ymt)
    modifies sim, inter
    ensures Ready(sim, inter) && inter.free == old(inter.free)
    ensures Kept(old(sim.memory), sim.memory, inter.free, ze + zm + ymt + delta + [swap, notswap])
    ensures sim.memory[swap] == !sim.memory[notswap]
    ensures sim.memory[notswap] <==> old(Val(sim.memory, xe)) >= old(Val(sim.memory, ye))
    ensures var ex, ey, a := old(Val(sim.memory, xe)), old(Val(sim.memory, ye)), old(Val(sim.memory, x));
            var b := old(Val(sim.memory, y));
            && Val(sim.memory, ze) == Pick(ex, ey, ex, ey) && Val(sim.memory, zm) == Pick(ex, ey, a, b)
            && Val(sim.memory, delta) == Difference(ex, ey)
            && Val(sim.memory, ymt) == if Far(|ze|, w, Difference(ex, ey)) then 0 else Pick(ex, ey, b, a)
    ensures sim.latency == old(sim.latency) + 44 * |ze| + 12 * |zm| + 8 + if |ze| > w then 4 + |ze| - w + |zm| else 0
  {
    hide Val, Pow2, Magnitude, Far, Difference, Pick;
    SwapOperands(sim, inter, xe, x, ye, y, ze, zm, delta, ymt, swap, notswap);
    ghost var m1, o := sim.memory, delta + ymt;
    AbsDrop(sim, inter, delta, w, ymt);
    assert forall i {:trigger o[i]} | 0 <= i < |o| :: o[i] == if i < |delta| then delta[i] else ymt[i - |delta|];
    ValKept(m1, sim.memory, inter.free, o, ze);
    ValKept(m1, sim.memory, inter.free, o, zm);
  }

  /** Guard, round and sticky cells, all zero. */
  method ClearedBits(sim: SerialSimulator, inter: IntermediateAllocator) returns (guard: nat, round: nat, sticky: nat)
    requires Ready(sim, inter) && |inter.free| >= 3
    modifies sim, inter
    ensures Ready(sim, inter) && Pooled(inter.cells, sticky) && Pooled(inter.cells, guard) && Pooled(inter.cells, round)
    ensures sticky in old(inter.free) && guard in old(inter.free) && round in old(inter.free)
    ensures sticky != guard && round != guard && sticky != round
    ensures inter.free == old(inter.free) - {guard, round, sticky} && |inter.free| == |old(inter.free)| - 3
    ensures Kept(old(sim.memory), sim.memory, old(inter.free), [])
    ensures !sim.memory[guard] && !sim.memory[round] && !sim.memory[sticky]
    ensures sim.latency == old(sim.latency) + 3
  {
    guard, round, sticky := inter.Malloc3();
    sim.Init0(sticky);
    sim.Init0(guard);
    sim.Init0(round);
  }

  /** The alignment shift with new guard, round and sticky bits. */
  method SignedShift(sim: SerialSimulator, inter: IntermediateAllocator, delta: seq<nat>, ymt: seq<nat>, ghost b: nat)
    returns (guard: nat, round: nat, sticky: nat)
    requires Ready(sim, inter) && |inter.free| >= 6 && |delta| >= 1 && |ymt| >= 1
    requires LiveReg(sim, inter, delta) && LiveReg(sim, inter, ymt) && Distinct(ymt) && Apart(delta, ymt)
    requires Val(sim.memory, delta) < Pow2(|delta| - 1)
    requires Val(sim.memory, ymt) == if Far(|delta| - 1, CeilLog2(|ymt| + 2), Val(sim.memory, delta)) then 0 else b
    modifies sim, inter
    ensures Ready(sim, inter) && Pooled(inter.cells, sticky) && Pooled(inter.cells, guard) && Pooled(inter.cells, round)
    ensures sticky in old(inter.free) && guard in old(inter.free) && round in old(inter.free)
    ensures sticky != guard && round != guard && sticky != round
    ensures inter.free == old(inter.free) - {guard, round, sticky} && |inter.free| == |old(inter.free)| - 3
    ensures Kept(old(sim.memory), sim.memory, old(inter.free), ymt)
    ensures var gap := old(Val(sim.memory, delta));
            var far := Far(|delta| - 1, CeilLog2(|ymt| + 2), gap);
            && Val(sim.memory, [round, guard] + ymt) == Aligned(far, 4 * b, gap)
            && (Bit(sim.memory, sticky) == 1 <==> Lost(far, 4 * b, gap))
    ensures sim.latency == old(sim.latency) + 3 + ShiftCost(|ymt| + 2, |delta|)
  {
    hide Val, Far, Aligned, Lost, ShiftCost;
    ghost var m := sim.memory;
    guard, round, sticky := ClearedBits(sim, inter);
    ghost var m1 := sim.memory;
    ValKept(m, m1, old(inter.free), [], delta);
    ValKept(m, m1, old(inter.free), [], ymt);
    ExtensionZero(m1, round, guard);
    var x := [round, guard] + ymt;
    assert forall i {:trigger x[i]} | 0 <= i < |x| ::
             x[i] == if i == 0 then round else if i == 1 then guard else ymt[i - 2];
    assert Pow2(2) == 4;
    ShiftAligned(sim, inter, delta, [round, guard], ymt, sticky, b);
  }

  lemma ExtensionZero(m: seq<bool>, round: nat, guard: nat)
    requires Bit(m, round) == 0 && Bit(m, guard) == 0
    ensures Val(m, [round, guard]) == 0
  {
    ValZero(m, [round, guard], 2);
  }

  /** The larger operand in the result cells, the smaller one aligned below it with guard, round and sticky bit. */
  ghost predicate SignedPlaced(m: seq<bool>, xe: nat, x: nat, ye: nat, y: nat, ze: seq<nat>, zm: seq<nat>,
                               ymt: seq<nat>, guard: nat, round: nat, sticky: nat) {
    var gap, b := Difference(xe, ye), Pick(xe, ye, y, x);
    var far := Far(|ze|, CeilLog2(|ymt| + 2), gap);
    && Val(m, ze) == Pick(xe, ye, xe, ye) && Val(m, zm) == Pick(xe, ye, x, y)
    && Val(m, [round, guard] + ymt) == Aligned(far, 4 * b, gap) && (Bit(m, sticky) == 1 <==> Lost(far, 4 * b, gap))
  }

  /** Swap and alignment. */
  method SignedAlign(sim: SerialSimulator, inter: IntermediateAllocator, xe: seq<nat>, x: seq<nat>, ye: seq<nat>,
                     y: seq<nat>, ze: seq<nat>, zm: seq<nat>, delta: seq<nat>, ymt: seq<nat>, swap: nat, notswap: nat)
    returns (guard: nat, round: nat, sticky: nat)
    requires SwapPre(sim, inter, xe, x, ye, y, ze, zm, delta, ymt) && |inter.free| >= 6 && |zm| >= 1
    requires Live(sim, inter, swap) && Live(sim, inter, notswap) && swap != notswap
    requires Outside(swap, xe, x, ye, y, ze, zm, delta, ymt) && Outside(notswap, xe, x, ye, y, ze, zm, delta, ymt)
    modifies sim, inter
    ensures Ready(sim, inter) && Pooled(inter.cells, sticky) && Pooled(inter.cells, guard) && Pooled(inter.cells, round)
    ensures sticky in old(inter.free) && guard in old(inter.free) && round in old(inter.free)
    ensures sticky != guard && round != guard && sticky != round
    ensures inter.free == old(inter.free) - {guard, round, sticky} && |inter.free| == |old(inter.free)| - 3
    ensures Kept(old(sim.memory), sim.memory, old(inter.free), ze + zm + ymt + delta + [swap, notswap])
    ensures sim.memory[swap] == !sim.memory[notswap]
    ensures sim.memory[notswap] <==> old(Val(sim.memory, xe)) >= old(Val(sim.memory, ye))
    ensures SignedPlaced(sim.memory, old(Val(sim.memory, xe)), old(Val(sim.memory, x)), old(Val(sim.memory, ye)),
                         old(Val(sim.memory, y)),
                         ze, zm, ymt, guard, round, sticky)
    ensures sim.latency == old(sim.latency) + AlignCycles(|ze|, |zm|)
  {
    hide Val, Pow2, CeilLog2, Far, Aligned, Lost, ShiftCost, Difference, Pick, Distinct;
    ghost var m := sim.memory;
    GapBound(m, xe, ye);
    SignedNear(sim, inter, xe, x, ye, y, ze, zm, delta, ymt, swap, notswap, CeilLog2(|zm| + 2));
    ghost var m1 := sim.memory;
    guard, round, sticky := SignedShift(sim, inter, delta, ymt, Pick(Val(m, xe), Val(m, ye), Val(m, y), Val(m, x)));
    ValKept(m1, sim.memory, old(inter.free), ymt, ze);
    ValKept(m1, sim.memory, old(inter.free), ymt, zm);
  }

  /** Cycles of the swap and the alignment, with `n` significand bits. */
  function AlignCycles(ne: nat, n: nat): int {
    44 * ne + 12 * n + 11 + ShiftCost(n + 2, ne + 1) + if ne > CeilLog2(n + 2) then 4 + ne - CeilLog2(n + 2) + n else 0
  }

  /** The truncated comparison that decides the sign agrees with the exact one. */
  lemma LargerIsExact(ne: nat, nm: nat, a: nat, b: nat, gap: nat)
    requires b < Pow2(nm + 1) && (gap >= 1 ==> a >= Pow2(nm))
    ensures var far := Far(ne, CeilLog2(nm + 3), gap);
            8 * a > 2 * Aligned(far, 4 * b, gap) + (if Lost(far, 4 * b, gap) then 1 else 0) <==> Pow2(gap) * a > b
  {
    hide CeilLog2, Pow2;
    if Far(ne, CeilLog2(nm + 3), gap) {
      FarGap(ne, nm + 3, gap);
      FarLarger(nm, a, b, gap);
    } else {
      NearLarger(a, b, gap);
    }
  }

  lemma FarLarger(nm: nat, a: nat, b: nat, gap: nat)
    requires b < Pow2(nm + 1) && a >= Pow2(nm) && gap >= nm + 3
    ensures Pow2(gap) * a > b && a >= 1
  {
    Pow2Mono(nm + 1, gap);
    hide Pow2;
    MulMono(Pow2(gap), 1, a);
  }

  lemma NearLarger(a: nat, b: nat, gap: nat)
    ensures 8 * a > 2 * Aligned(false, 4 * b, gap) + (if Lost(false, 4 * b, gap) then 1 else 0) <==> Pow2(gap) * a > b
  {
    hide Pow2;
    var q := Pow2(gap);
    var p, l := Aligned(false, 4 * b, gap), 4 * b % q;
    assert 4 * b == p * q + l;
    TruncatedLess(4 * a, p, q, l);
    assert 4 * a * q == 4 * (q * a);
  }

  lemma TruncatedLess(a: int, p: int, q: int, l: int)
    requires 0 <= l < q
    ensures 2 * a > 2 * p + (if l != 0 then 1 else 0) <==> a * q > p * q + l
  {
    if a > p {
      MulMono(q, p + 1, a);
      MulAdd(q, p, 1);
    } else {
      MulMono(q, a, p);
    }
  }

  /** `AllSums` in the widths of the registers: `k` exponent cells and `n` significand cells. */
  lemma StepsSum(k: nat, n: nat, he: nat, a: nat, b: nat, gap: nat, sub: bool, r: nat, t: nat, w: nat, st: bool,
                 c: nat, z: nat, e: nat)
    requires n >= 2 && k > CeilLog2(n + 2) && he < Pow2(k - 1)
    requires a < Pow2(n) && b < Pow2(n) && (gap >= 1 ==> a >= Pow2(n - 1))
    requires var far := Far(k - 1, CeilLog2(n + 2), gap);
             r == Combined(a, Aligned(far, 4 * b, gap), Lost(far, 4 * b, gap), sub)
    requires (st <==> CarrySticky(n - 1, r)) && (c == 1 <==> r / 2 >= Pow2(n + 2)) && c <= 1
    requires t < n + 2 && w < Pow2(n + 2) && LeftNormal(CarryShifted(n - 1, r), t, w, Pow2(n + 1))
    requires var s := RoundUp(w / 4, w / 2 % 2 == 1, st || w % 2 == 1);
             && z == (if s == Pow2(n) then Pow2(n - 1) else s)
             && e == (he - t + (if he >= t then 0 else Pow2(k)) + c + Carried(n - 1, s)) % Pow2(k)
    ensures Sums(k - 1, n - 1, he, a, b, gap, sub, z, e)
  {
    hide Pow2, Far, Aligned, Lost, Sums, CeilLog2, CarryShifted, CarrySticky, Combined, LeftNormal, RoundUp;
    assert n - 1 + 3 == n + 2 && n - 1 + 2 == n + 1 && k - 1 + 1 == k;
    AllSums(k - 1, n - 1, he, a, b, gap, sub, r, t, w, z, e);
  }

  /** `SignedCore` with what it leaves alone. */
  method SignedJoin(sim: SerialSimulator, inter: IntermediateAllocator, ze: seq<nat>, zm: seq<nat>, ymt: seq<nat>,
                    sticky: nat, round: nat, guard: nat, sdiff: nat, notsdiff: nat, carry: nat, neg: nat, notneg: nat,
                    ghost r: nat)
    requires Ready(sim, inter) && |inter.free| >= 7 && |zm| == |ymt| >= 1
    requires LiveReg(sim, inter, ze) && LiveReg(sim, inter, zm) && LiveReg(sim, inter, ymt)
    requires LiveReg(sim, inter, Register(sticky, round, guard, zm)) && Distinct(Register(sticky, round, guard, zm))
    requires Apart(zm, ymt) && Apart(ze, zm)
    requires guard !in ze && round !in ze && sticky !in ze && carry !in ze && neg !in ze && notneg !in ze
    requires DiffCells(sim, inter, zm, ymt, sdiff, notsdiff, carry, neg, notneg)
    requires Aside(sticky, sdiff, notsdiff, carry, neg, notneg) && Aside(round, sdiff, notsdiff, carry, neg, notneg)
    requires Aside(guard, sdiff, notsdiff, carry, neg, notneg)
    requires sim.memory[notsdiff] == !sim.memory[sdiff]
    requires r == Combined(Val(sim.memory, zm), Val(sim.memory, [round, guard] + ymt), Bit(sim.memory, sticky) == 1,
                           Bit(sim.memory, sdiff) == 1)
    modifies sim, inter
    ensures Ready(sim, inter) && inter.free == old(inter.free)
    ensures Kept(old(sim.memory), sim.memory, inter.free, zm + [sticky, round, guard, carry, neg, notneg])
    ensures Val(sim.memory, ze) == old(Val(sim.memory, ze))
    ensures Val(sim.memory, [round, guard] + zm) == CarryShifted(|zm| - 1, r)
    ensures Bit(sim.memory, sticky) == 1 <==> CarrySticky(|zm| - 1, r)
    ensures Bit(sim.memory, carry) == 1 <==> r / 2 >= Pow2(|zm| + 2)
    ensures sim.memory[neg] == !sim.memory[notneg]
    ensures old(sim.memory[sdiff]) ==>
              (sim.memory[neg] <==> old(8 * Val(sim.memory, zm) > 2 * Val(sim.memory, [round, guard] + ymt) +
                                        Bit(sim.memory, sticky)))
    ensures sim.latency == old(sim.latency) + 50 * |zm| + 92
  {
    hide Val, Pow2, CarryShifted, CarrySticky, Combined;
    ghost var m := sim.memory;
    ghost var r' := SignedCore(sim, inter, zm, ymt, sticky, round, guard, sdiff, notsdiff, carry, neg, notneg);
    assert Kept(m, sim.memory, inter.free, zm + [sticky, round, guard, carry, neg, notneg]);
    ghost var o := zm + [sticky, round, guard, carry, neg, notneg];
    assert Apart(ze, o);
    ValKept(m, sim.memory, inter.free, o, ze);
  }

  /** Normalisation and rounding settle significand and exponent. */
  method SignedSettle(sim: SerialSimulator, inter: IntermediateAllocator, ze: seq<nat>, zm: seq<nat>, guard: nat,
                      round: nat, sticky: nat, carry: nat, ghost he: nat, ghost a: nat, ghost b: nat, ghost gap: nat,
                      ghost sub: bool, ghost r: nat)
    requires Ready(sim, inter) && |inter.free| >= |ze| + 6 && |ze| >= 2 && |zm| >= 2 && |ze| > CeilLog2(|zm| + 2)
    requires LiveReg(sim, inter, ze) && LiveReg(sim, inter, zm) && Distinct(ze) && Distinct(zm) && Apart(ze, zm)
    requires Live(sim, inter, guard) && Live(sim, inter, round) && Live(sim, inter, sticky) && Live(sim, inter, carry)
    requires Pooled(inter.cells, guard) && Pooled(inter.cells, round) && Pooled(inter.cells, sticky)
    requires guard !in zm && round !in zm && sticky !in zm && carry !in zm && guard !in ze && round !in ze
    requires sticky !in ze && carry !in ze
    requires guard != round && guard != sticky && round != sticky && guard != carry && round != carry && sticky != carry
    requires Val(sim.memory, ze) == he < Pow2(|ze| - 1) && a < Pow2(|zm|) && b < Pow2(|zm|)
    requires gap >= 1 ==> a >= Pow2(|zm| - 1)
    requires var far := Far(|ze| - 1, CeilLog2(|zm| + 2), gap);
             r == Combined(a, Aligned(far, 4 * b, gap), Lost(far, 4 * b, gap), sub)
    requires Val(sim.memory, [round, guard] + zm) == CarryShifted(|zm| - 1, r)
    requires Bit(sim.memory, sticky) == 1 <==> CarrySticky(|zm| - 1, r)
    requires Bit(sim.memory, carry) == 1 <==> r / 2 >= Pow2(|zm| + 2)
    modifies sim, inter
    ensures Ready(sim, inter) && inter.free == old(inter.free) + {guard, round, sticky}
    ensures Kept(old(sim.memory), sim.memory, inter.free, zm + ze)
    ensures Sums(|ze| - 1, |zm| - 1, he, a, b, gap, sub, Val(sim.memory, zm), Val(sim.memory, ze))
    ensures sim.latency == old(sim.latency) + NormCost(|zm| + 2) + 10 * |zm| + 23 + 31 * |ze|
  {
    hide Val, Pow2, Far, Aligned, Lost, Sums, NormCost, CeilLog2, CarryShifted, CarrySticky, Combined, LeftNormal,
         RoundUp;
    ghost var st, c := Bit(sim.memory, sticky) == 1, Bit(sim.memory, carry);
    ghost var t, w := SignedNormRound(sim, inter, ze, zm, guard, round, sticky, carry);
    StepsSum(|ze|, |zm|, he, a, b, gap, sub, r, t, w, st, c, Val(sim.memory, zm), Val(sim.memory, ze));
  }

  /** Sum or difference, normalisation, rounding and exponent; `neg` tells whether the larger operand was subtracted
      from. */
  method SignedFinish(sim: SerialSimulator, inter: IntermediateAllocator, ze: seq<nat>, zm: seq<nat>, ymt: seq<nat>,
                      guard: nat, round: nat, sticky: nat, sdiff: nat, notsdiff: nat, carry: nat, neg: nat,
                      notneg: nat, ghost a: nat, ghost b: nat, ghost gap: nat)
    requires Ready(sim, inter) && |inter.free| >= |ze| + 6 && |ze| >= 2 && |zm| == |ymt| >= 2
    requires |ze| > CeilLog2(|zm| + 2)
    requires LiveReg(sim, inter, ze) && LiveReg(sim, inter, zm) && LiveReg(sim, inter, ymt) && Distinct(ze)
    requires Distinct(zm)
    requires LiveReg(sim, inter, Register(sticky, round, guard, zm)) && Distinct(Register(sticky, round, guard, zm))
    requires Apart(zm, ymt) && Apart(ze, zm)
    requires Pooled(inter.cells, guard) && Pooled(inter.cells, round) && Pooled(inter.cells, sticky)
    requires guard !in ze && round !in ze && sticky !in ze && carry !in ze && neg !in ze && notneg !in ze
    requires DiffCells(sim, inter, zm, ymt, sdiff, notsdiff, carry, neg, notneg)
    requires Aside(sticky, sdiff, notsdiff, carry, neg, notneg) && Aside(round, sdiff, notsdiff, carry, neg, notneg)
    requires Aside(guard, sdiff, notsdiff, carry, neg, notneg)
    requires sim.memory[notsdiff] == !sim.memory[sdiff]
    requires Val(sim.memory, ze) < Pow2(|ze| - 1) && Val(sim.memory, zm) == a && b < Pow2(|zm|)
    requires gap >= 1 ==> a >= Pow2(|zm| - 1)
    requires var far := Far(|ze| - 1, CeilLog2(|zm| + 2), gap);
             Val(sim.memory, [round, guard] + ymt) == Aligned(far, 4 * b, gap) &&
             (Bit(sim.memory, sticky) == 1 <==> Lost(far, 4 * b, gap))
    modifies sim, inter
    ensures Ready(sim, inter) && inter.free == old(inter.free) + {guard, round, sticky}
    ensures Kept(old(sim.memory), sim.memory, inter.free, zm + ze + [carry, neg, notneg])
    ensures Sums(|ze| - 1, |zm| - 1, old(Val(sim.memory, ze)), a, b, gap, old(Bit(sim.memory, sdiff) == 1),
                 Val(sim.memory, zm), Val(sim.memory, ze))
    ensures sim.memory[neg] == !sim.memory[notneg]
    ensures old(sim.memory[sdiff]) ==> (sim.memory[neg] <==> Pow2(gap) * a > b)
    ensures sim.latency == old(sim.latency) + NormCost(|zm| + 2) + 60 * |zm| + 115 + 31 * |ze|
  {
    hide Val, Pow2, Far, Aligned, Lost, Sums, NormCost, CeilLog2, CarryShifted, CarrySticky, Combined, LeftNormal,
         Register, Tracks, Kept;
    ghost var m, far := sim.memory, Far(|ze| - 1, CeilLog2(|zm| + 2), gap);
    ghost var he, sub, r := Val(sim.memory, ze), Bit(sim.memory, sdiff) == 1,
                            Combined(a, Aligned(far, 4 * b, gap), Lost(far, 4 * b, gap), Bit(sim.memory, sdiff) == 1);
    RegisterParts(sim, inter, sticky, round, guard, zm);
    SignedJoin(sim, inter, ze, zm, ymt, sticky, round, guard, sdiff, notsdiff, carry, neg, notneg, r);
    LargerIsExact(|ze| - 1, |zm| - 1, a, b, gap);
    ghost var m1 := sim.memory;
    KeptSize(m, m1, inter.free, zm + [sticky, round, guard, carry, neg, notneg]);
    SignedSettle(sim, inter, ze, zm, guard, round, sticky, carry, he, a, b, gap, sub, r);
    FinishKeeps(m, m1, sim.memory, old(inter.free), inter.free, zm, ze, sticky, round, guard, carry, neg, notneg);
  }

  lemma FinishKeeps(m: seq<bool>, m1: seq<bool>, m2: seq<bool>, f: set<nat>, f': set<nat>, zm: seq<nat>, ze: seq<nat>,
                    sticky: nat, round: nat, guard: nat, carry: nat, neg: nat, notneg: nat)
    requires Kept(m, m1, f, zm + [sticky, round, guard, carry, neg, notneg]) && Kept(m1, m2, f', zm + ze)
    requires f' == f + {guard, round, sticky} && neg < |m| && notneg < |m| && neg !in f' && notneg !in f'
    requires neg !in zm && notneg !in zm && neg !in ze && notneg !in ze
    ensures Kept(m, m2, f', zm + ze + [carry, neg, notneg]) && m2[neg] == m1[neg] && m2[notneg] == m1[notneg]
  {
  }

  /** The sign that a difference has if the larger operand is the one with the larger exponent. */
  function SwapSign(m: seq<bool>, xs: nat, ys: nat, swap: nat): bool
    requires xs < |m| && ys < |m| && swap < |m|
  {
    (m[xs] && !m[ys]) != m[swap]
  }

  /** t = NOR(NOT xs, ys) XOR swap. */
  method XorSwap(sim: SerialSimulator, inter: IntermediateAllocator, xs: nat, ys: nat, swap: nat, notswap: nat, t: nat)
    requires Ready(sim, inter) && |inter.free| >= 3
    requires Live(sim, inter, xs) && Live(sim, inter, ys) && Live(sim, inter, t) && Live(sim, inter, swap)
    requires Live(sim, inter, notswap)
    requires t != xs && t != ys && t != swap && t != notswap && sim.memory[swap] == !sim.memory[notswap]
    modifies sim, inter
    ensures Ready(sim, inter) && inter.free == old(inter.free)
    ensures Kept1(old(sim.memory), sim.memory, inter.free, t)
    ensures sim.memory[t] == old((sim.memory[xs] && !sim.memory[ys]) != sim.memory[swap])
    ensures sim.latency == old(sim.latency) + 12
  {
    var notxs := inter.MallocCell();
    sim.Not(xs, notxs);
    sim.Nor(ys, notxs, t);
    inter.FreeCell(notxs);
    XorGiven(sim, inter, t, swap, t, notswap);
  }

  /** zs = xs if the signs agree, else NOR(NOT xs, ys) XOR swap XOR notnegativeM, through the cell `t`. */
  method SignGates(sim: SerialSimulator, inter: IntermediateAllocator, xs: nat, ys: nat, zs: nat, swap: nat,
                   notswap: nat, sdiff: nat, notsdiff: nat, neg: nat, notneg: nat, t: nat)
    requires Ready(sim, inter) && |inter.free| >= 3
    requires Live(sim, inter, xs) && Live(sim, inter, ys) && Live(sim, inter, zs) && Live(sim, inter, t)
    requires Live(sim, inter, swap) && Live(sim, inter, notswap) && Live(sim, inter, sdiff)
    requires Live(sim, inter, notsdiff)
    requires Live(sim, inter, neg) && Live(sim, inter, notneg)
    requires t != xs && t != ys && t != swap && t != notswap && t != sdiff && t != notsdiff && t != neg && t != notneg
    requires xs != sdiff
    requires sim.memory[swap] == !sim.memory[notswap] && sim.memory[sdiff] == !sim.memory[notsdiff]
    requires sim.memory[neg] == !sim.memory[notneg]
    modifies sim, inter
    ensures Ready(sim, inter) && inter.free == old(inter.free)
    ensures Kept2(old(sim.memory), sim.memory, inter.free, zs, t)
    ensures sim.memory[zs] == old(if !sim.memory[sdiff] then sim.memory[xs]
                                  else SwapSign(sim.memory, xs, ys, swap) != sim.memory[notneg])
    ensures sim.latency == old(sim.latency) + 26
  {
    XorSwap(sim, inter, xs, ys, swap, notswap, t);
    XorGiven(sim, inter, t, notneg, t, neg);
    MuxGiven(sim, inter, notsdiff, xs, t, zs, sdiff);
  }

  /** The cell for the sign around `SignGates`. */
  method SignedSign(sim: SerialSimulator, inter: IntermediateAllocator, xs: nat, ys: nat, zs: nat, swap: nat,
                    notswap: nat, sdiff: nat, notsdiff: nat, neg: nat, notneg: nat)
    requires Ready(sim, inter) && |inter.free| >= 4
    requires Live(sim, inter, xs) && Live(sim, inter, ys) && Live(sim, inter, zs) && xs != sdiff
    requires Live(sim, inter, swap) && Live(sim, inter, notswap) && Live(sim, inter, sdiff)
    requires Live(sim, inter, notsdiff)
    requires Live(sim, inter, neg) && Live(sim, inter, notneg)
    requires sim.memory[swap] == !sim.memory[notswap] && sim.memory[sdiff] == !sim.memory[notsdiff]
    requires sim.memory[neg] == !sim.memory[notneg]
    modifies sim, inter
    ensures Ready(sim, inter) && inter.free == old(inter.free)
    ensures Kept1(old(sim.memory), sim.memory, inter.free, zs)
    ensures sim.memory[zs] == old(if !sim.memory[sdiff] then sim.memory[xs]
                                  else SwapSign(sim.memory, xs, ys, swap) != sim.memory[notneg])
    ensures sim.latency == old(sim.latency) + 26
  {
    var t := inter.MallocCell();
    SignGates(sim, inter, xs, ys, zs, swap, notswap, sdiff, notsdiff, neg, notneg, t);
    inter.FreeCell(t);
  }

  /** The cell survives the sum. */
  ghost predicate Spared(c: nat, ze: seq<nat>, zm: seq<nat>, guard: nat, round: nat, sticky: nat) {
    c !in ze && c !in zm && c != guard && c != round && c != sticky
  }

  /** The sum keeps the cells it is not given, and the sign adds one more output. */
  lemma SumKeeps(m: seq<bool>, m': seq<bool>, f: set<nat>, zm: seq<nat>, ze: seq<nat>, carry: nat, neg: nat,
                 notneg: nat, c: nat)
    requires Kept(m, m', f, zm + ze + [carry, neg, notneg]) && c < |m| && c !in f
    requires c !in zm && c !in ze && c != carry && c != neg && c != notneg
    ensures |m'| == |m| && m'[c] == m[c]
  {
  }

  lemma SignKeeps(m: seq<bool>, m1: seq<bool>, m2: seq<bool>, f: set<nat>, zm: seq<nat>, ze: seq<nat>, carry: nat,
                  neg: nat, notneg: nat, zs: nat)
    requires Kept(m, m1, f, zm + ze + [carry, neg, notneg]) && Kept1(m1, m2, f, zs)
    ensures Kept(m, m2, f, zm + ze + [carry, neg, notneg, zs])
  {
  }

  /** The sign into `zs`, the sum's registers keeping their numbers. */
  method SignedSignKept(sim: SerialSimulator, inter: IntermediateAllocator, xs: nat, ys: nat, zs: nat, ze: seq<nat>,
                        zm: seq<nat>, swap: nat, notswap: nat, sdiff: nat, notsdiff: nat, neg: nat, notneg: nat)
    requires Ready(sim, inter) && |inter.free| >= 4
    requires Live(sim, inter, xs) && Live(sim, inter, ys) && Live(sim, inter, zs) && xs != sdiff
    requires Live(sim, inter, swap) && Live(sim, inter, notswap) && Live(sim, inter, sdiff)
    requires Live(sim, inter, notsdiff)
    requires Live(sim, inter, neg) && Live(sim, inter, notneg)
    requires LiveReg(sim, inter, ze) && LiveReg(sim, inter, zm) && zs !in ze && zs !in zm
    requires sim.memory[swap] == !sim.memory[notswap] && sim.memory[sdiff] == !sim.memory[notsdiff]
    requires sim.memory[neg] == !sim.memory[notneg]
    modifies sim, inter
    ensures Ready(sim, inter) && inter.free == old(inter.free)
    ensures Kept1(old(sim.memory), sim.memory, inter.free, zs)
    ensures Val(sim.memory, ze) == old(Val(sim.memory, ze)) && Val(sim.memory, zm) == old(Val(sim.memory, zm))
    ensures sim.memory[zs] == old(if !sim.memory[sdiff] then sim.memory[xs]
                                  else SwapSign(sim.memory, xs, ys, swap) != sim.memory[notneg])
    ensures sim.latency == old(sim.latency) + 26
  {
    hide Val, Tracks;
    ghost var m := sim.memory;
    SignedSign(sim, inter, xs, ys, zs, swap, notswap, sdiff, notsdiff, neg, notneg);
    ValKeptCell(m, sim.memory, inter.free, zs, ze);
    ValKeptCell(m, sim.memory, inter.free, zs, zm);
  }

  /** Magnitude and sign of the sum, with the carry and the sign of the difference in cells `carry`, `neg` and
      `notneg`. */
  method SignedCells(sim: SerialSimulator, inter: IntermediateAllocator, xs: nat, ys: nat, zs: nat, ze: seq<nat>,
                     zm: seq<nat>, ymt: seq<nat>, guard: nat, round: nat, sticky: nat, swap: nat, notswap: nat,
                     sdiff: nat, notsdiff: nat, carry: nat, neg: nat, notneg: nat, ghost a: nat, ghost b: nat,
                     ghost gap: nat)
    requires Ready(sim, inter) && |inter.free| >= |ze| + 6 && |ze| >= 2 && |zm| == |ymt| >= 2
    requires |ze| > CeilLog2(|zm| + 2)
    requires LiveReg(sim, inter, ze) && LiveReg(sim, inter, zm) && LiveReg(sim, inter, ymt) && Distinct(ze)
    requires Distinct(zm)
    requires LiveReg(sim, inter, Register(sticky, round, guard, zm)) && Distinct(Register(sticky, round, guard, zm))
    requires Apart(zm, ymt) && Apart(ze, zm)
    requires Pooled(inter.cells, guard) && Pooled(inter.cells, round) && Pooled(inter.cells, sticky)
    requires guard !in ze && round !in ze && sticky !in ze
    requires Live(sim, inter, xs) && Live(sim, inter, ys) && Live(sim, inter, zs) && Live(sim, inter, swap)
    requires Live(sim, inter, notswap)
    requires Live(sim, inter, sdiff) && Live(sim, inter, notsdiff) && Live(sim, inter, carry) && Live(sim, inter, neg)
    requires Live(sim, inter, notneg)
    requires Spared(xs, ze, zm, guard, round, sticky) && Spared(ys, ze, zm, guard, round, sticky)
    requires Spared(swap, ze, zm, guard, round, sticky) && Spared(notswap, ze, zm, guard, round, sticky)
    requires Spared(sdiff, ze, zm, guard, round, sticky) && Spared(notsdiff, ze, zm, guard, round, sticky)
    requires Spared(carry, ze, zm, guard, round, sticky) && Spared(neg, ze, zm, guard, round, sticky)
    requires Spared(notneg, ze, zm, guard, round, sticky)
    requires Spared(zs, ze, zm, guard, round, sticky)
    requires Aside(xs, sdiff, notsdiff, carry, neg, notneg) && Aside(ys, sdiff, notsdiff, carry, neg, notneg)
    requires Aside(swap, sdiff, notsdiff, carry, neg, notneg) && Aside(notswap, sdiff, notsdiff, carry, neg, notneg)
    requires carry !in ymt && sdiff != notsdiff && sdiff != carry && notsdiff != carry && neg != notneg
    requires neg != carry && notneg != carry
    requires neg != sdiff && neg != notsdiff && notneg != sdiff && notneg != notsdiff
    requires sim.memory[sdiff] == !sim.memory[notsdiff] && sim.memory[swap] == !sim.memory[notswap]
    requires Val(sim.memory, ze) < Pow2(|ze| - 1) && Val(sim.memory, zm) == a && b < Pow2(|zm|)
    requires gap >= 1 ==> a >= Pow2(|zm| - 1)
    requires var far := Far(|ze| - 1, CeilLog2(|zm| + 2), gap);
             Val(sim.memory, [round, guard] + ymt) == Aligned(far, 4 * b, gap) &&
             (Bit(sim.memory, sticky) == 1 <==> Lost(far, 4 * b, gap))
    modifies sim, inter
    ensures Ready(sim, inter) && inter.free == old(inter.free) + {guard, round, sticky}
    ensures Kept(old(sim.memory), sim.memory, inter.free, zm + ze + [carry, neg, notneg, zs])
    ensures Sums(|ze| - 1, |zm| - 1, old(Val(sim.memory, ze)), a, b, gap, old(Bit(sim.memory, sdiff) == 1),
                 Val(sim.memory, zm), Val(sim.memory, ze))
    ensures sim.memory[zs] == old(if !sim.memory[sdiff] then sim.memory[xs]
                                  else SwapSign(sim.memory, xs, ys, swap) == (Pow2(gap) * a > b))
    ensures sim.latency == old(sim.latency) + NormCost(|zm| + 2) + 60 * |zm| + 141 + 31 * |ze|
  {
    hide Val, Pow2, Far, Aligned, Lost, Sums, NormCost, CeilLog2, Register, Tracks, Kept, Apart, Distinct, Kept1;
    ghost var m := sim.memory;
    RegisterParts(sim, inter, sticky, round, guard, zm);
    SignedFinish(sim, inter, ze, zm, ymt, guard, round, sticky, sdiff, notsdiff, carry, neg, notneg, a, b, gap);
    SubsetSize(old(inter.free), inter.free);
    ghost var m1 := sim.memory;
    SumKeeps(m, m1, inter.free, zm, ze, carry, neg, notneg, xs);
    SumKeeps(m, m1, inter.free, zm, ze, carry, neg, notneg, ys);
    SumKeeps(m, m1, inter.free, zm, ze, carry, neg, notneg, swap);
    SumKeeps(m, m1, inter.free, zm, ze, carry, neg, notneg, notswap);
    SumKeeps(m, m1, inter.free, zm, ze, carry, neg, notneg, sdiff);
    SumKeeps(m, m1, inter.free, zm, ze, carry, neg, notneg, notsdiff);
    SignedSignKept(sim, inter, xs, ys, zs, ze, zm, swap, notswap, sdiff, notsdiff, neg, notneg);
    SignKeeps(m, m1, sim.memory, inter.free, zm, ze, carry, neg, notneg, zs);
  }

  /** The registers and cells that the sum works on. */
  ghost predicate SumPre(sim: SerialSimulator, inter: IntermediateAllocator, xs: nat, ys: nat, zs: nat, ze: seq<nat>,
                         zm: seq<nat>, ymt: seq<nat>, guard: nat, round: nat, sticky: nat, swap: nat, notswap: nat)
    reads sim, inter
  {
    && Ready(sim, inter) && |ze| >= 2 && |zm| == |ymt| >= 2 && |ze| > CeilLog2(|zm| + 2)
    && LiveReg(sim, inter, ze) && LiveReg(sim, inter, zm) && LiveReg(sim, inter, ymt) && Distinct(ze) && Distinct(zm)
    && LiveReg(sim, inter, Register(sticky, round, guard, zm)) && Distinct(Register(sticky, round, guard, zm))
    && Apart(zm, ymt) && Apart(ze, zm)
    && Pooled(inter.cells, guard) && Pooled(inter.cells, round) && Pooled(inter.cells, sticky)
    && guard !in ze && round !in ze && sticky !in ze && xs != ys
    && Live(sim, inter, xs) && Live(sim, inter, ys) && Live(sim, inter, zs) && Live(sim, inter, swap)
    && Live(sim, inter, notswap)
    && Spared(xs, ze, zm, guard, round, sticky) && Spared(ys, ze, zm, guard, round, sticky)
    && Spared(zs, ze, zm, guard, round, sticky)
    && Spared(swap, ze, zm, guard, round, sticky) && Spared(notswap, ze, zm, guard, round, sticky)
  }

  /** The values that the sum starts from. */
  ghost predicate SumStart(m: seq<bool>, ze: seq<nat>, zm: seq<nat>, ymt: seq<nat>, guard: nat, round: nat, sticky: nat,
                           he: nat, a: nat, b: nat, gap: nat)
    requires |ze| >= 1 && |zm| >= 1
  {
    var far := Far(|ze| - 1, CeilLog2(|zm| + 2), gap);
    && Val(m, ze) == he < Pow2(|ze| - 1) && Val(m, zm) == a && b < Pow2(|zm|) && (gap >= 1 ==> a >= Pow2(|zm| - 1))
    && Val(m, [round, guard] + ymt) == Aligned(far, 4 * b, gap) && (Bit(m, sticky) == 1 <==> Lost(far, 4 * b, gap))
  }

  /** The cells for the carry and the sign of the difference around `SignedCells`. */
  method SignedTemps(sim: SerialSimulator, inter: IntermediateAllocator, xs: nat, ys: nat, zs: nat, ze: seq<nat>,
                     zm: seq<nat>, ymt: seq<nat>, guard: nat, round: nat, sticky: nat, swap: nat, notswap: nat,
                     sdiff: nat, notsdiff: nat, ghost he: nat, ghost a: nat, ghost b: nat, ghost gap: nat)
    requires SumPre(sim, inter, xs, ys, zs, ze, zm, ymt, guard, round, sticky, swap, notswap)
    requires |inter.free| >= |ze| + 9
    requires Live(sim, inter, sdiff) && Live(sim, inter, notsdiff) && sdiff != notsdiff
    requires Spared(sdiff, ze, zm, guard, round, sticky) && Spared(notsdiff, ze, zm, guard, round, sticky)
    requires xs != sdiff && xs != notsdiff && ys != sdiff && ys != notsdiff
    requires swap != sdiff && swap != notsdiff && notswap != sdiff && notswap != notsdiff
    requires sim.memory[sdiff] == !sim.memory[notsdiff] && sim.memory[swap] == !sim.memory[notswap]
    requires SumStart(sim.memory, ze, zm, ymt, guard, round, sticky, he, a, b, gap)
    modifies sim, inter
    ensures Ready(sim, inter) && inter.free == old(inter.free) + {guard, round, sticky}
    ensures Kept(old(sim.memory), sim.memory, inter.free, zm + ze + [zs])
    ensures Sums(|ze| - 1, |zm| - 1, he, a, b, gap, old(Bit(sim.memory, sdiff) == 1), Val(sim.memory, zm),
                 Val(sim.memory, ze))
    ensures sim.memory[zs] == old(if !sim.memory[sdiff] then sim.memory[xs]
                                  else SwapSign(sim.memory, xs, ys, swap) == (Pow2(gap) * a > b))
    ensures sim.latency == old(sim.latency) + NormCost(|zm| + 2) + 60 * |zm| + 141 + 31 * |ze|
  {
    hide Val, Pow2, Far, Aligned, Lost, Sums, NormCost, CeilLog2, Register, Distinct, Apart, Tracks;
    var carry, neg, notneg := inter.Malloc3();
    RegisterFree(sim, inter, sticky, round, guard, zm, carry, neg, notneg);
    SignedCells(sim, inter, xs, ys, zs, ze, zm, ymt, guard, round, sticky, swap, notswap, sdiff, notsdiff, carry, neg,
                notneg, a, b, gap);
    inter.Free3(carry, neg, notneg);
  }

  /** Cells outside a register's live cells are none of its parts. */
  lemma RegisterFree(sim: SerialSimulator, inter: IntermediateAllocator, sticky: nat, round: nat, guard: nat,
                     zm: seq<nat>, c: nat, d: nat, e: nat)
    requires LiveReg(sim, inter, Register(sticky, round, guard, zm)) && c !in Register(sticky, round, guard, zm)
    requires d !in Register(sticky, round, guard, zm) && e !in Register(sticky, round, guard, zm)
    ensures c != sticky && c != round && c != guard && c !in zm
    ensures d != sticky && d != round && d != guard && d !in zm
    ensures e != sticky && e != round && e != guard && e !in zm
  {
    var r := Register(sticky, round, guard, zm);
    assert r[0] == sticky && r[1] == round && r[2] == guard;
    assert forall i {:trigger zm[i]} | 0 <= i < |zm| :: zm[i] == r[i + 3];
  }

  /** The XOR of the signs and its complement, in fresh cells. */
  method SignsDiffer(sim: SerialSimulator, inter: IntermediateAllocator, xs: nat, ys: nat)
    returns (sdiff: nat, notsdiff: nat)
    requires Ready(sim, inter) && |inter.free| >= 6
    requires Live(sim, inter, xs) && Live(sim, inter, ys) && xs != ys
    modifies sim, inter
    ensures Ready(sim, inter) && Pooled(inter.cells, sdiff) && Pooled(inter.cells, notsdiff)
    ensures sdiff in old(inter.free) && notsdiff in old(inter.free) && sdiff != notsdiff
    ensures inter.free == old(inter.free) - {sdiff, notsdiff} && |inter.free| == |old(inter.free)| - 2
    ensures Kept(old(sim.memory), sim.memory, old(inter.free), []) && |sim.memory| == |old(sim.memory)|
    ensures sim.memory[sdiff] == old(sim.memory[xs] != sim.memory[ys]) && sim.memory[notsdiff] == !sim.memory[sdiff]
    ensures sim.latency == old(sim.latency) + 12
  {
    hide Tracks;
    sdiff, notsdiff := inter.Malloc2();
    XorAndNot(sim, inter, xs, ys, sdiff, notsdiff);
  }

  lemma CellKept(m: seq<bool>, m': seq<bool>, f: set<nat>, z: seq<nat>, c: nat)
    requires Kept(m, m', f, z) && c < |m| && c !in f && c !in z
    ensures |m'| == |m| && m'[c] == m[c]
  {
  }

  /** Scratch use before a step only adds scratch cells to what may differ. */
  lemma KeptAfterScratch(m: seq<bool>, m1: seq<bool>, m2: seq<bool>, f: set<nat>, g: set<nat>, h: set<nat>, z: seq<nat>)
    requires Kept(m, m1, f, []) && Kept(m1, m2, g, z) && f <= h && g <= h
    ensures Kept(m, m2, h, z)
  {
  }

  /** The XOR of the signs around the sum. */
  method SignedDiff(sim: SerialSimulator, inter: IntermediateAllocator, xs: nat, ys: nat, zs: nat, ze: seq<nat>,
                    zm: seq<nat>, ymt: seq<nat>, guard: nat, round: nat, sticky: nat, swap: nat, notswap: nat,
                    ghost he: nat, ghost a: nat, ghost b: nat, ghost gap: nat)
    requires SumPre(sim, inter, xs, ys, zs, ze, zm, ymt, guard, round, sticky, swap, notswap)
    requires |inter.free| >= |ze| + 11
    requires guard !in ymt && round !in ymt
    requires sim.memory[swap] == !sim.memory[notswap]
    requires SumStart(sim.memory, ze, zm, ymt, guard, round, sticky, he, a, b, gap)
    modifies sim, inter
    ensures Ready(sim, inter) && inter.free == old(inter.free) + {guard, round, sticky}
    ensures Kept(old(sim.memory), sim.memory, inter.free, zm + ze + [zs])
    ensures Sums(|ze| - 1, |zm| - 1, he, a, b, gap, old(sim.memory[xs] != sim.memory[ys]), Val(sim.memory, zm),
                 Val(sim.memory, ze))
    ensures sim.memory[zs] == old(if sim.memory[xs] != sim.memory[ys] then (sim.memory[xs] != sim.memory[swap]) ==
                                  (Pow2(gap) * a > b)
                                  else sim.memory[xs])
    ensures sim.latency == old(sim.latency) + NormCost(|zm| + 2) + 60 * |zm| + 153 + 31 * |ze|
  {
    hide Val, Pow2, Far, Aligned, Lost, Sums, NormCost, CeilLog2, Register, Distinct, Apart, Tracks, SumStart, Kept;
    ghost var m := sim.memory;
    RegisterParts(sim, inter, sticky, round, guard, zm);
    var sdiff, notsdiff := SignsDiffer(sim, inter, xs, ys);
    ghost var m1 := sim.memory;
    CellKept(m, m1, old(inter.free), [], xs);
    CellKept(m, m1, old(inter.free), [], ys);
    CellKept(m, m1, old(inter.free), [], swap);
    CellKept(m, m1, old(inter.free), [], notswap);
    StartKept(m, m1, old(inter.free), ze, zm, ymt, guard, round, sticky, he, a, b, gap);
    SignedTemps(sim, inter, xs, ys, zs, ze, zm, ymt, guard, round, sticky, swap, notswap, sdiff, notsdiff, he, a, b,
                gap);
    ghost var g := inter.free;
    inter.Free2(sdiff, notsdiff);
    KeptAfterScratch(m, m1, sim.memory, old(inter.free), g, inter.free, zm + ze + [zs]);
  }

  lemma StartKept(m: seq<bool>, m': seq<bool>, f: set<nat>, ze: seq<nat>, zm: seq<nat>, ymt: seq<nat>, guard: nat,
                  round: nat, sticky: nat, he: nat, a: nat, b: nat, gap: nat)
    requires |ze| >= 1 && |zm| >= 1 && SumStart(m, ze, zm, ymt, guard, round, sticky, he, a, b, gap)
    requires Kept(m, m', f, []) && guard !in f && round !in f && sticky !in f
    requires forall i | 0 <= i < |ze| :: ze[i] !in f
    requires forall i | 0 <= i < |zm| :: zm[i] !in f
    requires forall i | 0 <= i < |ymt| :: ymt[i] !in f
    ensures SumStart(m', ze, zm, ymt, guard, round, sticky, he, a, b, gap)
  {
    hide Val, Pow2, Far, Aligned, Lost;
    var r := [round, guard] + ymt;
    assert forall i {:trigger r[i]} | 0 <= i < |r| ::
             r[i] == if i == 0 then round else if i == 1 then guard else ymt[i - 2];
    ValKept(m, m', f, [], ze);
    ValKept(m, m', f, [], zm);
    ValKept(m, m', f, [], r);
    assert Bit(m', sticky) == Bit(m, sticky);
  }

  /** The float that significand `z` and exponent `e` of `Sums` become in the result cells. */
  ghost predicate SignedCellsHold(m: seq<bool>, he: nat, a: nat, b: nat, gap: nat, sub: bool, sign: bool, zs: nat,
                                  ze: seq<nat>, zm: seq<nat>)
    requires |zm| >= 1
  {
    var nm, d := |zm| - 1, Units(a, b, gap, sub);
    var e := AddExp(nm, gap, d, he);
    if d == 0 || e < 0 || e >= Pow2(|ze|) then Bit(m, zs) == 0 && Val(m, ze) == 0 && Val(m, zm) == 0
    else Bit(m, zs) == (if sign then 1 else 0) && Val(m, ze) == e &&
         Val(m, zm) == Pow2(nm) + Fraction(nm, AddSig(nm, gap, d))
  }

  lemma FlushedSum(m: seq<bool>, m': seq<bool>, he: nat, a: nat, b: nat, gap: nat, sub: bool, sign: bool, zs: nat,
                   ze: seq<nat>, msb: nat, zm: seq<nat>)
    requires |zm| >= 1 && Sums(|ze|, |zm| - 1, he, a, b, gap, sub, Val(m, zm), Val(m, ze + [msb]))
    requires Bit(m, zs) == if sign then 1 else 0
    requires var flush := Bit(m, zm[|zm| - 1]) == 0 || Bit(m, msb) == 1;
             if flush then Bit(m', zs) == 0 && Val(m', ze + [msb]) == 0 && Val(m', zm) == 0
             else Bit(m', zs) == Bit(m, zs) && Val(m', ze + [msb]) == Val(m, ze + [msb]) && Val(m', zm) == Val(m, zm)
    ensures SignedCellsHold(m', he, a, b, gap, sub, sign, zs, ze, zm)
  {
    hide Val, Pow2, Units, AddSig, Carry, Lead, Carried, Fraction;
    TopBitVal(m, zm);
    ValSnoc(m, ze, msb);
    ValSnoc(m', ze, msb);
  }

  /** The sum, its sign and the flush to zero. */
  method SignedEnd(sim: SerialSimulator, inter: IntermediateAllocator, xs: nat, ys: nat, zs: nat, ze: seq<nat>,
                   msb: nat, zm: seq<nat>, ymt: seq<nat>, guard: nat, round: nat, sticky: nat, swap: nat,
                   notswap: nat, ghost he: nat, ghost a: nat, ghost b: nat, ghost gap: nat)
    requires SumPre(sim, inter, xs, ys, zs, ze + [msb], zm, ymt, guard, round, sticky, swap, notswap)
    requires |inter.free| >= |ze| + 12
    requires guard !in ymt && round !in ymt
    requires sim.memory[swap] == !sim.memory[notswap]
    requires SumStart(sim.memory, ze + [msb], zm, ymt, guard, round, sticky, he, a, b, gap)
    modifies sim, inter
    ensures Ready(sim, inter) && inter.free == old(inter.free) + {guard, round, sticky}
    ensures Kept(old(sim.memory), sim.memory, inter.free, zm + (ze + [msb]) + [zs])
    ensures SignedCellsHold(sim.memory, he, a, b, gap, old(sim.memory[xs] != sim.memory[ys]),
              old(if sim.memory[xs] != sim.memory[ys] then (sim.memory[xs] != sim.memory[swap]) == (Pow2(gap) * a > b)
                  else sim.memory[xs]),
              zs, ze, zm)
    ensures sim.latency == old(sim.latency) + NormCost(|zm| + 2) + 61 * |zm| + 192 + 32 * |ze|
  {
    hide Val, Pow2, Sums, NormCost, CeilLog2, Register, SumStart, SignedCellsHold;
    ghost var m := sim.memory;
    var ze' := ze + [msb];
    RegisterParts(sim, inter, sticky, round, guard, zm);
    assert ze'[|ze|] == msb;
    SignedDiff(sim, inter, xs, ys, zs, ze', zm, ymt, guard, round, sticky, swap, notswap, he, a, b, gap);
    SubsetSize(old(inter.free), inter.free);
    ghost var m1 := sim.memory;
    Flush(sim, inter, zm[|zm| - 1], msb, zs, ze', zm);
    FlushedSum(m1, sim.memory, he, a, b, gap, m[xs] != m[ys],
               if m[xs] != m[ys] then (m[xs] != m[swap]) == (Pow2(gap) * a > b) else m[xs], zs, ze, msb, zm);
  }

  /** The cells of the exponent difference around `SignedAlign`. */
  method SignedPlace(sim: SerialSimulator, inter: IntermediateAllocator, xe: seq<nat>, x: seq<nat>, ye: seq<nat>,
                     y: seq<nat>, ze: seq<nat>, zm: seq<nat>, ymt: seq<nat>, swap: nat, notswap: nat)
    returns (guard: nat, round: nat, sticky: nat)
    requires Ready(sim, inter) && |inter.free| >= |xe| + 7 && |xe| == |ye| == |ze| >= 1
    requires |x| == |y| == |zm| == |ymt| >= 1
    requires LiveReg(sim, inter, xe) && LiveReg(sim, inter, x) && LiveReg(sim, inter, ye) && LiveReg(sim, inter, y)
    requires LiveReg(sim, inter, ze) && LiveReg(sim, inter, zm) && LiveReg(sim, inter, ymt)
    requires Distinct(ze) && Distinct(zm) && Distinct(ymt) && Apart(xe, ze) && Apart(ye, ze)
    requires Apart(x, ze) && Apart(y, ze) && Apart(x, zm) && Apart(y, zm) && Apart(x, ymt) && Apart(y, ymt)
    requires Apart(ze, zm) && Apart(ze, ymt) && Apart(zm, ymt)
    requires Live(sim, inter, swap) && Live(sim, inter, notswap) && swap != notswap
    requires Outside(swap, xe, x, ye, y, ze, zm, [], ymt) && Outside(notswap, xe, x, ye, y, ze, zm, [], ymt)
    modifies sim, inter
    ensures Ready(sim, inter) && Pooled(inter.cells, sticky) && Pooled(inter.cells, guard) && Pooled(inter.cells, round)
    ensures sticky in old(inter.free) && guard in old(inter.free) && round in old(inter.free)
    ensures sticky != guard && round != guard && sticky != round
    ensures inter.free == old(inter.free) - {guard, round, sticky} && |inter.free| == |old(inter.free)| - 3
    ensures Kept(old(sim.memory), sim.memory, old(inter.free), ze + zm + ymt + [swap, notswap])
    ensures sim.memory[swap] == !sim.memory[notswap]
    ensures sim.memory[notswap] <==> old(Val(sim.memory, xe)) >= old(Val(sim.memory, ye))
    ensures SignedPlaced(sim.memory, old(Val(sim.memory, xe)), old(Val(sim.memory, x)), old(Val(sim.memory, ye)),
                         old(Val(sim.memory, y)),
                         ze, zm, ymt, guard, round, sticky)
    ensures sim.latency == old(sim.latency) + AlignCycles(|ze|, |zm|)
  {
    hide Val, SignedPlaced, AlignCycles;
    var delta := inter.Malloc(|xe| + 1);
    guard, round, sticky := SignedAlign(sim, inter, xe, x, ye, y, ze, zm, delta, ymt, swap, notswap);
    inter.Free(delta);
  }

  /** The placed operands are a start for the sum once the top exponent cell is cleared. */
  lemma PlacedStarts(m: seq<bool>, m': seq<bool>, xe: nat, x: nat, ye: nat, y: nat, ze: seq<nat>, msb: nat,
                     zm: seq<nat>, ymt: seq<nat>, guard: nat, round: nat, sticky: nat)
    requires |zm| == |ymt| >= 1 && Kept1(m, m', {}, msb) && Bit(m', msb) == 0
    requires msb !in ze && msb !in zm && msb !in ymt && msb != guard && msb != round && msb != sticky
    requires SignedPlaced(m, xe, x, ye, y, ze, zm, ymt, guard, round, sticky)
    requires x < Pow2(|zm|) && y < Pow2(|zm|) && (xe >= 1 ==> x >= Pow2(|zm| - 1)) && (ye >= 1 ==> y >= Pow2(|zm| - 1))
    ensures SumStart(m', ze + [msb], zm, ymt, guard, round, sticky, Pick(xe, ye, xe, ye), Pick(xe, ye, x, y),
                     Pick(xe, ye, y, x), Difference(xe, ye))
  {
    hide Val, Pow2, Far, Aligned, Lost, CeilLog2;
    var r := [round, guard] + ymt;
    assert forall i {:trigger r[i]} | 0 <= i < |r| ::
             r[i] == if i == 0 then round else if i == 1 then guard else ymt[i - 2];
    ValKeptCell(m, m', {}, msb, ze);
    ValKeptCell(m, m', {}, msb, zm);
    ValKeptCell(m, m', {}, msb, r);
    assert Bit(m', sticky) == Bit(m, sticky);
    ValSnoc(m', ze, msb);
  }

  /** The hidden bit tops the significand `x` if the exponent `xe` is not zero. */
  ghost predicate Topped(m: seq<bool>, xe: seq<nat>, x: seq<nat>, n: nat)
    requires n >= 1
  {
    Val(m, xe) >= 1 ==> Val(m, x) >= Pow2(n - 1)
  }

  /** The registers of the whole signed addition do not meet. */
  ghost predicate BodyPre(sim: SerialSimulator, inter: IntermediateAllocator, xs: nat, xe: seq<nat>, x: seq<nat>,
                          ys: nat, ye: seq<nat>, y: seq<nat>, zs: nat, ze: seq<nat>, msb: nat, zm: seq<nat>)
    reads sim, inter
  {
    && Ready(sim, inter) && |xe| == |ye| == |ze| >= 1 && |x| == |y| == |zm| >= 2 && |ze| >= CeilLog2(|zm| + 2)
    && LiveReg(sim, inter, xe) && LiveReg(sim, inter, x) && LiveReg(sim, inter, ye) && LiveReg(sim, inter, y)
    && LiveReg(sim, inter, ze) && LiveReg(sim, inter, zm) && Distinct(ze) && Distinct(zm)
    && Apart(xe, ze) && Apart(ye, ze) && Apart(x, ze) && Apart(y, ze) && Apart(x, zm) && Apart(y, zm) && Apart(ze, zm)
    && Live(sim, inter, xs) && Live(sim, inter, ys) && Live(sim, inter, zs) && Live(sim, inter, msb) && xs != ys
    && xs !in ze && xs !in zm && ys !in ze && ys !in zm && zs !in ze && zs !in zm
    && msb !in ze && msb !in zm && msb != xs && msb != ys && msb != zs
    && msb !in xe && msb !in ye && msb !in x && msb !in y
  }

  /** The smaller significand and the swap cells are apart from everything else. */
  ghost predicate WorkCells(sim: SerialSimulator, inter: IntermediateAllocator, xs: nat, xe: seq<nat>, x: seq<nat>,
                            ys: nat, ye: seq<nat>, y: seq<nat>, ze: seq<nat>, msb: nat, zm: seq<nat>, ymt: seq<nat>,
                            swap: nat, notswap: nat)
    reads sim, inter
  {
    && |ymt| == |zm| && LiveReg(sim, inter, ymt) && Distinct(ymt)
    && Apart(x, ymt) && Apart(y, ymt) && Apart(ze, ymt) && Apart(zm, ymt)
    && Live(sim, inter, swap) && Live(sim, inter, notswap) && swap != notswap
    && Outside(swap, xe, x, ye, y, ze, zm, [], ymt) && Outside(notswap, xe, x, ye, y, ze, zm, [], ymt)
    && msb !in ymt && msb != swap && msb != notswap && xs !in ymt && ys !in ymt
    && xs != swap && xs != notswap && ys != swap && ys != notswap
  }

  lemma RegisterLive(sim: SerialSimulator, inter: IntermediateAllocator, sticky: nat, round: nat, guard: nat,
                     zm: seq<nat>)
    requires LiveReg(sim, inter, zm) && Live(sim, inter, sticky) && Live(sim, inter, round) && Live(sim, inter, guard)
    requires Distinct(zm) && sticky !in zm && round !in zm && guard !in zm && sticky != round && sticky != guard
    requires round != guard
    ensures LiveReg(sim, inter, Register(sticky, round, guard, zm)) && Distinct(Register(sticky, round, guard, zm))
  {
  }

  /** Swap and alignment, up to the start of the sum. */
  method SignedBegin(sim: SerialSimulator, inter: IntermediateAllocator, xs: nat, xe: seq<nat>, x: seq<nat>, ys: nat,
                     ye: seq<nat>, y: seq<nat>, zs: nat, ze: seq<nat>, msb: nat, zm: seq<nat>, ymt: seq<nat>,
                     swap: nat, notswap: nat)
    returns (guard: nat, round: nat, sticky: nat)
    requires BodyPre(sim, inter, xs, xe, x, ys, ye, y, zs, ze, msb, zm) && |inter.free| >= |xe| + 7
    requires WorkCells(sim, inter, xs, xe, x, ys, ye, y, ze, msb, zm, ymt, swap, notswap)
    requires Topped(sim.memory, xe, x, |zm|) && Topped(sim.memory, ye, y, |zm|)
    modifies sim, inter
    ensures sticky in old(inter.free) && guard in old(inter.free) && round in old(inter.free)
    ensures inter.free == old(inter.free) - {guard, round, sticky} && |inter.free| == |old(inter.free)| - 3
    ensures SumPre(sim, inter, xs, ys, zs, ze + [msb], zm, ymt, guard, round, sticky, swap, notswap)
    ensures guard !in ymt && round !in ymt && sim.memory[swap] == !sim.memory[notswap]
    ensures Kept(old(sim.memory), sim.memory, old(inter.free), ze + zm + ymt + [msb, swap, notswap])
    ensures sim.memory[xs] == old(sim.memory[xs]) && sim.memory[ys] == old(sim.memory[ys])
    ensures var ex, ey, a := old(Val(sim.memory, xe)), old(Val(sim.memory, ye)), old(Val(sim.memory, x));
            var b := old(Val(sim.memory, y));
            && (sim.memory[swap] <==> ex < ey)
            && SumStart(sim.memory, ze + [msb], zm, ymt, guard, round, sticky, Pick(ex, ey, ex, ey),
                        Pick(ex, ey, a, b), Pick(ex, ey, b, a), Difference(ex, ey))
    ensures sim.latency == old(sim.latency) + AlignCycles(|ze|, |zm|) + 1
  {
    hide Val, Pow2, CeilLog2, Register, SumStart, SignedPlaced, AlignCycles, Pick, Difference, Distinct, Tracks,
         Kept, Apart, Kept1;
    ghost var m := sim.memory;
    ghost var ex, ey, a, b := Val(m, xe), Val(m, ye), Val(m, x), Val(m, y);
    guard, round, sticky := SignedPlace(sim, inter, xe, x, ye, y, ze, zm, ymt, swap, notswap);
    ghost var m1 := sim.memory;
    KeptSize(m, m1, old(inter.free), ze + zm + ymt + [swap, notswap]);
    sim.Init0(msb);
    BeginKeeps(m, m1, sim.memory, old(inter.free), ze, zm, ymt, msb, swap, notswap, xs, ys);
    PlacedStarts(m1, sim.memory, ex, a, ey, b, ze, msb, zm, ymt, guard, round, sticky);
    RegisterLive(sim, inter, sticky, round, guard, zm);
    WithCell(sim, inter, ze, msb);
    ApartCell(ze, zm, msb);
    SparedWith(ze, msb, zm, guard, round, sticky, xs);
    SparedWith(ze, msb, zm, guard, round, sticky, ys);
    SparedWith(ze, msb, zm, guard, round, sticky, zs);
    SparedWith(ze, msb, zm, guard, round, sticky, swap);
    SparedWith(ze, msb, zm, guard, round, sticky, notswap);
  }

  lemma SparedWith(ze: seq<nat>, msb: nat, zm: seq<nat>, guard: nat, round: nat, sticky: nat, c: nat)
    requires Spared(c, ze, zm, guard, round, sticky) && c != msb
    ensures Spared(c, ze + [msb], zm, guard, round, sticky)
  {
  }

  /** Placing the operands and clearing the top exponent cell keeps the signs and the swap cells. */
  lemma BeginKeeps(m: seq<bool>, m1: seq<bool>, m2: seq<bool>, f: set<nat>, ze: seq<nat>, zm: seq<nat>, ymt: seq<nat>,
                   msb: nat, swap: nat, notswap: nat, xs: nat, ys: nat)
    requires Kept(m, m1, f, ze + zm + ymt + [swap, notswap]) && msb < |m1| && m2 == m1[msb := false]
    requires xs < |m| && ys < |m| && xs !in f && ys !in f && msb != xs && msb != ys && msb != swap && msb != notswap
    requires xs !in ze && xs !in zm && xs !in ymt && xs != swap && xs != notswap
    requires ys !in ze && ys !in zm && ys !in ymt && ys != swap && ys != notswap
    ensures Kept(m, m2, f, ze + zm + ymt + [msb, swap, notswap]) && Kept1(m1, m2, {}, msb)
    ensures m2[xs] == m[xs] && m2[ys] == m[ys]
  {
  }

  lemma ApartCell(ze: seq<nat>, zm: seq<nat>, msb: nat)
    requires Apart(ze, zm) && msb !in zm
    ensures Apart(ze + [msb], zm)
  {
  }

  /** Swap, alignment, sum and flush, with the swap cells and the smaller significand's cells given. */
  method SignedWork(sim: SerialSimulator, inter: IntermediateAllocator, xs: nat, xe: seq<nat>, x: seq<nat>, ys: nat,
                    ye: seq<nat>, y: seq<nat>, zs: nat, ze: seq<nat>, msb: nat, zm: seq<nat>, ymt: seq<nat>,
                    swap: nat, notswap: nat)
    requires BodyPre(sim, inter, xs, xe, x, ys, ye, y, zs, ze, msb, zm) && |inter.free| >= |xe| + 15
    requires WorkCells(sim, inter, xs, xe, x, ys, ye, y, ze, msb, zm, ymt, swap, notswap)
    requires Topped(sim.memory, xe, x, |zm|) && Topped(sim.memory, ye, y, |zm|)
    modifies sim, inter
    ensures Ready(sim, inter) && inter.free == old(inter.free)
    ensures Kept(old(sim.memory), sim.memory, inter.free, zm + ze + ymt + [msb, zs, swap, notswap])
    ensures var ex, ey, a := old(Val(sim.memory, xe)), old(Val(sim.memory, ye)), old(Val(sim.memory, x));
            var b := old(Val(sim.memory, y));
            SignedCellsHold(sim.memory, Pick(ex, ey, ex, ey), Pick(ex, ey, a, b), Pick(ex, ey, b, a),
                            Difference(ex, ey),
              old(sim.memory[xs] != sim.memory[ys]),
              if old(sim.memory[xs] != sim.memory[ys]) then (old(sim.memory[xs]) != (ex < ey)) ==
              (Pow2(Difference(ex, ey)) * Pick(ex, ey, a, b) > Pick(ex, ey, b, a))
              else old(sim.memory[xs]), zs, ze, zm)
    ensures sim.latency == old(sim.latency) + AlignCycles(|ze|, |zm|) + NormCost(|zm| + 2) + 61 * |zm| + 193 + 32 * |ze|
  {
    hide Val, Pow2, NormCost, CeilLog2, Register, SumStart, SumPre, SignedCellsHold, AlignCycles, Pick, Difference,
         Tracks;
    assert |xe| == |ze|;
    hide BodyPre;
    ghost var m := sim.memory;
    ghost var ex, ey, a, b := Val(m, xe), Val(m, ye), Val(m, x), Val(m, y);
    var guard, round, sticky := SignedBegin(sim, inter, xs, xe, x, ys, ye, y, zs, ze, msb, zm, ymt, swap, notswap);
    SignedEnd(sim, inter, xs, ys, zs, ze, msb, zm, ymt, guard, round, sticky, swap, notswap,
              Pick(ex, ey, ex, ey), Pick(ex, ey, a, b), Pick(ex, ey, b, a), Difference(ex, ey));
  }

  /** The result of the work in terms of the operands' fields. */
  ghost predicate SignedHolds(m: seq<bool>, xs: bool, ex: nat, a: nat, ys: bool, ey: nat, b: nat, zs: nat,
                              ze: seq<nat>, zm: seq<nat>)
    requires |zm| >= 1
  {
    var g, h, l := Difference(ex, ey), Pick(ex, ey, a, b), Pick(ex, ey, b, a);
    SignedCellsHold(m, Pick(ex, ey, ex, ey), h, l, g, xs != ys,
                    if xs != ys then (xs != (ex < ey)) == (Pow2(g) * h > l) else xs, zs, ze, zm)
  }

  /** Cycles from the exponent difference to the flush, with `n` significand bits. */
  function WorkCycles(ne: nat, n: nat): int {
    AlignCycles(ne, n) + NormCost(n + 2) + 61 * n + 193 + 32 * ne
  }

  /** The cells for the smaller significand around `SignedWork`. */
  method SignedSmaller(sim: SerialSimulator, inter: IntermediateAllocator, xs: nat, xe: seq<nat>, x: seq<nat>,
                       ys: nat, ye: seq<nat>, y: seq<nat>, zs: nat, ze: seq<nat>, msb: nat, zm: seq<nat>, swap: nat,
                       notswap: nat)
    requires BodyPre(sim, inter, xs, xe, x, ys, ye, y, zs, ze, msb, zm) && |inter.free| >= |xe| + |zm| + 15
    requires Live(sim, inter, swap) && Live(sim, inter, notswap) && swap != notswap
    requires Outside(swap, xe, x, ye, y, ze, zm, [], []) && Outside(notswap, xe, x, ye, y, ze, zm, [], [])
    requires msb != swap && msb != notswap && xs != swap && xs != notswap && ys != swap && ys != notswap
    requires Topped(sim.memory, xe, x, |zm|) && Topped(sim.memory, ye, y, |zm|)
    modifies sim, inter
    ensures Ready(sim, inter) && inter.free == old(inter.free)
    ensures Kept(old(sim.memory), sim.memory, inter.free, zm + ze + [msb, zs, swap, notswap])
    ensures SignedHolds(sim.memory, old(sim.memory[xs]), old(Val(sim.memory, xe)), old(Val(sim.memory, x)),
                        old(sim.memory[ys]), old(Val(sim.memory, ye)), old(Val(sim.memory, y)), zs, ze, zm)
    ensures sim.latency == old(sim.latency) + WorkCycles(|ze|, |zm|)
  {
    hide Val, Pow2, NormCost, SignedCellsHold, AlignCycles, Pick, Difference, Distinct;
    var ymt := inter.Malloc(|zm|);
    SignedWork(sim, inter, xs, xe, x, ys, ye, y, zs, ze, msb, zm, ymt, swap, notswap);
    inter.Free(ymt);
  }

  /** The swap cells around `SignedSmaller`. */
  method SignedBody(sim: SerialSimulator, inter: IntermediateAllocator, xs: nat, xe: seq<nat>, x: seq<nat>, ys: nat,
                    ye: seq<nat>, y: seq<nat>, zs: nat, ze: seq<nat>, msb: nat, zm: seq<nat>)
    requires BodyPre(sim, inter, xs, xe, x, ys, ye, y, zs, ze, msb, zm) && |inter.free| >= |xe| + |zm| + 17
    requires Topped(sim.memory, xe, x, |zm|) && Topped(sim.memory, ye, y, |zm|)
    modifies sim, inter
    ensures Ready(sim, inter) && inter.free == old(inter.free)
    ensures Kept(old(sim.memory), sim.memory, inter.free, zm + ze + [msb, zs])
    ensures SignedHolds(sim.memory, old(sim.memory[xs]), old(Val(sim.memory, xe)), old(Val(sim.memory, x)),
                        old(sim.memory[ys]), old(Val(sim.memory, ye)), old(Val(sim.memory, y)), zs, ze, zm)
    ensures sim.latency == old(sim.latency) + WorkCycles(|ze|, |zm|)
  {
    hide Val, Pow2, SignedHolds, WorkCycles, Distinct, Apart;
    var swap, notswap := inter.Malloc2();
    SignedSmaller(sim, inter, xs, xe, x, ys, ye, y, zs, ze, msb, zm, swap, notswap);
    inter.Free2(swap, notswap);
  }

  lemma SignedFloat(m: seq<bool>, x: F.Float, y: F.Float, zs: nat, ze: seq<nat>, zm: seq<nat>, zh: nat)
    requires SignedHolds(m, x.sign, x.exp, F.Significand(|zm|, x), y.sign, y.exp, F.Significand(|zm|, y), zs, ze,
                         zm + [zh])
    ensures FloatAt(m, zs, ze, zm) == SignedSum(|ze|, |zm|, x, y)
  {
    hide Val, Pow2, Units, AddSig, Lead, Carry, Carried, F.Significand;
    DropHidden(m, zm, zh);
  }

  /** Cycles of floatingAdditionSigned. */
  function SignedCycles(ne: nat, nm: nat): int {
    7 + 2 * ne + WorkCycles(ne, nm + 1)
  }

  /** The cycles for every supported width: the closed form in the routine's documentation whenever the exponent is
      wider than the shift amount, and `nm + 5` fewer when it is not, because nothing is then cleared. */
  lemma SignedCyclesClosed(ne: nat, nm: nat)
    requires ne >= CeilLog2(nm + 3)
    ensures var w := CeilLog2(nm + 3);
            SignedCycles(ne, nm) == 74 * nm + 79 * ne + 299 + (12 * nm + 48) * w - 8 * Pow2(w) -
                                    if ne == w then nm + 5 else 0
  {
    hide Pow2, CeilLog2, ShiftCost, NormCost;
    var w := CeilLog2(nm + 3);
    ShiftCostClosed(nm + 3, ne + 1);
    NormCostIs(nm + 3);
    CostsAdd(w, nm);
  }

  lemma NormCostIs(n: nat)
    requires n >= 1
    ensures NormCost(n) == CeilLog2(n) * (6 * n + 4) - 4 * Pow2(CeilLog2(n)) + 6 - CeilLog2(n)
  {
    hide Pow2, CeilLog2;
  }

  lemma CostsAdd(w: int, nm: int)
    ensures w * (6 * (nm + 3) + 10) + w * (6 * (nm + 3) + 4) == (12 * nm + 48) * w + 2 * w
  {
    MulAdd(w, 6 * (nm + 3) + 10, 6 * (nm + 3) + 4);
    assert 6 * (nm + 3) + 10 + (6 * (nm + 3) + 4) == 12 * nm + 50;
    MulAdd(w, 12 * nm + 48, 2);
  }

  /** The constant-zero cell, which signed addition allocates without using, and the top exponent cell around
      `SignedBody`. */
  method SignedExtended(sim: SerialSimulator, inter: IntermediateAllocator, xs: nat, xe: seq<nat>, x: seq<nat>,
                        ys: nat, ye: seq<nat>, y: seq<nat>, zs: nat, ze: seq<nat>, zm: seq<nat>)
    requires Ready(sim, inter) && |xe| == |ye| == |ze| >= 1 && |x| == |y| == |zm| >= 2 && |ze| >= CeilLog2(|zm| + 2)
    requires |inter.free| >= |xe| + |zm| + 19
    requires LiveReg(sim, inter, xe) && LiveReg(sim, inter, x) && LiveReg(sim, inter, ye) && LiveReg(sim, inter, y)
    requires LiveReg(sim, inter, ze) && LiveReg(sim, inter, zm) && Distinct(ze) && Distinct(zm)
    requires Apart(xe, ze) && Apart(ye, ze) && Apart(x, ze) && Apart(y, ze) && Apart(x, zm) && Apart(y, zm)
    requires Apart(ze, zm)
    requires Live(sim, inter, xs) && Live(sim, inter, ys) && Live(sim, inter, zs) && xs != ys
    requires xs !in ze && xs !in zm && ys !in ze && ys !in zm && zs !in ze && zs !in zm
    requires Topped(sim.memory, xe, x, |zm|) && Topped(sim.memory, ye, y, |zm|)
    modifies sim, inter
    ensures Ready(sim, inter) && inter.free == old(inter.free)
    ensures Kept(old(sim.memory), sim.memory, inter.free, zm + ze + [zs])
    ensures SignedHolds(sim.memory, old(sim.memory[xs]), old(Val(sim.memory, xe)), old(Val(sim.memory, x)),
                        old(sim.memory[ys]), old(Val(sim.memory, ye)), old(Val(sim.memory, y)), zs, ze, zm)
    ensures sim.latency == old(sim.latency) + 1 + WorkCycles(|ze|, |zm|)
  {
    hide Val, Pow2, SignedHolds, WorkCycles, CeilLog2, Distinct;
    ghost var m := sim.memory;
    var zero, msb := inter.Malloc2();
    sim.Init0(zero);
    ghost var m1 := sim.memory;
    assert Kept1(m, m1, {}, zero);
    ValKeptCell(m, m1, {}, zero, x);
    ValKeptCell(m, m1, {}, zero, y);
    ValKeptCell(m, m1, {}, zero, xe);
    ValKeptCell(m, m1, {}, zero, ye);
    SignedBody(sim, inter, xs, xe, x, ys, ye, y, zs, ze, msb, zm);
    inter.Free2(zero, msb);
  }

  /** The hidden bit tops a significand whose exponent is not zero. */
  lemma SignificandFull(nm: nat, x: F.Float)
    ensures x.exp >= 1 ==> F.Significand(nm, x) >= Pow2(nm)
  {
  }

  /** floatingAdditionSigned once the hidden-bit cells are allocated. */
  method SignedHidden(sim: SerialSimulator, inter: IntermediateAllocator, xs: nat, xe: seq<nat>, xm: seq<nat>, xh: nat,
                      ys: nat, ye: seq<nat>, ym: seq<nat>, yh: nat, zs: nat, ze: seq<nat>, zm: seq<nat>, zh: nat)
    requires Ready(sim, inter) && |xm| == |ym| == |zm| >= 1 && |inter.free| >= |xe| + |xm| + 20
    requires |ze| == |xe| == |ye| && |ze| >= 1 && |ze| >= CeilLog2(|zm| + 3)
    requires LiveReg(sim, inter, xe) && LiveReg(sim, inter, xm + [xh]) && LiveReg(sim, inter, ye)
    requires LiveReg(sim, inter, ym + [yh])
    requires LiveReg(sim, inter, ze) && LiveReg(sim, inter, zm + [zh])
    requires Live(sim, inter, xs) && Live(sim, inter, ys) && Live(sim, inter, zs) && xs != ys
    requires Distinct(zm + [zh]) && Distinct(ze)
    requires Apart(xm + [xh], zm + [zh]) && Apart(ym + [yh], zm + [zh]) && Apart(ze, zm + [zh])
    requires Apart(xm + [xh], ze) && Apart(ym + [yh], ze) && Apart(xe, ze) && Apart(ye, ze)
    requires xs !in zm + [zh] && xs !in ze && ys !in zm + [zh] && ys !in ze && zs !in zm + [zh] && zs !in ze
    requires xh != yh && xh !in ye && xh !in ym && yh !in xm && yh !in xe && yh !in ye && xh !in xe && xh != xs
    requires xh != ys && yh != xs && yh != ys
    requires xh !in xm && yh !in ym
    modifies sim, inter
    ensures Ready(sim, inter) && inter.free == old(inter.free)
    ensures Kept(old(sim.memory), sim.memory, inter.free, [zs] + ze + (zm + [zh]) + [xh, yh])
    ensures FloatAt(sim.memory, zs, ze, zm) ==
            SignedSum(|ze|, |zm|, old(FloatAt(sim.memory, xs, xe, xm)), old(FloatAt(sim.memory, ys, ye, ym)))
    ensures sim.latency == old(sim.latency) + SignedCycles(|ze|, |zm|)
  {
    hide Val, Pow2, SignedHolds, WorkCycles, CeilLog2, SignedSum, F.Significand;
    ghost var m := sim.memory;
    assert forall i {:trigger xm[i]} | 0 <= i < |xm| :: xm[i] == (xm + [xh])[i];
    assert forall i {:trigger ym[i]} | 0 <= i < |ym| :: ym[i] == (ym + [yh])[i];
    assert (xm + [xh])[|xm|] == xh && (ym + [yh])[|ym|] == yh;
    HiddenBits(sim, inter, xs, xe, xm, xh, ys, ye, ym, yh);
    SignificandFull(|xm|, FloatAt(m, xs, xe, xm));
    SignificandFull(|ym|, FloatAt(m, ys, ye, ym));
    SignedExtended(sim, inter, xs, xe, xm + [xh], ys, ye, ym + [yh], zs, ze, zm + [zh]);
    SignedFloat(sim.memory, FloatAt(m, xs, xe, xm), FloatAt(m, ys, ye, ym), zs, ze, zm, zh);
  }

  /** What floatingAdditionSigned asks of its registers. */
  ghost predicate SignedRegisters(sim: SerialSimulator, inter: IntermediateAllocator, xs: nat, xe: seq<nat>,
                                  xm: seq<nat>, ys: nat, ye: seq<nat>, ym: seq<nat>, zs: nat, ze: seq<nat>,
                                  zm: seq<nat>)
    reads sim, inter
  {
    && Ready(sim, inter) && |xm| == |ym| == |zm| >= 1 && |ze| == |xe| == |ye| && |ze| >= CeilLog2(|zm| + 3)
    && LiveReg(sim, inter, xe) && LiveReg(sim, inter, xm) && LiveReg(sim, inter, ye) && LiveReg(sim, inter, ym)
    && LiveReg(sim, inter, ze) && LiveReg(sim, inter, zm)
    && Live(sim, inter, xs) && Live(sim, inter, ys) && Live(sim, inter, zs) && xs != ys
    && Distinct(xm) && Distinct(ym) && Distinct(zm) && Distinct(ze)
    && Apart(xm, zm) && Apart(ym, zm) && Apart(ze, zm) && Apart(xm, ze) && Apart(ym, ze) && Apart(xe, ze)
    && Apart(ye, ze)
    && xs !in zm && xs !in ze && ys !in zm && ys !in ze && zs !in zm && zs !in ze
  }

  /** The hidden-bit cells around the addition. */
  method AddSignedFloats(sim: SerialSimulator, inter: IntermediateAllocator, xs: nat, xe: seq<nat>, xm: seq<nat>,
                         ys: nat, ye: seq<nat>, ym: seq<nat>, zs: nat, ze: seq<nat>, zm: seq<nat>)
    requires SignedRegisters(sim, inter, xs, xe, xm, ys, ye, ym, zs, ze, zm) && |inter.free| >= |xe| + |xm| + 23
    modifies sim, inter
    ensures Ready(sim, inter) && inter.free == old(inter.free)
    ensures Kept(old(sim.memory), sim.memory, inter.free, [zs] + ze + zm)
    ensures FloatAt(sim.memory, zs, ze, zm) ==
            SignedSum(|ze|, |zm|, old(FloatAt(sim.memory, xs, xe, xm)), old(FloatAt(sim.memory, ys, ye, ym)))
    ensures sim.latency == old(sim.latency) + SignedCycles(|ze|, |zm|)
  {
    hide FloatAt, SignedSum, SignedCycles, Distinct, Apart, Tracks;
    CeilLog2Positive(|zm| + 3);
    var xh, yh, zh := inter.Malloc3();
    WithCell(sim, inter, xm, xh);
    WithCell(sim, inter, ym, yh);
    WithCell(sim, inter, zm, zh);
    ApartTop(xm, zm, zh);
    ApartTop(zm + [zh], xm, xh);
    ApartTop(ym, zm, zh);
    ApartTop(zm + [zh], ym, yh);
    ApartTop(ze, zm, zh);
    ApartSwap(xm, ze);
    ApartTop(ze, xm, xh);
    ApartSwap(ym, ze);
    ApartTop(ze, ym, yh);
    SignedHidden(sim, inter, xs, xe, xm, xh, ys, ye, ym, yh, zs, ze, zm, zh);
    inter.Free3(xh, yh, zh);
  }

  /** floatingAdditionSigned: the result cells hold `SignedSum` of the two floats, every other cell outside the pool
      keeps its bit, and the pool is given back whole. */
  method FloatingAdditionSigned(sim: SerialSimulator, inter: IntermediateAllocator, xs: nat, xe: seq<nat>, xm: seq<nat>,
                                ys: nat, ye: seq<nat>, ym: seq<nat>, zs: nat, ze: seq<nat>, zm: seq<nat>)
    requires SignedRegisters(sim, inter, xs, xe, xm, ys, ye, ym, zs, ze, zm) && |inter.free| >= |xe| + |xm| + 23
    modifies sim, inter
    ensures Ready(sim, inter) && inter.free == old(inter.free)
    ensures Kept(old(sim.memory), sim.memory, inter.free, [zs] + ze + zm)
    ensures var m := old(sim.memory);
            F.Float(sim.memory[zs], Val(sim.memory, ze), Val(sim.memory, zm)) ==
            SignedSum(|ze|, |zm|, F.Float(m[xs], Val(m, xe), Val(m, xm)), F.Float(m[ys], Val(m, ye), Val(m, ym)))
    ensures sim.latency == old(sim.latency) + SignedCycles(|ze|, |zm|)
  {
    hide FloatAt, Val, SignedSum, SignedCycles, Kept, CeilLog2;
    ghost var m := sim.memory;
    AddSignedFloats(sim, inter, xs, xe, xm, ys, ye, ym, zs, ze, zm);
    KeptSize(m, sim.memory, inter.free, [zs] + ze + zm);
    FloatAtIs(m, xs, xe, xm);
    FloatAtIs(m, ys, ye, ym);
    FloatAtIs(sim.memory, zs, ze, zm);
  }

  /** floatingSubtractionSigned: the sum with the sign of `y` inverted in a scratch cell. */
  method FloatingSubtractionSigned(sim: SerialSimulator, inter: IntermediateAllocator, xs: nat, xe: seq<nat>,
                                   xm: seq<nat>, ys: nat, ye: seq<nat>, ym: seq<nat>, zs: nat, ze: seq<nat>,
                                   zm: seq<nat>)
    requires SignedRegisters(sim, inter, xs, xe, xm, ys, ye, ym, zs, ze, zm) && |inter.free| >= |xe| + |xm| + 24
    modifies sim, inter
    ensures Ready(sim, inter) && inter.free == old(inter.free)
    ensures Kept(old(sim.memory), sim.memory, inter.free, [zs] + ze + zm)
    ensures var m := old(sim.memory);
            F.Float(sim.memory[zs], Val(sim.memory, ze), Val(sim.memory, zm)) ==
            SignedSum(|ze|, |zm|, F.Float(m[xs], Val(m, xe), Val(m, xm)), F.Float(!m[ys], Val(m, ye), Val(m, ym)))
    ensures sim.latency == old(sim.latency) + 2 + SignedCycles(|ze|, |zm|)
  {
    hide Val, SignedSum, SignedCycles, Distinct, Apart;
    ghost var m := sim.memory;
    var notys := inter.MallocCell();
    sim.Not(ys, notys);
    ghost var m1 := sim.memory;
    assert Kept1(m, m1, {}, notys);
    ValKeptCell(m, m1, {}, notys, xe);
    ValKeptCell(m, m1, {}, notys, xm);
    ValKeptCell(m, m1, {}, notys, ye);
    ValKeptCell(m, m1, {}, notys, ym);
    FloatingAdditionSigned(sim, inter, xs, xe, xm, notys, ye, ym, zs, ze, zm);
    inter.FreeCell(notys);
  }
}
