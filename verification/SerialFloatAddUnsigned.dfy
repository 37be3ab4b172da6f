/** floatingAdditionUnsigned of serial/AritPIM.py. */
module SerialFloatAddUnsigned {
  import opened Numbers
  import opened Rounding
  import opened Packing
  import F = Floats
  import opened Simulator
  import opened Allocator
  import opened Cells
  import opened SerialGates
  import opened SerialFixed
  import opened SerialShift
  import opened SerialFloat
  import opened SerialAlign
  import opened FloatAdd
  import opened AddSteps

  /** Conditional swap with the swap cells allocated around it, and the absolute exponent difference. */
  method UnsignedOrder(sim: SerialSimulator, inter: IntermediateAllocator, xe: seq<nat>, x: seq<nat>, ye: seq<nat>,
                       y: seq<nat>, ze: seq<nat>, zm: seq<nat>, delta: seq<nat>, ymt: seq<nat>)
    requires SwapPre(sim, inter, xe, x, ye, y, ze, zm, delta, ymt) && |inter.free| >= 8
    modifies sim, inter
    ensures Ready(sim, inter) && inter.free == old(inter.free)
    ensures Kept(old(sim.memory), sim.memory, inter.free, ze + zm + ymt + delta)
    ensures Swapped(sim.memory, old(Val(sim.memory, xe)), old(Val(sim.memory, x)), old(Val(sim.memory, ye)),
                    old(Val(sim.memory, y)), ze, zm, ymt)
    ensures Magnitude(sim.memory, delta) == Difference(old(Val(sim.memory, xe)), old(Val(sim.memory, ye)))
    ensures sim.latency == old(sim.latency) + 26 * |ze| + 12 * |zm| + 5
  {
    hide Val, Distinct, Apart, Magnitude, Swapped;
    var swap, notswap := inter.Malloc2();
    SwapOperands(sim, inter, xe, x, ye, y, ze, zm, delta, ymt, swap, notswap);
    inter.Free2(swap, notswap);
  }

  /** Swap, absolute exponent difference, and the smaller significand cleared if it is too far down. */
  method UnsignedNear(sim: SerialSimulator, inter: IntermediateAllocator, xe: seq<nat>, x: seq<nat>, ye: seq<nat>,
                      y: seq<nat>, ze: seq<nat>, zm: seq<nat>, delta: seq<nat>, ymt: seq<nat>, w: nat)
    requires SwapPre(sim, inter, xe, x, ye, y, ze, zm, delta, ymt) && |inter.free| >= 8
    modifies sim, inter
    ensures Ready(sim, inter) && inter.free == old(inter.free)
    ensures Kept(old(sim.memory), sim.memory, inter.free, ze + zm + ymt + delta)
    ensures var ex, ey, a := old(Val(sim.memory, xe)), old(Val(sim.memory, ye)), old(Val(sim.memory, x));
            var b := old(Val(sim.memory, y));
            && Val(sim.memory, ze) == Pick(ex, ey, ex, ey) && Val(sim.memory, zm) == Pick(ex, ey, a, b)
            && Val(sim.memory, delta) == Difference(ex, ey)
            && Val(sim.memory, ymt) == if Far(|ze|, w, Difference(ex, ey)) then 0 else Pick(ex, ey, b, a)
    ensures sim.latency == old(sim.latency) + 44 * |ze| + 12 * |zm| + 8 + if |ze| > w then 4 + |ze| - w + |zm| else 0
  {
    hide Val, Pow2, Magnitude, Far, Difference, Pick;
    UnsignedOrder(sim, inter, xe, x, ye, y, ze, zm, delta, ymt);
    ghost var m1, o := sim.memory, delta + ymt;
    AbsDrop(sim, inter, delta, w, ymt);
    assert forall i {:trigger o[i]} | 0 <= i < |o| :: o[i] == if i < |delta| then delta[i] else ymt[i - |delta|];
    ValKept(m1, sim.memory, inter.free, o, ze);
    ValKept(m1, sim.memory, inter.free, o, zm);
  }

  /** The alignment shift with a new guard and a new sticky bit. */
  method UnsignedShift(sim: SerialSimulator, inter: IntermediateAllocator, delta: seq<nat>, ymt: seq<nat>, ghost b: nat)
    returns (sticky: nat, guard: nat)
    requires Ready(sim, inter) && |inter.free| >= 5 && |delta| >= 1 && |ymt| >= 1
    requires LiveReg(sim, inter, delta) && LiveReg(sim, inter, ymt) && Distinct(ymt) && Apart(delta, ymt)
    requires Val(sim.memory, delta) < Pow2(|delta| - 1)
    requires Val(sim.memory, ymt) == if Far(|delta| - 1, CeilLog2(|ymt| + 1), Val(sim.memory, delta)) then 0 else b
    modifies sim, inter
    ensures Ready(sim, inter) && Pooled(inter.cells, sticky) && Pooled(inter.cells, guard)
    ensures sticky in old(inter.free) && guard in old(inter.free) && sticky != guard
    ensures inter.free == old(inter.free) - {sticky, guard} && |inter.free| == |old(inter.free)| - 2
    ensures Kept(old(sim.memory), sim.memory, old(inter.free), ymt)
    ensures var gap := old(Val(sim.memory, delta));
            var far := Far(|delta| - 1, CeilLog2(|ymt| + 1), gap);
            && Val(sim.memory, [guard] + ymt) == Aligned(far, 2 * b, gap)
            && (sim.memory[sticky] <==> Lost(far, 2 * b, gap))
    ensures sim.latency == old(sim.latency) + 2 + ShiftCost(|ymt| + 1, |delta|)
  {
    hide Val, Far, Aligned, Lost, ShiftCost, Tracks;
    ghost var m := sim.memory;
    sticky, guard := inter.Malloc2();
    sim.Init0(sticky);
    sim.Init0(guard);
    ghost var m1 := sim.memory;
    assert Kept2(m, m1, {}, sticky, guard);
    ValKept2(m, m1, {}, sticky, guard, delta);
    ValKept2(m, m1, {}, sticky, guard, ymt);
    ValCell(m1, guard);
    var x := [guard] + ymt;
    assert forall i {:trigger x[i]} | 0 <= i < |x| :: x[i] == if i == 0 then guard else ymt[i - 1];
    Pow2Bit(1);
    ShiftAligned(sim, inter, delta, [guard], ymt, sticky, b);
  }

  /** The larger operand in the result cells, the smaller one aligned below it with guard and sticky bit. */
  ghost predicate Placed(m: seq<bool>, xe: nat, x: nat, ye: nat, y: nat, ze: seq<nat>, zm: seq<nat>, ymt: seq<nat>,
                         guard: nat, sticky: nat) {
    var gap, b := Difference(xe, ye), Pick(xe, ye, y, x);
    var far := Far(|ze|, CeilLog2(|ymt| + 1), gap);
    && Val(m, ze) == Pick(xe, ye, xe, ye) && Val(m, zm) == Pick(xe, ye, x, y)
    && Val(m, [guard] + ymt) == Aligned(far, 2 * b, gap) && (Bit(m, sticky) == 1 <==> Lost(far, 2 * b, gap))
  }

  /** Swap and alignment. */
  method UnsignedAlign(sim: SerialSimulator, inter: IntermediateAllocator, xe: seq<nat>, x: seq<nat>, ye: seq<nat>,
                       y: seq<nat>, ze: seq<nat>, zm: seq<nat>, delta: seq<nat>, ymt: seq<nat>)
    returns (sticky: nat, guard: nat)
    requires SwapPre(sim, inter, xe, x, ye, y, ze, zm, delta, ymt) && |inter.free| >= 8 && |zm| >= 1
    modifies sim, inter
    ensures Ready(sim, inter) && Pooled(inter.cells, sticky) && Pooled(inter.cells, guard)
    ensures sticky in old(inter.free) && guard in old(inter.free) && sticky != guard
    ensures inter.free == old(inter.free) - {sticky, guard} && |inter.free| == |old(inter.free)| - 2
    ensures Kept(old(sim.memory), sim.memory, old(inter.free), ze + zm + ymt + delta)
    ensures Placed(sim.memory, old(Val(sim.memory, xe)), old(Val(sim.memory, x)), old(Val(sim.memory, ye)),
                   old(Val(sim.memory, y)),
                   ze, zm, ymt, guard, sticky)
    ensures sim.latency == old(sim.latency) + PlaceCycles(|ze|, |zm|)
  {
    hide Val, Far, Aligned, Lost, ShiftCost, Difference, Pick, Tracks;
    ghost var m := sim.memory;
    var w := CeilLog2(|zm| + 1);
    GapBound(m, xe, ye);
    UnsignedNear(sim, inter, xe, x, ye, y, ze, zm, delta, ymt, w);
    ghost var m1 := sim.memory;
    sticky, guard := UnsignedShift(sim, inter, delta, ymt, Pick(Val(m, xe), Val(m, ye), Val(m, y), Val(m, x)));
    ValKept(m1, sim.memory, old(inter.free), ymt, ze);
    ValKept(m1, sim.memory, old(inter.free), ymt, zm);
  }

  /** The cells of the exponent difference around `UnsignedAlign`. */
  method UnsignedPlace(sim: SerialSimulator, inter: IntermediateAllocator, xe: seq<nat>, x: seq<nat>, ye: seq<nat>,
                       y: seq<nat>, ze: seq<nat>, zm: seq<nat>, ymt: seq<nat>)
    returns (sticky: nat, guard: nat)
    requires Ready(sim, inter) && |inter.free| >= |xe| + 9 && |xe| == |ye| == |ze| >= 1
    requires |x| == |y| == |zm| == |ymt| >= 1
    requires LiveReg(sim, inter, xe) && LiveReg(sim, inter, x) && LiveReg(sim, inter, ye) && LiveReg(sim, inter, y)
    requires LiveReg(sim, inter, ze) && LiveReg(sim, inter, zm) && LiveReg(sim, inter, ymt)
    requires Distinct(ze) && Distinct(zm) && Distinct(ymt) && Apart(xe, ze) && Apart(ye, ze)
    requires Apart(x, ze) && Apart(y, ze) && Apart(x, zm) && Apart(y, zm) && Apart(x, ymt) && Apart(y, ymt)
    requires Apart(ze, zm) && Apart(ze, ymt) && Apart(zm, ymt)
    modifies sim, inter
    ensures Ready(sim, inter) && Pooled(inter.cells, sticky) && Pooled(inter.cells, guard)
    ensures sticky in old(inter.free) && guard in old(inter.free) && sticky != guard
    ensures inter.free == old(inter.free) - {sticky, guard} && |inter.free| == |old(inter.free)| - 2
    ensures Kept(old(sim.memory), sim.memory, old(inter.free), ze + zm + ymt)
    ensures Placed(sim.memory, old(Val(sim.memory, xe)), old(Val(sim.memory, x)), old(Val(sim.memory, ye)),
                   old(Val(sim.memory, y)),
                   ze, zm, ymt, guard, sticky)
    ensures sim.latency == old(sim.latency) + PlaceCycles(|ze|, |zm|)
  {
    hide Val, Placed, PlaceCycles;
    var delta := inter.Malloc(|xe| + 1);
    sticky, guard := UnsignedAlign(sim, inter, xe, x, ye, y, ze, zm, delta, ymt);
    inter.Free(delta);
  }

  /** `SumRegister` on the numbers in the registers. */
  lemma GuardSum(k: nat, p: int, g: nat, a: int, b: int, s: int, v: int)
    requires k <= 1 && g <= 1 && 0 <= s < p && s + (if k == 1 then p else 0) == a + b && v == 2 * a + (g + 2 * b)
    ensures v < 4 * p && (k == 1 <==> v >= 2 * p) && g + 2 * s == (if k == 1 then v - 2 * p else v)
  {
  }

  lemma SameParity(v: int, p: int)
    ensures (v - 2 * p) % 2 == v % 2
  {
    DivModUnique(v - 2 * p, 2, v / 2 - p, v % 2);
  }

  lemma SumRegister(m: seq<bool>, m': seq<bool>, zm: seq<nat>, ymt: seq<nat>, guard: nat, k: nat)
    requires |zm| == |ymt| && k <= 1 && Bit(m', guard) == Bit(m, guard)
    requires Val(m', zm) + (if k == 1 then Pow2(|zm|) else 0) == Val(m, zm) + Val(m, ymt)
    ensures var v := 2 * Val(m, zm) + Val(m, [guard] + ymt);
            && v < 2 * Pow2(|zm| + 1) && (k == 1 <==> v >= Pow2(|zm| + 1))
            && Val(m', [guard] + zm) == (if k == 1 then v - Pow2(|zm| + 1) else v)
            && (v >= Pow2(|zm| + 1) ==> (v - Pow2(|zm| + 1)) % 2 == v % 2)
  {
    hide Val, Pow2;
    Pow2Next(|zm|);
    ValBelow(m, guard, ymt);
    ValBelow(m', guard, zm);
    var v := 2 * Val(m, zm) + Val(m, [guard] + ymt);
    GuardSum(k, Pow2(|zm|), Bit(m, guard), Val(m, zm), Val(m, ymt), Val(m', zm), v);
    SameParity(v, Pow2(|zm|));
  }

  method SumCells(sim: SerialSimulator, inter: IntermediateAllocator, zm: seq<nat>, ymt: seq<nat>, guard: nat,
                  carry: nat)
    requires Ready(sim, inter) && |inter.free| >= 5 && |zm| == |ymt| >= 2
    requires LiveReg(sim, inter, zm) && LiveReg(sim, inter, ymt) && Distinct(zm) && Apart(zm, ymt)
    requires Live(sim, inter, guard) && Live(sim, inter, carry) && guard !in zm && carry !in zm && guard != carry
    modifies sim, inter
    ensures Ready(sim, inter) && inter.free == old(inter.free)
    ensures Kept(old(sim.memory), sim.memory, inter.free, zm + [carry])
    ensures var v := old(2 * Val(sim.memory, zm) + Val(sim.memory, [guard] + ymt));
            && v < 2 * Pow2(|zm| + 1) && (Bit(sim.memory, carry) == 1 <==> v >= Pow2(|zm| + 1))
            && Val(sim.memory, [guard] + zm) == (if v >= Pow2(|zm| + 1) then v - Pow2(|zm| + 1) else v)
            && (v >= Pow2(|zm| + 1) ==> (v - Pow2(|zm| + 1)) % 2 == v % 2)
    ensures sim.latency == old(sim.latency) + 18 * |zm| + 1
  {
    hide Val, Pow2;
    ghost var m := sim.memory;
    ghost var k := FixedAddition(sim, inter, zm, ymt, zm, NoCarry, Some(carry));
    SumRegister(m, sim.memory, zm, ymt, guard, k);
  }

  /** One right shift when the carry is set. */
  method ShiftByCarry(sim: SerialSimulator, inter: IntermediateAllocator, reg: seq<nat>, carry: nat, sticky: nat)
    requires Ready(sim, inter) && |inter.free| >= 3 && |reg| >= 2
    requires LiveReg(sim, inter, reg) && Distinct(reg) && Live(sim, inter, carry) && Live(sim, inter, sticky)
    requires carry !in reg && sticky !in reg && carry != sticky
    modifies sim, inter
    ensures Ready(sim, inter) && inter.free == old(inter.free)
    ensures Kept(old(sim.memory), sim.memory, inter.free, reg + [sticky])
    ensures var c, v := old(sim.memory)[carry], old(Val(sim.memory, reg));
            && Val(sim.memory, reg) == (if c then v / 2 else v)
            && (sim.memory[sticky] <==> old(sim.memory)[sticky] || (c && v % 2 == 1))
    ensures sim.latency == old(sim.latency) + 6 * |reg| + 6
  {
    hide Val, Pow2;
    ghost var m := sim.memory;
    CeilLog2Positive(|reg|);
    Pow2Bit(1);
    VariableShiftRight(sim, inter, reg, [carry], Some(sticky));
    ValCell(m, carry);
    Pow2Bit(Bit(m, carry));
    DivBySmall(Val(m, reg), Pow2(Val(m, [carry])));
  }

  /** The sum of the significands, shifted right by its carry, which is not shifted in. */
  method UnsignedAdd(sim: SerialSimulator, inter: IntermediateAllocator, zm: seq<nat>, ymt: seq<nat>, guard: nat,
                     sticky: nat, carry: nat)
    requires Ready(sim, inter) && |inter.free| >= 5 && |zm| == |ymt| >= 2
    requires LiveReg(sim, inter, zm) && LiveReg(sim, inter, ymt) && Distinct(zm) && Apart(zm, ymt)
    requires Live(sim, inter, guard) && Live(sim, inter, sticky) && Live(sim, inter, carry)
    requires guard !in zm && sticky !in zm && carry !in zm && guard !in ymt && carry !in ymt
    requires guard != sticky && guard != carry && sticky != carry
    modifies sim, inter
    ensures Ready(sim, inter) && inter.free == old(inter.free)
    ensures Kept(old(sim.memory), sim.memory, inter.free, zm + [guard, sticky, carry])
    ensures var v := old(2 * Val(sim.memory, zm) + Val(sim.memory, [guard] + ymt));
            && v < 2 * Pow2(|zm| + 1)
            && (Bit(sim.memory, carry) == 1 <==> v >= Pow2(|zm| + 1))
            && Val(sim.memory, [guard] + zm) == PlainShifted(|zm| - 1, v)
            && (sim.memory[sticky] <==> PlainSticky(|zm| - 1, v, old(sim.memory[sticky])))
    ensures sim.latency == old(sim.latency) + 24 * |zm| + 13
  {
    hide Val, Pow2;
    SumCells(sim, inter, zm, ymt, guard, carry);
    var reg := [guard] + zm;
    assert forall i {:trigger reg[i]} | 0 <= i < |reg| :: reg[i] == if i == 0 then guard else zm[i - 1];
    ShiftByCarry(sim, inter, reg, carry, sticky);
  }

  /** The rounding step, which leaves the exponent and the carry alone. */
  method RoundAside(sim: SerialSimulator, inter: IntermediateAllocator, ze: seq<nat>, zm: seq<nat>, guard: nat,
                    sticky: nat, carry: nat)
    returns (overflow: nat)
    requires Ready(sim, inter) && |inter.free| >= 4 && |zm| >= 1
    requires LiveReg(sim, inter, ze) && LiveReg(sim, inter, zm) && Distinct(zm) && Apart(ze, zm)
    requires Live(sim, inter, guard) && Live(sim, inter, sticky) && Live(sim, inter, carry)
    requires Pooled(inter.cells, guard) && Pooled(inter.cells, sticky)
    requires guard !in zm && sticky !in zm && carry !in zm && guard !in ze && sticky !in ze
    requires guard != sticky && guard != carry && sticky != carry
    modifies sim, inter
    ensures Ready(sim, inter) && Live(sim, inter, overflow) && Pooled(inter.cells, overflow)
    ensures inter.free == old(inter.free) + {guard, sticky} - {overflow} && |inter.free| == |old(inter.free)| + 1
    ensures overflow in old(inter.free) + {guard, sticky} && overflow !in zm && overflow !in ze && overflow != carry
    ensures Kept(old(sim.memory), sim.memory, inter.free, zm + [overflow]) && |sim.memory| == |old(sim.memory)|
    ensures Val(sim.memory, ze) == old(Val(sim.memory, ze)) && Bit(sim.memory, carry) == old(Bit(sim.memory, carry))
    ensures var s := RoundUp(old(Val(sim.memory, zm)), old(sim.memory)[guard], old(sim.memory)[sticky]);
            && Val(sim.memory, zm) == (if s == Pow2(|zm|) then Pow2(|zm| - 1) else s)
            && Bit(sim.memory, overflow) == Carried(|zm| - 1, s)
    ensures sim.latency == old(sim.latency) + 10 * |zm| + 10
  {
    hide Val, Pow2, RoundUp, Tracks, Carried;
    ghost var m := sim.memory;
    var spent := [guard, sticky];
    overflow := RoundStage(sim, inter, zm, guard, sticky, spent);
    CarriedBit(|zm|, RoundUp(Val(m, zm), m[guard], m[sticky]), sim.memory[overflow]);
    ValKept(m, sim.memory, inter.free, zm + [overflow], ze);
  }

  /** Rounding, and the exponent incremented by the carry and the overflow. */
  method UnsignedRound(sim: SerialSimulator, inter: IntermediateAllocator, ze: seq<nat>, zm: seq<nat>, guard: nat,
                       sticky: nat, carry: nat)
    requires Ready(sim, inter) && |inter.free| >= 4 && |ze| >= 2 && |zm| >= 1
    requires LiveReg(sim, inter, ze) && LiveReg(sim, inter, zm) && Distinct(ze) && Distinct(zm) && Apart(ze, zm)
    requires Live(sim, inter, guard) && Live(sim, inter, sticky) && Live(sim, inter, carry)
    requires Pooled(inter.cells, guard) && Pooled(inter.cells, sticky)
    requires guard !in zm && sticky !in zm && carry !in zm && guard !in ze && sticky !in ze && carry !in ze
    requires guard != sticky && guard != carry && sticky != carry
    modifies sim, inter
    ensures Ready(sim, inter) && inter.free == old(inter.free) + {guard, sticky}
    ensures Kept(old(sim.memory), sim.memory, inter.free, zm + ze)
    ensures var s := RoundUp(old(Val(sim.memory, zm)), old(sim.memory)[guard], old(sim.memory)[sticky]);
            && Val(sim.memory, zm) == (if s == Pow2(|zm|) then Pow2(|zm| - 1) else s)
            && Val(sim.memory, ze) == (old(Val(sim.memory, ze)) + old(Bit(sim.memory, carry)) +
                                       Carried(|zm| - 1, s)) % Pow2(|ze|)
    ensures sim.latency == old(sim.latency) + 10 * |zm| + 18 + 10 * |ze|
  {
    hide Val, Pow2, RoundUp, Tracks, Carried;
    var overflow := RoundAside(sim, inter, ze, zm, guard, sticky, carry);
    ghost var m1 := sim.memory;
    BumpExponent(sim, inter, ze, carry, overflow);
    ValKept(m1, sim.memory, inter.free, ze, zm);
    inter.FreeCell(overflow);
  }

  /** Exponent and mantissa field of the exact sum. */
  ghost predicate UnsignedResult(m: seq<bool>, xe: nat, x: nat, ye: nat, y: nat, ze: seq<nat>, zm: seq<nat>)
    requires |zm| >= 1
  {
    var nm, gap := |zm| - 1, Difference(xe, ye);
    var d := Units(Pick(xe, ye, x, y), Pick(xe, ye, y, x), gap, false);
    && Val(m, ze) == (Pick(xe, ye, xe, ye) + Carry(nm, gap, d) + Carried(nm, PlainSig(nm, gap, d))) % Pow2(|ze|)
    && Val(m, zm) % Pow2(nm) == PlainSig(nm, gap, d) % Pow2(nm)
  }

  lemma GuardBit(m: seq<bool>, guard: nat, zm: seq<nat>)
    ensures Val(m, [guard] + zm) / 2 == Val(m, zm) && Val(m, [guard] + zm) % 2 == Bit(m, guard)
  {
    hide Val;
    ValBelow(m, guard, zm);
  }

  lemma UnsignedValue(m: seq<bool>, m1: seq<bool>, m2: seq<bool>, xe: nat, x: nat, ye: nat, y: nat, ze: seq<nat>,
                      zm: seq<nat>, ymt: seq<nat>, guard: nat, sticky: nat, carry: nat)
    requires |zm| == |ymt| >= 2 && x < Pow2(|zm|) && y < Pow2(|zm|)
    requires Placed(m, xe, x, ye, y, ze, zm, ymt, guard, sticky)
    requires var v := 2 * Val(m, zm) + Val(m, [guard] + ymt);
             && v < 2 * Pow2(|zm| + 1) && (Bit(m1, carry) == 1 <==> v >= Pow2(|zm| + 1))
             && Val(m1, [guard] + zm) == PlainShifted(|zm| - 1, v)
             && (Bit(m1, sticky) == 1 <==> PlainSticky(|zm| - 1, v, Bit(m, sticky) == 1))
    requires var s := RoundUp(Val(m1, zm), Bit(m1, guard) == 1, Bit(m1, sticky) == 1);
             && Val(m2, zm) == (if s == Pow2(|zm|) then Pow2(|zm| - 1) else s)
             && Val(m2, ze) == (Val(m, ze) + Bit(m1, carry) + Carried(|zm| - 1, s)) % Pow2(|ze|)
    ensures UnsignedResult(m2, xe, x, ye, y, ze, zm)
  {
    hide Val, Pow2, RoundUp, Aligned, Lost, Units, PlainSig, PlainShifted, PlainSticky, Carry, Far, Difference, Pick,
         Carried;
    var nm, gap, a, b := |zm| - 1, Difference(xe, ye), Pick(xe, ye, x, y), Pick(xe, ye, y, x);
    var far, v := Far(|ze|, CeilLog2(nm + 2), gap), 2 * Val(m, zm) + Val(m, [guard] + ymt);
    if far {
      FarGap(|ze|, nm + 2, gap);
    }
    PickBound(xe, ye, x, y, Pow2(|zm|));
    GuardBit(m1, guard, zm);
    Pow2Same(|zm|, nm + 1);
    Pow2Same(|zm| + 1, nm + 2);
    UnsignedFields(nm, a, b, gap, far, v, PlainShifted(nm, v), Bit(m1, sticky) == 1, Val(m2, zm));
  }

  lemma PickBound(xe: nat, ye: nat, x: nat, y: nat, n: nat)
    requires x < n && y < n
    ensures Pick(xe, ye, x, y) < n && Pick(xe, ye, y, x) < n
  {
  }

  /** Sum, normalisation, rounding and exponent. */
  method UnsignedFinish(sim: SerialSimulator, inter: IntermediateAllocator, ze: seq<nat>, zm: seq<nat>, ymt: seq<nat>,
                        guard: nat, sticky: nat, ghost xe: nat, ghost x: nat, ghost ye: nat, ghost y: nat)
    requires Ready(sim, inter) && |inter.free| >= 6 && |ze| >= 2 && |zm| == |ymt| >= 2
    requires LiveReg(sim, inter, ze) && LiveReg(sim, inter, zm) && LiveReg(sim, inter, ymt) && Distinct(ze)
    requires Distinct(zm)
    requires Apart(ze, zm) && Apart(zm, ymt)
    requires Live(sim, inter, guard) && Live(sim, inter, sticky) && Pooled(inter.cells, guard)
    requires Pooled(inter.cells, sticky)
    requires guard !in zm && sticky !in zm && guard !in ze && sticky !in ze && guard !in ymt && guard != sticky
    requires x < Pow2(|zm|) && y < Pow2(|zm|) && Placed(sim.memory, xe, x, ye, y, ze, zm, ymt, guard, sticky)
    modifies sim, inter
    ensures Ready(sim, inter) && inter.free == old(inter.free) + {guard, sticky}
    ensures Kept(old(sim.memory), sim.memory, inter.free, zm + ze)
    ensures UnsignedResult(sim.memory, xe, x, ye, y, ze, zm)
    ensures sim.latency == old(sim.latency) + 34 * |zm| + 31 + 10 * |ze|
  {
    hide Val, Pow2, RoundUp, Placed, UnsignedResult, PlainShifted, PlainSticky, Carried, Tracks;
    ghost var m := sim.memory;
    var carry := inter.MallocCell();
    UnsignedAdd(sim, inter, zm, ymt, guard, sticky, carry);
    ghost var m1 := sim.memory;
    ValKept(m, m1, inter.free, zm + [guard, sticky, carry], ze);
    UnsignedRound(sim, inter, ze, zm, guard, sticky, carry);
    UnsignedValue(m, m1, sim.memory, xe, x, ye, y, ze, zm, ymt, guard, sticky, carry);
    inter.FreeCell(carry);
  }

  /** Cycles of the swap and the alignment, with `n` significand bits. */
  function PlaceCycles(ne: nat, n: nat): int {
    44 * ne + 12 * n + 10 + ShiftCost(n + 1, ne + 1) + if ne > CeilLog2(n + 1) then 4 + ne - CeilLog2(n + 1) + n else 0
  }

  /** The smaller significand's cells around the whole computation. */
  method UnsignedBody(sim: SerialSimulator, inter: IntermediateAllocator, xe: seq<nat>, x: seq<nat>, ye: seq<nat>,
                      y: seq<nat>, ze: seq<nat>, zm: seq<nat>)
    requires Ready(sim, inter) && |inter.free| >= |x| + |xe| + 9 && |xe| == |ye| == |ze| >= 2 && |x| == |y| == |zm| >= 2
    requires LiveReg(sim, inter, xe) && LiveReg(sim, inter, x) && LiveReg(sim, inter, ye) && LiveReg(sim, inter, y)
    requires LiveReg(sim, inter, ze) && LiveReg(sim, inter, zm)
    requires Distinct(ze) && Distinct(zm) && Apart(xe, ze) && Apart(ye, ze)
    requires Apart(x, ze) && Apart(y, ze) && Apart(x, zm) && Apart(y, zm) && Apart(ze, zm)
    modifies sim, inter
    ensures Ready(sim, inter) && inter.free == old(inter.free)
    ensures Kept(old(sim.memory), sim.memory, inter.free, zm + ze)
    ensures UnsignedResult(sim.memory, old(Val(sim.memory, xe)), old(Val(sim.memory, x)), old(Val(sim.memory, ye)),
                           old(Val(sim.memory, y)), ze, zm)
    ensures sim.latency == old(sim.latency) + PlaceCycles(|xe|, |zm|) + 34 * |zm| + 31 + 10 * |ze|
  {
    hide Val, UnsignedResult, Placed, PlaceCycles;
    ghost var m := sim.memory;
    var ymt := inter.Malloc(|x|);
    var sticky, guard := UnsignedPlace(sim, inter, xe, x, ye, y, ze, zm, ymt);
    UnsignedFinish(sim, inter, ze, zm, ymt, guard, sticky, Val(m, xe), Val(m, x), Val(m, ye), Val(m, y));
    inter.Free(ymt);
  }

  /** The unsigned float in exponent and mantissa cells. */
  function UnsignedAt(m: seq<bool>, e: seq<nat>, man: seq<nat>): F.Float {
    F.Float(false, Val(m, e), Val(m, man))
  }

  lemma UnsignedFloat(m: seq<bool>, x: F.Float, y: F.Float, ze: seq<nat>, zm: seq<nat>, zh: nat)
    requires UnsignedResult(m, x.exp, F.Significand(|zm|, x), y.exp, F.Significand(|zm|, y), ze, zm + [zh])
    ensures UnsignedAt(m, ze, zm) == UnsignedSum(|ze|, |zm|, x, y)
  {
    hide Val, Pow2, PlainSig, Units, Carry, Carried, F.Significand;
    ValSnoc(m, zm, zh);
    DivModUnique(Val(m, zm + [zh]), Pow2(|zm|), if Bit(m, zh) == 1 then 1 else 0, Val(m, zm));
  }

  /** Cycles of floatingAdditionUnsigned. */
  function UnsignedCycles(ne: nat, nm: nat): int {
    12 * ne + 34 * nm + 71 + PlaceCycles(ne, nm + 1)
  }

  /** The cycles for every width, `t` being the bits of the shift amount; the closed form in the routine's documentation
      holds whenever the exponent is wider than these. */
  lemma UnsignedCyclesClosed(ne: nat, nm: nat)
    ensures var w := CeilLog2(nm + 2);
            var t := if w <= ne + 1 then w else ne + 1;
            UnsignedCycles(ne, nm) == 46 * nm + 56 * ne + 97 + (6 * nm + 22) * t - 4 * Pow2(t) +
                                      if ne > w then nm + ne - w + 5 else 0
    ensures var w := CeilLog2(nm + 2);
            ne > w ==> UnsignedCycles(ne, nm) == 47 * nm + 57 * ne + 102 + (6 * nm + 21) * w - 4 * Pow2(w)
  {
    hide Pow2, CeilLog2;
    var w := CeilLog2(nm + 2);
    var t := if w <= ne + 1 then w else ne + 1;
    ShiftCostIs(nm + 2, ne + 1, t);
    hide ShiftCost;
    CostSplits(t, nm);
  }

  lemma CostSplits(w: int, nm: int)
    ensures w * (6 * (nm + 2) + 10) == (6 * nm + 21) * w + w
  {
    assert 6 * (nm + 2) + 10 == 6 * nm + 22;
    MulAdd(w, 6 * nm + 21, 1);
  }

  /** floatingAdditionUnsigned once the hidden-bit cells are allocated. */
  method UnsignedHidden(sim: SerialSimulator, inter: IntermediateAllocator, xe: seq<nat>, xm: seq<nat>, xh: nat,
                        ye: seq<nat>, ym: seq<nat>, yh: nat, ze: seq<nat>, zm: seq<nat>, zh: nat)
    requires Ready(sim, inter) && |xm| == |ym| == |zm| >= 1 && |xe| == |ye| == |ze| >= 2
    requires |inter.free| >= |xm| + |xe| + 10
    requires LiveReg(sim, inter, xe) && LiveReg(sim, inter, xm + [xh]) && LiveReg(sim, inter, ye)
    requires LiveReg(sim, inter, ym + [yh])
    requires LiveReg(sim, inter, ze) && LiveReg(sim, inter, zm + [zh]) && Distinct(zm + [zh]) && Distinct(ze)
    requires Apart(xm + [xh], zm + [zh]) && Apart(ym + [yh], zm + [zh]) && Apart(ze, zm + [zh])
    requires Apart(xm + [xh], ze) && Apart(ym + [yh], ze) && Apart(xe, ze) && Apart(ye, ze)
    requires xh != yh && xh !in xm && xh !in xe && xh !in ym && xh !in ye && yh !in xm && yh !in xe && yh !in ym
    requires yh !in ye
    modifies sim, inter
    ensures Ready(sim, inter) && inter.free == old(inter.free)
    ensures Kept(old(sim.memory), sim.memory, inter.free, ze + (zm + [zh]) + [xh, yh])
    ensures UnsignedAt(sim.memory, ze, zm) ==
            UnsignedSum(|ze|, |zm|, old(UnsignedAt(sim.memory, xe, xm)), old(UnsignedAt(sim.memory, ye, ym)))
    ensures sim.latency == old(sim.latency) + UnsignedCycles(|ze|, |zm|)
  {
    hide Val, Pow2, UnsignedResult, UnsignedSum, PlaceCycles;
    ghost var m := sim.memory;
    assert forall i {:trigger xm[i]} | 0 <= i < |xm| :: xm[i] == (xm + [xh])[i];
    assert forall i {:trigger ym[i]} | 0 <= i < |ym| :: ym[i] == (ym + [yh])[i];
    assert (xm + [xh])[|xm|] == xh && (ym + [yh])[|ym|] == yh;
    HiddenBits(sim, inter, 0, xe, xm, xh, 0, ye, ym, yh);
    UnsignedBody(sim, inter, xe, xm + [xh], ye, ym + [yh], ze, zm + [zh]);
    UnsignedFloat(sim.memory, UnsignedAt(m, xe, xm), UnsignedAt(m, ye, ym), ze, zm, zh);
  }

  /** floatingAdditionUnsigned: the result cells hold `UnsignedSum` of the two floats, every other cell outside the pool
      keeps its bit, and the pool is given back whole. */
  method FloatingAdditionUnsigned(sim: SerialSimulator, inter: IntermediateAllocator, xe: seq<nat>, xm: seq<nat>,
                                  ye: seq<nat>, ym: seq<nat>, ze: seq<nat>, zm: seq<nat>)
    requires Ready(sim, inter) && |xm| == |ym| == |zm| >= 1 && |xe| == |ye| == |ze| >= 2
    requires |inter.free| >= |xm| + |xe| + 13
    requires LiveReg(sim, inter, xe) && LiveReg(sim, inter, xm) && LiveReg(sim, inter, ye) && LiveReg(sim, inter, ym)
    requires LiveReg(sim, inter, ze) && LiveReg(sim, inter, zm) && Distinct(xm) && Distinct(ym) && Distinct(zm)
    requires Distinct(ze)
    requires Apart(xm, zm) && Apart(ym, zm) && Apart(ze, zm) && Apart(xm, ze) && Apart(ym, ze) && Apart(xe, ze)
    requires Apart(ye, ze)
    modifies sim, inter
    ensures Ready(sim, inter) && inter.free == old(inter.free)
    ensures Kept(old(sim.memory), sim.memory, inter.free, ze + zm)
    ensures var m := old(sim.memory);
            F.Float(false, Val(sim.memory, ze), Val(sim.memory, zm)) ==
            UnsignedSum(|ze|, |zm|, F.Float(false, Val(m, xe), Val(m, xm)), F.Float(false, Val(m, ye), Val(m, ym)))
    ensures sim.latency == old(sim.latency) + UnsignedCycles(|ze|, |zm|)
  {
    hide Val, UnsignedSum, UnsignedCycles, Distinct, Apart;
    var xh, yh, zh := inter.Malloc3();
    WithCell(sim, inter, xm, xh);
    WithCell(sim, inter, ym, yh);
    WithCell(sim, inter, zm, zh);
    ApartTop(xm, zm, zh);
    ApartTop(zm + [zh], xm, xh);
    ApartTop(ym, zm, zh);
    ApartTop(zm + [zh], ym, yh);
    ApartTop(ze, zm, zh);
    ApartSwap(xm, ze);
    ApartTop(ze, xm, xh);
    ApartSwap(ym, ze);
    ApartTop(ze, ym, yh);
    UnsignedHidden(sim, inter, xe, xm, xh, ye, ym, yh, ze, zm, zh);
    inter.Free3(xh, yh, zh);
  }
}
