/** The in-place barrel shifter and normaliser of serial/AritPIM.py. */
module SerialShift {
  import opened Numbers
  import opened Simulator
  import opened Allocator
  import opened Cells
  import opened SerialGates

  /** Cell `i` of `x` holds what cell `i + d` held, zeros entering at the top. */
  ghost predicate ShiftedBy(m: seq<bool>, m': seq<bool>, x: seq<nat>, d: nat) {
    forall i {:trigger Bit(m', x[i])} | 0 <= i < |x| ::
      Bit(m', x[i]) == if i + d < |x| then Bit(m, x[i + d]) else 0
  }

  lemma ShiftTwice(m0: seq<bool>, m1: seq<bool>, m2: seq<bool>, x: seq<nat>, a: nat, b: nat)
    requires ShiftedBy(m0, m1, x, a) && ShiftedBy(m1, m2, x, b)
    ensures ShiftedBy(m0, m2, x, a + b)
  {
    forall i | 0 <= i < |x|
      ensures Bit(m2, x[i]) == if i + (a + b) < |x| then Bit(m0, x[i + (a + b)]) else 0
    {
      if i + b < |x| {
        assert Bit(m1, x[i + b]) == if i + b + a < |x| then Bit(m0, x[i + b + a]) else 0;
      }
    }
  }

  /** The first `i` cells have taken over the cells `d` above them if `on`; the others are as before. */
  ghost predicate MuxedTo(m: seq<bool>, m': seq<bool>, x: seq<nat>, d: nat, on: bool, i: nat)
    requires i + d <= |x|
  {
    && (forall k {:trigger Bit(m', x[k])} | 0 <= k < i ::
          Bit(m', x[k]) == if on then Bit(m, x[k + d]) else Bit(m, x[k]))
    && Same(m, m', x, i, |x|)
  }

  lemma MuxedNext(m: seq<bool>, m1: seq<bool>, m2: seq<bool>, f: set<nat>, x: seq<nat>, d: nat, on: bool, i: nat)
    requires i + d < |x| && d >= 1 && MuxedTo(m, m1, x, d, on, i) && Distinct(x)
    requires forall k | 0 <= k < |x| :: x[k] !in f
    requires Kept1(m1, m2, f, x[i]) && Bit(m2, x[i]) == if on then Bit(m1, x[i + d]) else Bit(m1, x[i])
    ensures MuxedTo(m, m2, x, d, on, i + 1)
  {
    forall k | 0 <= k < |x| && k != i
      ensures Bit(m2, x[k]) == Bit(m1, x[k])
    {
    }
    assert Bit(m1, x[i + d]) == Bit(m, x[i + d]) && Bit(m1, x[i]) == Bit(m, x[i]);
  }

  /** The muxes of one stage: `x[i]` takes `x[i + d]` when the shift bit is set. */
  method MuxStage(sim: SerialSimulator, inter: IntermediateAllocator, x: seq<nat>, d: nat, t: nat, nott: nat)
    requires Ready(sim, inter) && |inter.free| >= 2 && 1 <= d <= |x|
    requires LiveReg(sim, inter, x) && Live(sim, inter, t) && Live(sim, inter, nott)
    requires Distinct(x) && t !in x && nott !in x && sim.memory[nott] == !sim.memory[t]
    modifies sim, inter
    ensures Ready(sim, inter) && inter.free == old(inter.free)
    ensures Kept(old(sim.memory), sim.memory, inter.free, x)
    ensures forall i {:trigger Bit(sim.memory, x[i])} | 0 <= i < |x| - d ::
              Bit(sim.memory, x[i]) == old(if sim.memory[t] then Bit(sim.memory, x[i + d]) else Bit(sim.memory, x[i]))
    ensures Same(old(sim.memory), sim.memory, x, |x| - d, |x|)
    ensures sim.latency == old(sim.latency) + 6 * (|x| - d)
  {
    ghost var m := sim.memory;
    for i := 0 to |x| - d
      invariant Ready(sim, inter) && inter.free == old(inter.free)
      invariant Kept(m, sim.memory, inter.free, x)
      invariant MuxedTo(m, sim.memory, x, d, m[t], i)
      invariant sim.latency == old(sim.latency) + 6 * i
    {
      hide Tracks, MuxedTo;
      ghost var m1 := sim.memory;
      MuxGiven(sim, inter, t, x[i + d], x[i], x[i], nott);
      MuxedNext(m, m1, sim.memory, inter.free, x, d, m[t], i);
    }
  }

  /** The top `d` cells are cleared by X-MAGIC when the shift bit is set. */
  method ClearTop(sim: SerialSimulator, x: seq<nat>, d: nat, t: nat)
    requires 1 <= d <= |x| && t < |sim.memory| && t !in x && Distinct(x)
    requires forall i | 0 <= i < |x| :: x[i] < |sim.memory|
    modifies sim
    ensures Kept(old(sim.memory), sim.memory, {}, x)
    ensures Same(old(sim.memory), sim.memory, x, 0, |x| - d)
    ensures forall i {:trigger Bit(sim.memory, x[i])} | |x| - d <= i < |x| ::
              Bit(sim.memory, x[i]) == old(if sim.memory[t] then 0 else Bit(sim.memory, x[i]))
    ensures sim.latency == old(sim.latency) + d
  {
    ghost var m := sim.memory;
    for i := |x| - d to |x|
      invariant Kept(m, sim.memory, {}, x)
      invariant Same(m, sim.memory, x, 0, |x| - d) && Same(m, sim.memory, x, i, |x|)
      invariant forall k {:trigger Bit(sim.memory, x[k])} | |x| - d <= k < i ::
                  Bit(sim.memory, x[k]) == if m[t] then 0 else Bit(m, x[k])
      invariant sim.latency == old(sim.latency) + i - (|x| - d)
    {
      ghost var m1 := sim.memory;
      sim.NotInto(t, x[i]);
      assert forall k {:trigger x[k]} | 0 <= k < |x| && k != i :: Bit(sim.memory, x[k]) == Bit(m1, x[k]);
    }
  }

  /** One stage of either shifter: a shift by `d` exactly when the bit in `t` is set. */
  method ShiftStage(sim: SerialSimulator, inter: IntermediateAllocator, x: seq<nat>, d: nat, t: nat, nott: nat)
    requires Ready(sim, inter) && |inter.free| >= 2 && 1 <= d <= |x|
    requires LiveReg(sim, inter, x) && Live(sim, inter, t) && Live(sim, inter, nott)
    requires Distinct(x) && t !in x && nott !in x && sim.memory[nott] == !sim.memory[t]
    modifies sim, inter
    ensures Ready(sim, inter) && inter.free == old(inter.free)
    ensures Kept(old(sim.memory), sim.memory, inter.free, x)
    ensures ShiftedBy(old(sim.memory), sim.memory, x, if old(sim.memory)[t] then d else 0)
    ensures sim.latency == old(sim.latency) + 6 * (|x| - d) + d
  {
    ghost var m := sim.memory;
    MuxStage(sim, inter, x, d, t, nott);
    ghost var m1 := sim.memory;
    ClearTop(sim, x, d, t);
    forall i | 0 <= i < |x|
      ensures Bit(sim.memory, x[i]) == if !m[t] then Bit(m, x[i]) else if i + d < |x| then Bit(m, x[i + d]) else 0
    {
      if i < |x| - d {
        assert Bit(sim.memory, x[i]) == Bit(m1, x[i]);
      }
    }
  }

  /** A shift of the list drops the low cells: a division, exact when they were zero. */
  lemma ShiftRightVal(m: seq<bool>, m': seq<bool>, x: seq<nat>, d: nat)
    requires ShiftedBy(m, m', x, d) && d <= |x|
    ensures Val(m', x) == Val(m, x) / Pow2(d) && Val(m, x) % Pow2(d) == ValN(m, x, d)
  {
    hide ValN, Pow2, ShiftedBy;
    ValDivMod(m, x, d);
    ShiftedLow(m, m', x, d);
    ValSplit(m', x, |x| - d, |x|);
    ShiftedHigh(m, m', x, d);
    MulZero(Pow2(|x| - d));
  }

  lemma ShiftedLow(m: seq<bool>, m': seq<bool>, x: seq<nat>, d: nat)
    requires ShiftedBy(m, m', x, d) && d <= |x|
    ensures ValN(m', x, |x| - d) == ValN(m, x[d..], |x| - d)
  {
    hide ValN, Bit;
    var lo := x[d..];
    assert forall i {:trigger lo[i]} | 0 <= i < |x| - d :: lo[i] == x[d + i];
    ValBits(m', x, m, lo, |x| - d);
  }

  lemma ShiftedHigh(m: seq<bool>, m': seq<bool>, x: seq<nat>, d: nat)
    requires ShiftedBy(m, m', x, d) && d <= |x|
    ensures ValN(m', x[|x| - d..], d) == 0
  {
    hide ValN, Bit;
    var hi := x[|x| - d..];
    assert forall i {:trigger hi[i]} | 0 <= i < d :: hi[i] == x[|x| - d + i];
    ValZero(m', hi, d);
  }

  /** Shifting out everything. */
  lemma ShiftOutVal(m: seq<bool>, m': seq<bool>, x: seq<nat>, d: nat)
    requires ShiftedBy(m, m', x, d) && d >= |x|
    ensures Val(m', x) == Val(m, x) / Pow2(d) && Val(m, x) % Pow2(d) == Val(m, x)
  {
    hide ValN, Pow2;
    ValZero(m', x, |x|);
    Pow2Mono(|x|, d);
    DivModUnique(Val(m, x), Pow2(d), 0, Val(m, x));
  }

  /** `np.flip`, which turns a left shift into a right shift. */
  function Reversed(x: seq<nat>): (r: seq<nat>)
    ensures |r| == |x| && forall i {:trigger r[i]} | 0 <= i < |x| :: r[i] == x[|x| - 1 - i]
  {
    seq(|x|, i requires 0 <= i < |x| => x[|x| - 1 - i])
  }

  /** Cell `i` of `x` holds what cell `i - d` held, zeros entering at the bottom. */
  ghost predicate MovedUp(m: seq<bool>, m': seq<bool>, x: seq<nat>, d: nat) {
    forall i {:trigger Bit(m', x[i])} | 0 <= i < |x| ::
      Bit(m', x[i]) == if i >= d then Bit(m, x[i - d]) else 0
  }

  lemma FlippedShift(m: seq<bool>, m': seq<bool>, x: seq<nat>, d: nat)
    requires ShiftedBy(m, m', Reversed(x), d)
    ensures MovedUp(m, m', x, d)
  {
    var n, r := |x|, Reversed(x);
    forall i {:trigger Bit(m', x[i])} | 0 <= i < n
      ensures Bit(m', x[i]) == if i >= d then Bit(m, x[i - d]) else 0
    {
      assert x[i] == r[n - 1 - i];
      if i >= d {
        assert x[i - d] == r[n - 1 - i + d];
      }
    }
  }

  /** Moving up multiplies, dropping what leaves at the top. */
  lemma ShiftLeftVal(m: seq<bool>, m': seq<bool>, x: seq<nat>, d: nat)
    requires MovedUp(m, m', x, d) && d <= |x|
    ensures Val(m', x) == Pow2(d) * ValN(m, x, |x| - d)
  {
    hide ValN, Pow2;
    var n, hi := |x|, x[d..];
    assert forall i {:trigger x[i]} | 0 <= i < d :: Bit(m', x[i]) == 0;
    ValZero(m', x, d);
    ValSplit(m', x, d, n);
    assert forall i {:trigger hi[i]} | 0 <= i < n - d :: hi[i] == x[d + i] && Bit(m', x[d + i]) == Bit(m, x[i]);
    ValBits(m', hi, m, x, n - d);
  }

  lemma ShiftLeftMod(m: seq<bool>, x: seq<nat>, d: nat)
    requires d <= |x|
    ensures (Pow2(d) * Val(m, x)) % Pow2(|x|) == Pow2(d) * ValN(m, x, |x| - d)
  {
    hide ValN, Pow2;
    var n, p, q := |x|, Pow2(d), Pow2(|x| - d);
    var lo, hi := ValN(m, x, n - d), ValN(m, x[n - d..], d);
    ValSplit(m, x, n - d, n);
    Pow2Add(d, n - d);
    MulAdd(p, lo, q * hi);
    MulAssoc(p, q, hi);
    MulLess(p, lo, q);
    DivModUnique(p * Val(m, x), Pow2(n), hi, p * lo);
  }

  /** Folds the `d` low cells into the sticky bit when the shift bit (complement in `nott`) is set. */
  method StickyStage(sim: SerialSimulator, inter: IntermediateAllocator, lost: seq<nat>, nott: nat, sticky: nat)
    requires Ready(sim, inter) && |inter.free| >= 2
    requires LiveReg(sim, inter, lost) && Live(sim, inter, nott) && Live(sim, inter, sticky)
    modifies sim, inter
    ensures Ready(sim, inter) && inter.free == old(inter.free)
    ensures Kept1(old(sim.memory), sim.memory, inter.free, sticky)
    ensures sim.memory[sticky] == old(sim.memory[sticky] || (!sim.memory[nott] && Val(sim.memory, lost) != 0))
    ensures sim.latency == old(sim.latency) + 8 + |lost|
  {
    hide Val;
    var o := inter.MallocCell();
    ReduceOr(sim, inter, lost, o);
    sim.NotInto(nott, o);
    Or(sim, inter, sticky, o, sticky);
    inter.FreeCell(o);
  }

  /** Some cell of `x[lo..hi]` is set. */
  ghost predicate AnySet(m: seq<bool>, x: seq<nat>, lo: nat, hi: nat) {
    exists i {:trigger Bit(m, x[i])} :: lo <= i < hi && i < |x| && Bit(m, x[i]) == 1
  }

  lemma AnySetShift(m: seq<bool>, m': seq<bool>, x: seq<nat>, a: nat, d: nat)
    requires ShiftedBy(m, m', x, a) && d <= |x|
    ensures AnySet(m, x, 0, a + d) <==> AnySet(m, x, 0, a) || Val(m', x[..d]) != 0
  {
    hide ValN;
    var lost := x[..d];
    ValZero(m', lost, d);
    if AnySet(m, x, 0, a + d) && !AnySet(m, x, 0, a) {
      var i :| 0 <= i < a + d && i < |x| && Bit(m, x[i]) == 1;
      assert lost[i - a] == x[i - a] && Bit(m', x[i - a]) == Bit(m, x[i - a + a]);
    }
    if Val(m', lost) != 0 {
      var i :| 0 <= i < d && Bit(m', lost[i]) != 0;
      assert lost[i] == x[i] && Bit(m', x[i]) == Bit(m, x[i + a]);
    }
  }

  function ShiftOutputs(x: seq<nat>, sticky: Option<nat>): seq<nat> {
    if sticky.Some? then x + [sticky.value] else x
  }

  /** The sticky bit and the shift of one stage, with the complement of the shift bit given. */
  method VariableGates(sim: SerialSimulator, inter: IntermediateAllocator, x: seq<nat>, d: nat, t: nat, nott: nat,
                       sticky: Option<nat>)
    requires Ready(sim, inter) && |inter.free| >= 2 && 1 <= d <= |x|
    requires LiveReg(sim, inter, x) && Live(sim, inter, t) && Distinct(x) && t !in x
    requires Live(sim, inter, nott) && nott !in x && sim.memory[nott] == !sim.memory[t]
    requires sticky.Some? ==>
              Live(sim, inter, sticky.value) && sticky.value !in x && sticky.value != t && sticky.value != nott
    modifies sim, inter
    ensures Ready(sim, inter) && inter.free == old(inter.free)
    ensures Kept(old(sim.memory), sim.memory, inter.free, ShiftOutputs(x, sticky))
    ensures ShiftedBy(old(sim.memory), sim.memory, x, if old(sim.memory)[t] then d else 0)
    ensures sticky.Some? ==>
              (sim.memory[sticky.value] <==>
               old(sim.memory[sticky.value] || (sim.memory[t] && Val(sim.memory, x[..d]) != 0)))
    ensures sim.latency == old(sim.latency) + 6 * |x| - 5 * d + (if sticky.Some? then 8 + d else 0)
  {
    hide Val, Tracks, ShiftedBy;
    ghost var m := sim.memory;
    if sticky.Some? {
      assert forall i {:trigger x[..d][i]} | 0 <= i < d :: x[..d][i] == x[i];
      StickyStage(sim, inter, x[..d], nott, sticky.value);
    }
    ghost var m1 := sim.memory;
    assert Same(m, m1, x, 0, |x|);
    ShiftStage(sim, inter, x, d, t, nott);
    ShiftSame(m, m1, sim.memory, x, if m[t] then d else 0);
  }

  /** One stage of __variableShift. */
  method VariableStage(sim: SerialSimulator, inter: IntermediateAllocator, x: seq<nat>, d: nat, t: nat,
                       sticky: Option<nat>)
    requires Ready(sim, inter) && |inter.free| >= 3 && 1 <= d <= |x|
    requires LiveReg(sim, inter, x) && Live(sim, inter, t) && Distinct(x) && t !in x
    requires sticky.Some? ==> Live(sim, inter, sticky.value) && sticky.value !in x && sticky.value != t
    modifies sim, inter
    ensures Ready(sim, inter) && inter.free == old(inter.free)
    ensures Kept(old(sim.memory), sim.memory, inter.free, ShiftOutputs(x, sticky))
    ensures ShiftedBy(old(sim.memory), sim.memory, x, if old(sim.memory)[t] then d else 0)
    ensures sticky.Some? ==>
              (sim.memory[sticky.value] <==>
               old(sim.memory[sticky.value] || (sim.memory[t] && Val(sim.memory, x[..d]) != 0)))
    ensures sim.latency == old(sim.latency) + 2 + 6 * |x| - 5 * d + (if sticky.Some? then 8 + d else 0)
  {
    hide Val, Tracks, ShiftedBy;
    ghost var m := sim.memory;
    var nott := inter.MallocCell();
    sim.Not(t, nott);
    ghost var m1 := sim.memory;
    assert Kept1(m, m1, {}, nott);
    ValKeptCell(m, m1, {}, nott, x[..d]);
    ValKeptCell(m, m1, {}, nott, x);
    VariableGates(sim, inter, x, d, t, nott, sticky);
    ShiftSame(m, m1, sim.memory, x, if m[t] then d else 0);
    inter.FreeCell(nott);
  }

  lemma ShiftSame(m: seq<bool>, m1: seq<bool>, m2: seq<bool>, x: seq<nat>, d: nat)
    requires Same(m, m1, x, 0, |x|) && ShiftedBy(m1, m2, x, d)
    ensures ShiftedBy(m, m2, x, d)
  {
    forall i {:trigger Bit(m2, x[i])} | 0 <= i < |x|
      ensures Bit(m2, x[i]) == if i + d < |x| then Bit(m, x[i + d]) else 0
    {
      if i + d < |x| {
        assert Bit(m1, x[i + d]) == Bit(m, x[i + d]);
      }
    }
  }

  /** What the stages keep: after `j` of them the list is shifted by the low `j` bits of `t`. */
  ghost predicate ShiftInv(m: seq<bool>, m': seq<bool>, f: set<nat>, x: seq<nat>, t: seq<nat>, j: nat,
                           sticky: Option<nat>)
    requires j <= |t|
  {
    && Kept(m, m', f, ShiftOutputs(x, sticky))
    && ShiftedBy(m, m', x, ValN(m, t, j))
    && (sticky.Some? ==> sticky.value < |m| == |m'| &&
                         (m'[sticky.value] <==> m[sticky.value] || AnySet(m, x, 0, ValN(m, t, j))))
  }

  lemma ShiftStep(m: seq<bool>, m1: seq<bool>, m2: seq<bool>, f: set<nat>, x: seq<nat>, t: seq<nat>, j: nat,
                  sticky: Option<nat>)
    requires j < |t| && t[j] < |m1| && Pow2(j) <= |x|
    requires ShiftInv(m, m1, f, x, t, j, sticky) && Bit(m1, t[j]) == Bit(m, t[j])
    requires Kept(m1, m2, f, ShiftOutputs(x, sticky))
    requires ShiftedBy(m1, m2, x, if m1[t[j]] then Pow2(j) else 0)
    requires sticky.Some? ==> (m2[sticky.value] <==> m1[sticky.value] || (m1[t[j]] && Val(m1, x[..Pow2(j)]) != 0))
    ensures ShiftInv(m, m2, f, x, t, j + 1, sticky)
  {
    hide Pow2, Val;
    var a, d := ValN(m, t, j), Pow2(j);
    ShiftTwice(m, m1, m2, x, a, if m1[t[j]] then d else 0);
    AnySetShift(m, m1, x, a, d);
  }

  /** Cycles of `j` stages on `nx` cells. */
  function ShiftCycles(nx: nat, j: nat, sticky: bool): int {
    if j == 0 then 0
    else ShiftCycles(nx, j - 1, sticky) + 2 + 6 * nx - 5 * Pow2(j - 1) + (if sticky then 8 + Pow2(j - 1) else 0)
  }

  lemma NextStage(j: int, a: int, p: int, c: int)
    ensures j * a + a == (j + 1) * a && c * (p - 1) + c * p == c * (2 * p - 1)
  {
  }

  lemma {:induction false} ShiftCyclesClosed(nx: nat, j: nat, sticky: bool)
    ensures ShiftCycles(nx, j, sticky) ==
            if sticky then j * (6 * nx + 10) - 4 * (Pow2(j) - 1) else j * (6 * nx + 2) - 5 * (Pow2(j) - 1)
  {
    if j > 0 {
      ShiftCyclesClosed(nx, j - 1, sticky);
      Pow2Next(j - 1);
      ShiftCyclesNext(nx, j - 1, sticky);
      hide ShiftCycles, Pow2;
      if sticky {
        NextStage(j - 1, 6 * nx + 10, Pow2(j - 1), 4);
      } else {
        NextStage(j - 1, 6 * nx + 2, Pow2(j - 1), 5);
      }
    }
  }

  lemma ShiftCyclesNext(nx: nat, j: nat, sticky: bool)
    ensures ShiftCycles(nx, j + 1, sticky) ==
            ShiftCycles(nx, j, sticky) + 2 + 6 * nx - 5 * Pow2(j) + (if sticky then 8 + Pow2(j) else 0)
  {
  }

  ghost predicate ShiftPre(sim: SerialSimulator, inter: IntermediateAllocator, x: seq<nat>, t: seq<nat>,
                           sticky: Option<nat>)
    reads sim, inter
  {
    && Ready(sim, inter) && |x| >= 1 && |t| <= CeilLog2(|x|)
    && LiveReg(sim, inter, x) && LiveReg(sim, inter, t) && Distinct(x) && Apart(t, x)
    && (sticky.Some? ==> Live(sim, inter, sticky.value) && sticky.value !in x && sticky.value !in t)
  }

  method ShiftLoopStep(sim: SerialSimulator, inter: IntermediateAllocator, x: seq<nat>, t: seq<nat>, j: nat,
                       sticky: Option<nat>, ghost m: seq<bool>)
    requires ShiftPre(sim, inter, x, t, sticky) && |inter.free| >= 3 && j < |t|
    requires ShiftInv(m, sim.memory, inter.free, x, t, j, sticky)
    modifies sim, inter
    ensures Ready(sim, inter) && inter.free == old(inter.free) && |sim.memory| == |old(sim.memory)|
    ensures ShiftInv(m, sim.memory, inter.free, x, t, j + 1, sticky)
    ensures sim.latency == old(sim.latency) + ShiftCycles(|x|, j + 1, sticky.Some?) - ShiftCycles(|x|, j, sticky.Some?)
  {
    hide ValN, Val, AnySet, Pow2;
    Pow2Mono(j, CeilLog2(|x|) - 1);
    ghost var m1 := sim.memory;
    assert t[j] !in ShiftOutputs(x, sticky);
    VariableStage(sim, inter, x, Pow2(j), t[j], sticky);
    ShiftStep(m, m1, sim.memory, inter.free, x, t, j, sticky);
  }

  lemma ShiftStart(m: seq<bool>, f: set<nat>, x: seq<nat>, t: seq<nat>, sticky: Option<nat>)
    requires sticky.Some? ==> sticky.value < |m|
    ensures ShiftInv(m, m, f, x, t, 0, sticky)
  {
  }

  /** The stages of __variableShift on a list already flipped for the direction. */
  method ShiftLoop(sim: SerialSimulator, inter: IntermediateAllocator, x: seq<nat>, t: seq<nat>, sticky: Option<nat>)
    requires ShiftPre(sim, inter, x, t, sticky) && |inter.free| >= 3
    modifies sim, inter
    ensures Ready(sim, inter) && inter.free == old(inter.free)
    ensures ShiftInv(old(sim.memory), sim.memory, inter.free, x, t, |t|, sticky)
    ensures sim.latency == old(sim.latency) + ShiftCycles(|x|, |t|, sticky.Some?)
  {
    hide ShiftInv, ShiftedBy;
    ghost var m := sim.memory;
    ShiftStart(m, inter.free, x, t, sticky);
    for j := 0 to |t|
      invariant Ready(sim, inter) && inter.free == old(inter.free) && |sim.memory| == |m|
      invariant ShiftInv(m, sim.memory, inter.free, x, t, j, sticky)
      invariant sim.latency == old(sim.latency) + ShiftCycles(|x|, j, sticky.Some?)
    {
      ShiftLoopStep(sim, inter, x, t, j, sticky, m);
    }
  }

  lemma ShiftRightAll(m: seq<bool>, m': seq<bool>, x: seq<nat>, d: nat)
    requires ShiftedBy(m, m', x, d)
    ensures Val(m', x) == Val(m, x) / Pow2(d)
    ensures AnySet(m, x, 0, d) <==> Val(m, x) % Pow2(d) != 0
  {
    hide ValN, Pow2;
    var k := if d <= |x| then d else |x|;
    ValZero(m, x, k);
    assert AnySet(m, x, 0, d) <==> ValN(m, x, k) != 0 by {
      if ValN(m, x, k) != 0 {
        var i :| 0 <= i < k && Bit(m, x[i]) != 0;
      }
    }
    if d <= |x| {
      ShiftRightVal(m, m', x, d);
    } else {
      ShiftOutVal(m, m', x, d);
    }
  }

  /** __variableShift to the right: the quotient, with what was lost ORed into the sticky bit. */
  method VariableShiftRight(sim: SerialSimulator, inter: IntermediateAllocator, x: seq<nat>, t: seq<nat>,
                            sticky: Option<nat>)
    requires ShiftPre(sim, inter, x, t, sticky) && |inter.free| >= 3
    modifies sim, inter
    ensures Ready(sim, inter) && inter.free == old(inter.free)
    ensures Kept(old(sim.memory), sim.memory, inter.free, if sticky.Some? then x + [sticky.value] else x)
    ensures Val(sim.memory, x) == old(Val(sim.memory, x) / Pow2(Val(sim.memory, t)))
    ensures sticky.Some? ==>
              (sim.memory[sticky.value] <==>
               old(sim.memory[sticky.value] || Val(sim.memory, x) % Pow2(Val(sim.memory, t)) != 0))
    ensures sim.latency == old(sim.latency) +
              if sticky.Some? then |t| * (6 * |x| + 10) - 4 * (Pow2(|t|) - 1)
              else |t| * (6 * |x| + 2) - 5 * (Pow2(|t|) - 1)
  {
    hide ValN, Pow2, ShiftedBy, AnySet;
    ShiftLoop(sim, inter, x, t, sticky);
    ShiftRightAll(old(sim.memory), sim.memory, x, old(Val(sim.memory, t)));
    ShiftCyclesClosed(|x|, |t|, sticky.Some?);
  }

  lemma ReversedCells(x: seq<nat>)
    ensures forall c :: c in Reversed(x) <==> c in x
    ensures Distinct(x) ==> Distinct(Reversed(x))
  {
    var r := Reversed(x);
    forall c
      ensures c in r <==> c in x
    {
      if c in x {
        var i :| 0 <= i < |x| && x[i] == c;
        assert r[|x| - 1 - i] == c;
      }
    }
  }

  lemma MulPow2Mod(v: int, d: nat, n: nat)
    requires d >= n
    ensures (Pow2(d) * v) % Pow2(n) == 0
  {
    hide Pow2;
    Pow2Add(d - n, n);
    MulAssoc(v, Pow2(d - n), Pow2(n));
    DivModUnique(Pow2(d) * v, Pow2(n), v * Pow2(d - n), 0);
  }

  lemma ShiftLeftAll(m: seq<bool>, m': seq<bool>, x: seq<nat>, d: nat)
    requires ShiftedBy(m, m', Reversed(x), d)
    ensures Val(m', x) == (Pow2(d) * Val(m, x)) % Pow2(|x|)
  {
    hide ValN, Pow2;
    FlippedShift(m, m', x, d);
    if d <= |x| {
      ShiftLeftVal(m, m', x, d);
      ShiftLeftMod(m, x, d);
    } else {
      assert forall i {:trigger x[i]} | 0 <= i < |x| :: Bit(m', x[i]) == 0;
      ValZero(m', x, |x|);
      MulPow2Mod(Val(m, x), d, |x|);
    }
  }

  /** What leaves at the top of a left shift are the first cells of the flipped list. */
  lemma LostTop(m: seq<bool>, x: seq<nat>, d: nat)
    requires d <= |x|
    ensures AnySet(m, Reversed(x), 0, d) <==> ValN(m, x[|x| - d..], d) != 0
  {
    hide ValN, Bit;
    var hi := x[|x| - d..];
    ValZero(m, hi, d);
    if AnySet(m, Reversed(x), 0, d) {
      var i :| 0 <= i < d && i < |x| && Bit(m, Reversed(x)[i]) == 1;
      TopCell(x, d, i);
    }
    if ValN(m, hi, d) != 0 {
      var i :| 0 <= i < d && Bit(m, hi[i]) != 0;
      TopCell(x, d, d - 1 - i);
    }
  }

  /** Cell `i` of the flipped list among the top `d` cells. */
  lemma TopCell(x: seq<nat>, d: nat, i: nat)
    requires i < d <= |x|
    ensures Reversed(x)[i] == x[|x| - d..][d - 1 - i]
  {
  }

  /** A left shift loses something exactly when the product does not fit. */
  lemma LostLeft(m: seq<bool>, x: seq<nat>, d: nat)
    ensures AnySet(m, Reversed(x), 0, d) <==> Pow2(d) * Val(m, x) >= Pow2(|x|)
  {
    hide ValN, Pow2;
    if d <= |x| {
      hide AnySet;
      LostWithin(m, x, d);
    } else {
      assert AnySet(m, Reversed(x), 0, d) <==> AnySet(m, Reversed(x), 0, |x|);
      LostWithin(m, x, |x|);
      FarShift(m, x, d);
    }
  }

  lemma LostWithin(m: seq<bool>, x: seq<nat>, d: nat)
    requires d <= |x|
    ensures AnySet(m, Reversed(x), 0, d) <==> Pow2(d) * Val(m, x) >= Pow2(|x|)
  {
    hide ValN, Pow2, AnySet;
    var k := |x| - d;
    LostTop(m, x, d);
    ValSplit(m, x, k, |x|);
    Pow2Add(d, k);
    Overflows(Pow2(d), Pow2(k), ValN(m, x, k), ValN(m, x[k..], d));
  }

  lemma Overflows(p: nat, q: nat, lo: nat, hi: nat)
    requires p >= 1 && lo < q
    ensures hi != 0 <==> p * (lo + q * hi) >= p * q
  {
    if hi == 0 {
      MulLess(p, lo, q);
    } else {
      MulMono(q, 1, hi);
      MulMono(p, q, lo + q * hi);
    }
  }

  /** A shift by more than the width loses everything. */
  lemma FarShift(m: seq<bool>, x: seq<nat>, d: nat)
    requires d > |x|
    ensures Pow2(|x|) * Val(m, x) >= Pow2(|x|) <==> Pow2(d) * Val(m, x) >= Pow2(|x|)
  {
    hide ValN, Pow2;
    Pow2Mono(|x|, d);
    var v := Val(m, x);
    if v >= 1 {
      MulMono(Pow2(|x|), 1, v);
      MulMono(Pow2(d), 1, v);
    }
  }

  /** The shifted flipped list read in its own order. */
  lemma ShiftedLeft(m: seq<bool>, m': seq<bool>, f: set<nat>, x: seq<nat>, t: seq<nat>, sticky: Option<nat>)
    requires ShiftInv(m, m', f, Reversed(x), t, |t|, sticky)
    ensures Kept(m, m', f, ShiftOutputs(x, sticky))
    ensures Val(m', x) == (Pow2(Val(m, t)) * Val(m, x)) % Pow2(|x|)
    ensures sticky.Some? ==> sticky.value < |m| == |m'|
    ensures sticky.Some? ==> (m'[sticky.value] <==> m[sticky.value] || Pow2(Val(m, t)) * Val(m, x) >= Pow2(|x|))
  {
    hide Pow2, ValN, ShiftedBy, AnySet;
    ReversedCells(x);
    ShiftLeftAll(m, m', x, Val(m, t));
    LostLeft(m, x, Val(m, t));
  }

  /** The stages on the flipped list. */
  method ShiftLeftLoop(sim: SerialSimulator, inter: IntermediateAllocator, x: seq<nat>, t: seq<nat>,
                       sticky: Option<nat>)
    requires ShiftPre(sim, inter, x, t, sticky) && |inter.free| >= 3
    modifies sim, inter
    ensures Ready(sim, inter) && inter.free == old(inter.free)
    ensures Kept(old(sim.memory), sim.memory, inter.free, ShiftOutputs(x, sticky))
    ensures Val(sim.memory, x) == old(Pow2(Val(sim.memory, t)) * Val(sim.memory, x)) % Pow2(|x|)
    ensures sticky.Some? ==>
              (sim.memory[sticky.value] <==>
               old(sim.memory[sticky.value] || Pow2(Val(sim.memory, t)) * Val(sim.memory, x) >= Pow2(|x|)))
    ensures sim.latency == old(sim.latency) + ShiftCycles(|x|, |t|, sticky.Some?)
  {
    hide Val, Pow2, ShiftInv, ShiftCycles;
    ReversedCells(x);
    ShiftLoop(sim, inter, Reversed(x), t, sticky);
    ShiftedLeft(old(sim.memory), sim.memory, inter.free, x, t, sticky);
  }

  /** __variableShift to the left: the product, with what leaves at the top ORed into the sticky bit. */
  method VariableShiftLeft(sim: SerialSimulator, inter: IntermediateAllocator, x: seq<nat>, t: seq<nat>,
                           sticky: Option<nat>)
    requires ShiftPre(sim, inter, x, t, sticky) && |inter.free| >= 3
    modifies sim, inter
    ensures Ready(sim, inter) && inter.free == old(inter.free)
    ensures Kept(old(sim.memory), sim.memory, inter.free, if sticky.Some? then x + [sticky.value] else x)
    ensures Val(sim.memory, x) == old(Pow2(Val(sim.memory, t)) * Val(sim.memory, x)) % Pow2(|x|)
    ensures sticky.Some? ==>
              (sim.memory[sticky.value] <==>
               old(sim.memory[sticky.value] || Pow2(Val(sim.memory, t)) * Val(sim.memory, x) >= Pow2(|x|)))
    ensures sim.latency == old(sim.latency) +
              if sticky.Some? then |t| * (6 * |x| + 10) - 4 * (Pow2(|t|) - 1)
              else |t| * (6 * |x| + 2) - 5 * (Pow2(|t|) - 1)
  {
    hide Val, Pow2, ShiftCycles, ShiftPre, Ready;
    ShiftLeftLoop(sim, inter, x, t, sticky);
    ShiftCyclesClosed(|x|, |t|, sticky.Some?);
  }

  /** The part of `t` above position `j`, which __normalizeShift has settled. */
  function HighVal(m: seq<bool>, t: seq<nat>, j: nat): nat
    requires j <= |t|
    decreases |t| - j
  {
    if j == |t| then 0 else HighVal(m, t, j + 1) + (if Bit(m, t[j]) == 1 then Pow2(j) else 0)
  }

  lemma {:induction false} HighValAll(m: seq<bool>, t: seq<nat>, j: nat)
    requires j <= |t|
    ensures ValN(m, t, j) + HighVal(m, t, j) == Val(m, t)
    decreases |t| - j
  {
    if j < |t| {
      HighValAll(m, t, j + 1);
    }
  }

  lemma {:induction false} HighValSame(m: seq<bool>, m': seq<bool>, t: seq<nat>, j: nat)
    requires j <= |t| && Same(m, m', t, j, |t|)
    ensures HighVal(m', t, j) == HighVal(m, t, j)
    decreases |t| - j
  {
    if j < |t| {
      HighValSame(m, m', t, j + 1);
    }
  }

  /** One stage of __normalizeShift: the shift bit is the NOR of the low `d` cells. */
  method NormalizeStage(sim: SerialSimulator, inter: IntermediateAllocator, x: seq<nat>, d: nat, t: nat)
    requires Ready(sim, inter) && |inter.free| >= 3 && 1 <= d <= |x|
    requires LiveReg(sim, inter, x) && Live(sim, inter, t) && Distinct(x) && t !in x
    modifies sim, inter
    ensures Ready(sim, inter) && inter.free == old(inter.free)
    ensures Kept(old(sim.memory), sim.memory, inter.free, x + [t])
    ensures sim.memory[t] <==> Val(old(sim.memory), x[..d]) == 0
    ensures ShiftedBy(old(sim.memory), sim.memory, x, if sim.memory[t] then d else 0)
    ensures sim.latency == old(sim.latency) + 3 + 6 * |x| - 4 * d
  {
    hide Val, ShiftedBy;
    ghost var m := sim.memory;
    var nott := inter.MallocCell();
    var low := x[..d];
    assert forall i {:trigger low[i]} | 0 <= i < d :: low[i] == x[i];
    ReduceOrInto(sim, low, nott, t);
    ghost var m1 := sim.memory;
    assert Same(m, m1, x, 0, |x|);
    ShiftStage(sim, inter, x, d, t, nott);
    ShiftSame(m, m1, sim.memory, x, if m1[t] then d else 0);
    inter.FreeCell(nott);
  }

  /** What the stages keep: nothing set has been shifted out, and the lowest set cell, if any,
      is within the next `2^j` cells. */
  ghost predicate NormInv(m: seq<bool>, m': seq<bool>, f: set<nat>, x: seq<nat>, t: seq<nat>, j: nat)
    requires j <= |t|
  {
    && Kept(m, m', f, x + t)
    && ShiftedBy(m, m', x, HighVal(m', t, j))
    && !AnySet(m, x, 0, HighVal(m', t, j))
    && (AnySet(m, x, 0, |x|) ==> AnySet(m, x, HighVal(m', t, j), HighVal(m', t, j) + Pow2(j)))
  }

  lemma NormNext(m: seq<bool>, x: seq<nat>, h: nat, d: nat, zero: bool)
    requires !AnySet(m, x, 0, h) && (AnySet(m, x, 0, |x|) ==> AnySet(m, x, h, h + 2 * d))
    requires zero <==> !AnySet(m, x, 0, h + d)
    ensures zero ==> (AnySet(m, x, 0, |x|) ==> AnySet(m, x, h + d, h + d + d))
    ensures !zero ==> AnySet(m, x, h, h + d)
  {
    if zero && AnySet(m, x, 0, |x|) {
      var i :| h <= i < h + 2 * d && i < |x| && Bit(m, x[i]) == 1;
    }
    if !zero {
      var i :| 0 <= i < h + d && i < |x| && Bit(m, x[i]) == 1;
    }
  }

  lemma HighValStep(m: seq<bool>, t: seq<nat>, j: nat)
    requires j < |t| && t[j] < |m|
    ensures HighVal(m, t, j) == HighVal(m, t, j + 1) + if m[t[j]] then Pow2(j) else 0
  {
  }

  lemma NormStep(m: seq<bool>, m1: seq<bool>, m2: seq<bool>, f: set<nat>, x: seq<nat>, t: seq<nat>, j: nat)
    requires j < |t| && Pow2(j) <= |x| && t[j] < |m2|
    requires NormInv(m, m1, f, x, t, j + 1) && Same(m1, m2, t, j + 1, |t|)
    requires Kept(m1, m2, f, x + [t[j]])
    requires m2[t[j]] <==> Val(m1, x[..Pow2(j)]) == 0
    requires ShiftedBy(m1, m2, x, if m2[t[j]] then Pow2(j) else 0)
    ensures NormInv(m, m2, f, x, t, j)
  {
    hide Val, ShiftedBy, AnySet, Pow2, HighVal;
    var h, d := HighVal(m1, t, j + 1), Pow2(j);
    Pow2Next(j);
    HighValSame(m1, m2, t, j + 1);
    ShiftTwice(m, m1, m2, x, h, if m2[t[j]] then d else 0);
    AnySetShift(m, m1, x, h, d);
    NormNext(m, x, h, d, m2[t[j]]);
    HighValStep(m2, t, j);
  }

  function NormCycles(nx: nat, nt: nat, j: nat): int
    requires j <= nt
    decreases nt - j
  {
    if j == nt then 0 else NormCycles(nx, nt, j + 1) + 3 + 6 * nx - 4 * Pow2(j)
  }

  lemma {:induction false} NormCyclesClosed(nx: nat, nt: nat, j: nat)
    requires j <= nt
    ensures NormCycles(nx, nt, j) == (nt - j) * (6 * nx + 3) - 4 * (Pow2(nt) - Pow2(j))
    decreases nt - j
  {
    if j < nt {
      NormCyclesClosed(nx, nt, j + 1);
      MulAdd(6 * nx + 3, nt - j - 1, 1);
    }
  }

  method NormalizeStep(sim: SerialSimulator, inter: IntermediateAllocator, x: seq<nat>, t: seq<nat>, j: nat,
                       ghost m: seq<bool>)
    requires ShiftPre(sim, inter, x, t, None) && |inter.free| >= 3 && j < |t| && Distinct(t)
    requires NormInv(m, sim.memory, inter.free, x, t, j + 1)
    modifies sim, inter
    ensures Ready(sim, inter) && inter.free == old(inter.free) && |sim.memory| == |old(sim.memory)|
    ensures NormInv(m, sim.memory, inter.free, x, t, j)
    ensures sim.latency == old(sim.latency) + 3 + 6 * |x| - 4 * Pow2(j)
  {
    hide NormInv, Val, ShiftedBy;
    Pow2Mono(j, CeilLog2(|x|) - 1);
    ghost var m1 := sim.memory;
    assert t[j] !in x;
    NormalizeStage(sim, inter, x, Pow2(j), t[j]);
    assert Same(m1, sim.memory, t, j + 1, |t|);
    NormStep(m, m1, sim.memory, inter.free, x, t, j);
  }

  lemma NormStart(m: seq<bool>, f: set<nat>, x: seq<nat>, t: seq<nat>)
    requires |x| <= Pow2(|t|)
    ensures NormInv(m, m, f, x, t, |t|)
  {
    assert AnySet(m, x, 0, |x|) ==> AnySet(m, x, 0, Pow2(|t|));
  }

  /** The stages of __normalizeShift. */
  method NormalizeLoop(sim: SerialSimulator, inter: IntermediateAllocator, x: seq<nat>, t: seq<nat>)
    requires ShiftPre(sim, inter, x, t, None) && |inter.free| >= 3 && Distinct(t) && |t| == CeilLog2(|x|)
    modifies sim, inter
    ensures Ready(sim, inter) && inter.free == old(inter.free)
    ensures NormInv(old(sim.memory), sim.memory, inter.free, x, t, 0)
    ensures |sim.memory| == |old(sim.memory)|
    ensures sim.latency == old(sim.latency) + NormCycles(|x|, |t|, 0)
  {
    hide NormInv;
    ghost var m := sim.memory;
    NormStart(m, inter.free, x, t);
    for j := |t| downto 0
      invariant Ready(sim, inter) && inter.free == old(inter.free) && |sim.memory| == |m|
      invariant NormInv(m, sim.memory, inter.free, x, t, j)
      invariant sim.latency == old(sim.latency) + NormCycles(|x|, |t|, j)
    {
      NormalizeStep(sim, inter, x, t, j, m);
    }
  }

  /** After the stages the lowest cell tells whether anything was set, and then the shift found the lowest set cell. */
  lemma NormResult(m: seq<bool>, m': seq<bool>, f: set<nat>, x: seq<nat>, t: seq<nat>)
    requires |x| >= 1 && NormInv(m, m', f, x, t, 0)
    ensures Bit(m', x[0]) == 1 <==> AnySet(m, x, 0, |x|)
    ensures Bit(m', x[0]) == 1 ==> Val(m', t) < |x| && Bit(m, x[Val(m', t)]) == 1 && !AnySet(m, x, 0, Val(m', t))
    ensures ShiftedBy(m, m', x, Val(m', t))
  {
    HighValAll(m', t, 0);
    var h := HighVal(m', t, 0);
    assert Bit(m', x[0]) == if 0 + h < |x| then Bit(m, x[0 + h]) else 0;
  }

  /** The end of __normalizeShift: a list without ones reports a shift of zero. */
  method GateShiftAmount(sim: SerialSimulator, inter: IntermediateAllocator, lsb: nat, t: seq<nat>)
    requires Ready(sim, inter) && |inter.free| >= 1
    requires Live(sim, inter, lsb) && LiveReg(sim, inter, t) && Distinct(t)
    modifies sim, inter
    ensures Ready(sim, inter) && inter.free == old(inter.free)
    ensures Kept(old(sim.memory), sim.memory, inter.free, t)
    ensures Val(sim.memory, t) == old(if sim.memory[lsb] then Val(sim.memory, t) else 0)
    ensures sim.latency == old(sim.latency) + 2 + |t|
  {
    hide ValN;
    ghost var m := sim.memory;
    var nlsb := inter.MallocCell();
    sim.Not(lsb, nlsb);
    for i := 0 to |t|
      invariant Ready(sim, inter) && inter.free == old(inter.free) - {nlsb}
      invariant Kept(m, sim.memory, old(inter.free), t) && nlsb < |sim.memory| && sim.memory[nlsb] == !m[lsb]
      invariant Same(m, sim.memory, t, i, |t|)
      invariant forall k {:trigger Bit(sim.memory, t[k])} | 0 <= k < i ::
                  Bit(sim.memory, t[k]) == if m[lsb] then Bit(m, t[k]) else 0
      invariant sim.latency == old(sim.latency) + 2 + i
    {
      ghost var m1 := sim.memory;
      sim.NotInto(nlsb, t[i]);
      assert forall k {:trigger t[k]} | 0 <= k < |t| && k != i :: Bit(sim.memory, t[k]) == Bit(m1, t[k]);
    }
    if m[lsb] {
      ValSame(m, sim.memory, t, |t|);
    } else {
      ValZero(sim.memory, t, |t|);
    }
    inter.FreeCell(nlsb);
  }

  /** What __normalizeShift promises about the list, bit by bit: shifted down to its lowest set cell. */
  ghost predicate Normalized(m: seq<bool>, m': seq<bool>, x: seq<nat>, t: seq<nat>) {
    if AnySet(m, x, 0, |x|) then
      var h := Val(m', t);
      h < |x| && Bit(m, x[h]) == 1 && !AnySet(m, x, 0, h) && ShiftedBy(m, m', x, h)
    else Val(m', t) == 0 && !AnySet(m', x, 0, |x|)
  }

  lemma NormFinish(m: seq<bool>, m1: seq<bool>, m2: seq<bool>, f: set<nat>, x: seq<nat>, t: seq<nat>)
    requires |x| >= 1 && NormInv(m, m1, f, x, t, 0) && Same(m1, m2, x, 0, |x|)
    requires Val(m2, t) == if Bit(m1, x[0]) == 1 then Val(m1, t) else 0
    ensures Normalized(m, m2, x, t)
  {
    hide Val, NormInv;
    NormResult(m, m1, f, x, t);
    var h := Val(m1, t);
    forall i {:trigger Bit(m2, x[i])} | 0 <= i < |x|
      ensures Bit(m2, x[i]) == if i + h < |x| then Bit(m, x[i + h]) else 0
    {
      assert Bit(m2, x[i]) == Bit(m1, x[i]);
    }
  }

  /** __normalizeShift on a list already flipped for the direction. */
  method NormalizeShift(sim: SerialSimulator, inter: IntermediateAllocator, x: seq<nat>, t: seq<nat>)
    requires ShiftPre(sim, inter, x, t, None) && |inter.free| >= 3 && Distinct(t) && |t| == CeilLog2(|x|)
    modifies sim, inter
    ensures Ready(sim, inter) && inter.free == old(inter.free)
    ensures Kept(old(sim.memory), sim.memory, inter.free, x + t)
    ensures Normalized(old(sim.memory), sim.memory, x, t)
    ensures sim.latency == old(sim.latency) + |t| * (6 * |x| + 4) - 4 * Pow2(|t|) + 6
  {
    assert Pow2(0) == 1;
    hide Val, ShiftedBy, AnySet, Normalized, Pow2;
    ghost var m := sim.memory;
    NormalizeLoop(sim, inter, x, t);
    ghost var m1 := sim.memory;
    GateShiftAmount(sim, inter, x[0], t);
    assert Same(m1, sim.memory, x, 0, |x|);
    NormFinish(m, m1, sim.memory, inter.free, x, t);
    NormCyclesClosed(|x|, |t|, 0);
    MulAdd(|t|, 6 * |x| + 3, 1);
  }

  lemma AnySetVal(m: seq<bool>, x: seq<nat>)
    ensures AnySet(m, x, 0, |x|) <==> Val(m, x) != 0
    ensures AnySet(m, Reversed(x), 0, |x|) <==> Val(m, x) != 0
  {
    hide ValN;
    ValZero(m, x, |x|);
    var r := Reversed(x);
    if i :| 0 <= i < |x| && Bit(m, x[i]) == 1 {
      assert r[|x| - 1 - i] == x[i];
    }
  }

  /** `h` leading zeros above a set bit. */
  lemma LeadingZeros(m: seq<bool>, x: seq<nat>, h: nat)
    requires h < |x| && !AnySet(m, Reversed(x), 0, h) && Bit(m, Reversed(x)[h]) == 1
    ensures Val(m, x) == ValN(m, x, |x| - h) && ValN(m, x, |x| - h) >= Pow2(|x| - h - 1)
  {
    hide ValN, Pow2;
    var n, r := |x|, Reversed(x);
    var hi := x[n - h..];
    ValSplit(m, x, n - h, n);
    forall i | 0 <= i < h
      ensures Bit(m, hi[i]) == 0
    {
      assert hi[i] == r[h - 1 - i];
    }
    ValZero(m, hi, h);
    assert ValN(m, hi, h) == 0;
    TopBit(m, x, n - h);
  }

  /** Normalising the flipped list multiplies by the power of two that sets the top bit. */
  lemma NormalizedLeft(m: seq<bool>, m': seq<bool>, x: seq<nat>, t: seq<nat>)
    requires |x| >= 1 && Normalized(m, m', Reversed(x), t) && Val(m, x) != 0
    ensures Val(m', t) < |x| && Val(m', x) == Pow2(Val(m', t)) * Val(m, x) && Val(m', x) >= Pow2(|x| - 1)
  {
    hide ValN, Pow2, ShiftedBy, Val, AnySet;
    AnySetVal(m, x);
    var n, h := |x|, Val(m', t);
    FlippedShift(m, m', x, h);
    ShiftLeftVal(m, m', x, h);
    LeadingZeros(m, x, h);
    Pow2Add(h, n - h - 1);
    MulMono(Pow2(h), Pow2(n - h - 1), ValN(m, x, n - h));
  }

  lemma TopBit(m: seq<bool>, x: seq<nat>, n: nat)
    requires 1 <= n <= |x| && Bit(m, x[n - 1]) == 1
    ensures ValN(m, x, n) >= Pow2(n - 1)
  {
  }

  /** Normalising to the right divides out the largest power of two. */
  lemma NormalizedRight(m: seq<bool>, m': seq<bool>, x: seq<nat>, t: seq<nat>)
    requires |x| >= 1 && Normalized(m, m', x, t) && Val(m, x) != 0
    ensures Val(m, x) == Pow2(Val(m', t)) * Val(m', x) && Bit(m', x[0]) == 1
  {
    hide ValN, Pow2;
    AnySetVal(m, x);
    var h := Val(m', t);
    ShiftRightVal(m, m', x, h);
    ValZero(m, x, h);
    assert Bit(m', x[0]) == Bit(m, x[0 + h]);
  }

  /** __normalizeShift with direction=True, as the signed float addition uses it. */
  method NormalizeShiftLeft(sim: SerialSimulator, inter: IntermediateAllocator, x: seq<nat>, t: seq<nat>)
    requires ShiftPre(sim, inter, x, t, None) && |inter.free| >= 3 && Distinct(t) && |t| == CeilLog2(|x|)
    modifies sim, inter
    ensures Ready(sim, inter) && inter.free == old(inter.free)
    ensures Kept(old(sim.memory), sim.memory, inter.free, x + t)
    ensures old(Val(sim.memory, x)) == 0 ==> Val(sim.memory, x) == 0 && Val(sim.memory, t) == 0
    ensures old(Val(sim.memory, x)) != 0 ==>
              && Val(sim.memory, t) < |x|
              && Val(sim.memory, x) == Pow2(Val(sim.memory, t)) * old(Val(sim.memory, x))
              && Val(sim.memory, x) >= Pow2(|x| - 1)
    ensures sim.latency == old(sim.latency) + |t| * (6 * |x| + 4) - 4 * Pow2(|t|) + 6
  {
    hide Val, ShiftedBy, AnySet, Pow2, HighVal;
    ReversedCells(x);
    NormalizeShift(sim, inter, Reversed(x), t);
    AnySetVal(old(sim.memory), x);
    AnySetVal(sim.memory, x);
    if old(Val(sim.memory, x)) != 0 {
      NormalizedLeft(old(sim.memory), sim.memory, x, t);
    }
  }

  /** __normalizeShift with direction=False. */
  method NormalizeShiftRight(sim: SerialSimulator, inter: IntermediateAllocator, x: seq<nat>, t: seq<nat>)
    requires ShiftPre(sim, inter, x, t, None) && |inter.free| >= 3 && Distinct(t) && |t| == CeilLog2(|x|)
    modifies sim, inter
    ensures Ready(sim, inter) && inter.free == old(inter.free)
    ensures Kept(old(sim.memory), sim.memory, inter.free, x + t)
    ensures old(Val(sim.memory, x)) == 0 ==> Val(sim.memory, x) == 0 && Val(sim.memory, t) == 0
    ensures old(Val(sim.memory, x)) != 0 ==>
              old(Val(sim.memory, x)) == Pow2(Val(sim.memory, t)) * Val(sim.memory, x) && Bit(sim.memory, x[0]) == 1
    ensures sim.latency == old(sim.latency) + |t| * (6 * |x| + 4) - 4 * Pow2(|t|) + 6
  {
    hide Val, ShiftedBy, AnySet, Pow2, HighVal;
    NormalizeShift(sim, inter, x, t);
    AnySetVal(old(sim.memory), x);
    AnySetVal(sim.memory, x);
    if old(Val(sim.memory, x)) != 0 {
      NormalizedRight(old(sim.memory), sim.memory, x, t);
    }
  }
}
