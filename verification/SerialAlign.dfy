/** The steps that floatingAdditionUnsigned and floatingAdditionSigned share: the exponent difference, the
    conditional swap, the alignment of the smaller significand, and the final increment of the exponent. */
module SerialAlign {
  import opened Numbers
  import opened Simulator
  import opened Allocator
  import opened Cells
  import opened SerialGates
  import opened SerialFixed
  import opened SerialShift
  import opened SerialFloat
  import opened AddSteps

  /** The first `i` cells of `z` hold the bits of `from`. */
  ghost predicate CopiedTo(m: seq<bool>, from: seq<nat>, m': seq<bool>, z: seq<nat>, i: nat)
    requires i <= |z| == |from|
  {
    forall k {:trigger Bit(m', z[k])} | 0 <= k < i :: Bit(m', z[k]) == Bit(m, from[k])
  }

  lemma CopiedNext(m: seq<bool>, from: seq<nat>, m1: seq<bool>, m2: seq<bool>, f: set<nat>, z: seq<nat>, i: nat)
    requires i < |z| == |from| && CopiedTo(m, from, m1, z, i) && Distinct(z) && forall k | 0 <= k < |z| :: z[k] !in f
    requires Kept1(m1, m2, f, z[i]) && Bit(m2, z[i]) == Bit(m, from[i])
    ensures CopiedTo(m, from, m2, z, i + 1)
  {
    forall k | 0 <= k < i
      ensures Bit(m2, z[k]) == Bit(m, from[k])
    {
      assert Bit(m1, z[k]) == Bit(m, from[k]);
    }
  }

  /** One mux of two words, neither of which has been written yet. */
  method MuxCell(sim: SerialSimulator, inter: IntermediateAllocator, sel: nat, nsel: nat, b: seq<nat>, c: seq<nat>,
                 z: seq<nat>, i: nat, ghost m: seq<bool>)
    requires Ready(sim, inter) && |inter.free| >= 2 && i < |b| == |c| == |z|
    requires LiveReg(sim, inter, b) && LiveReg(sim, inter, c) && LiveReg(sim, inter, z) && Distinct(z)
    requires Live(sim, inter, sel) && Live(sim, inter, nsel) && sim.memory[nsel] == !sim.memory[sel]
    requires Apart(b, z) && Apart(c, z) && sel !in z && nsel !in z && nsel !in b && sel !in c
    requires Kept(m, sim.memory, inter.free, z) && CopiedTo(m, if m[sel] then b else c, sim.memory, z, i)
    modifies sim, inter
    ensures Ready(sim, inter) && inter.free == old(inter.free) && Kept1(old(sim.memory), sim.memory, inter.free, z[i])
    ensures Kept(m, sim.memory, inter.free, z) && CopiedTo(m, if m[sel] then b else c, sim.memory, z, i + 1)
    ensures sim.latency == old(sim.latency) + 6
  {
    hide Tracks, CopiedTo;
    ghost var m1 := sim.memory;
    assert Bit(m1, b[i]) == Bit(m, b[i]) && Bit(m1, c[i]) == Bit(m, c[i]);
    MuxGiven(sim, inter, sel, b[i], c[i], z[i], nsel);
    CopiedNext(m, if m[sel] then b else c, m1, sim.memory, inter.free, z, i);
  }

  /** A word-wide multiplexer. */
  method MuxWords(sim: SerialSimulator, inter: IntermediateAllocator, sel: nat, nsel: nat, b: seq<nat>, c: seq<nat>,
                  z: seq<nat>)
    requires Ready(sim, inter) && |inter.free| >= 2 && |b| == |c| == |z|
    requires LiveReg(sim, inter, b) && LiveReg(sim, inter, c) && LiveReg(sim, inter, z) && Distinct(z)
    requires Live(sim, inter, sel) && Live(sim, inter, nsel) && sim.memory[nsel] == !sim.memory[sel]
    requires Apart(b, z) && Apart(c, z) && sel !in z && nsel !in z && nsel !in b && sel !in c
    modifies sim, inter
    ensures Ready(sim, inter) && inter.free == old(inter.free)
    ensures Kept(old(sim.memory), sim.memory, inter.free, z)
    ensures Val(sim.memory, z) == if old(sim.memory[sel]) then old(Val(sim.memory, b)) else old(Val(sim.memory, c))
    ensures sim.latency == old(sim.latency) + 6 * |z|
  {
    hide ValN;
    ghost var m := sim.memory;
    ghost var from := if m[sel] then b else c;
    for i := 0 to |z|
      invariant Ready(sim, inter) && inter.free == old(inter.free)
      invariant Kept(m, sim.memory, inter.free, z) && CopiedTo(m, from, sim.memory, z, i)
      invariant sim.latency == old(sim.latency) + 6 * i
    {
      hide Tracks, CopiedTo;
      MuxCell(sim, inter, sel, nsel, b, c, z, i, m);
    }
    ValBits(sim.memory, z, m, from, |z|);
  }

  /** The sign of the difference and the swap cell are the complement of its carry. */
  method GapCells(sim: SerialSimulator, top: nat, swap: nat, notswap: nat)
    requires top < |sim.memory| && swap < |sim.memory| && notswap < |sim.memory|
    requires top != swap && top != notswap && swap != notswap
    modifies sim
    ensures Kept2(old(sim.memory), sim.memory, {}, top, swap)
    ensures sim.memory[top] == !sim.memory[notswap] && sim.memory[swap] == !sim.memory[notswap]
    ensures sim.latency == old(sim.latency) + 4
  {
    sim.Not(notswap, top);
    sim.Not(notswap, swap);
  }

  /** Difference and sign in one register have the absolute difference as magnitude. */
  lemma GapMagnitude(m1: seq<bool>, m2: seq<bool>, delta: seq<nat>, n: nat, swap: nat, x: nat, y: nat)
    requires |delta| == n + 1 && Distinct(delta) && swap !in delta && Kept2(m1, m2, {}, delta[n], swap)
    requires x < Pow2(n) && y < Pow2(n) && Val(m1, delta[..n]) == x - y + if x >= y then 0 else Pow2(n)
    requires Bit(m2, delta[n]) == if x >= y then 0 else 1
    ensures Magnitude(m2, delta) == if x >= y then x - y else y - x
  {
    hide ValN, Pow2;
    var low := delta[..n];
    assert forall i {:trigger low[i]} | 0 <= i < n :: low[i] == delta[i];
    assert forall i {:trigger low[i]} | 0 <= i < n :: Bit(m2, low[i]) == Bit(m1, low[i]);
    ValBits(m2, low, m1, low, n);
    ValPrefix(m2, delta, low, n);
  }

  /** deltaE = xe - ye in two's complement over one more bit, swap and its complement. */
  method ExponentGap(sim: SerialSimulator, inter: IntermediateAllocator, xe: seq<nat>, ye: seq<nat>, delta: seq<nat>,
                     swap: nat, notswap: nat)
    requires Ready(sim, inter) && |inter.free| >= 6 && |xe| == |ye| >= 1 && |delta| == |xe| + 1
    requires LiveReg(sim, inter, xe) && LiveReg(sim, inter, ye) && LiveReg(sim, inter, delta) && Distinct(delta)
    requires Apart(xe, delta) && Apart(ye, delta)
    requires Live(sim, inter, swap) && Live(sim, inter, notswap) && swap != notswap && swap !in delta
    requires notswap !in delta
    modifies sim, inter
    ensures Ready(sim, inter) && inter.free == old(inter.free)
    ensures Kept(old(sim.memory), sim.memory, inter.free, delta + [swap, notswap])
    ensures sim.memory[swap] == !sim.memory[notswap]
    ensures var x, y := old(Val(sim.memory, xe)), old(Val(sim.memory, ye));
            (sim.memory[notswap] <==> x >= y) && Magnitude(sim.memory, delta) == if x >= y then x - y else y - x
    ensures sim.latency == old(sim.latency) + 20 * |xe| + 5
  {
    hide Val, Pow2, Magnitude, Tracks;
    var n := |xe|;
    var low := delta[..n];
    ghost var x, y := Val(sim.memory, xe), Val(sim.memory, ye);
    assert forall i {:trigger low[i]} | 0 <= i < |low| :: low[i] == delta[i];
    FixedSubtraction(sim, inter, xe, ye, low, Some(notswap));
    ghost var m1 := sim.memory;
    GapCells(sim, delta[n], swap, notswap);
    GapMagnitude(m1, sim.memory, delta, n, swap, x, y);
  }

  /** If the exponents differ by `2^w` or more, the significand is cleared. */
  method DropFar(sim: SerialSimulator, inter: IntermediateAllocator, delta: seq<nat>, w: nat, ymt: seq<nat>)
    requires Ready(sim, inter) && |inter.free| >= 2 && |delta| >= 1
    requires LiveReg(sim, inter, delta) && LiveReg(sim, inter, ymt) && Distinct(ymt) && Apart(delta, ymt)
    modifies sim, inter
    ensures Ready(sim, inter) && inter.free == old(inter.free)
    ensures Kept(old(sim.memory), sim.memory, inter.free, ymt)
    ensures Val(sim.memory, ymt) ==
            if |delta| - 1 > w && old(Val(sim.memory, delta)) >= Pow2(w) then 0 else old(Val(sim.memory, ymt))
    ensures sim.latency == old(sim.latency) + if |delta| - 1 > w then 3 + |delta| - w + |ymt| else 0
  {
    hide ValN, Pow2;
    ghost var m := sim.memory;
    var far := inter.MallocCell();
    if |delta| - 1 > w {
      var high := delta[w..];
      assert forall i {:trigger high[i]} | 0 <= i < |high| :: high[i] == delta[w + i];
      ReduceOr(sim, inter, high, far);
      ghost var m1 := sim.memory;
      ValKeptCell(m, m1, inter.free, far, ymt);
      HighPart(m, delta, w);
      ClearIf(sim, far, ymt);
      if m1[far] {
        ValZero(sim.memory, ymt, |ymt|);
      } else {
        ValSame(m1, sim.memory, ymt, |ymt|);
      }
    }
    inter.FreeCell(far);
  }

  lemma HighPart(m: seq<bool>, a: seq<nat>, w: nat)
    requires w <= |a|
    ensures Val(m, a[w..]) != 0 <==> Val(m, a) >= Pow2(w)
    ensures Val(m, a) < Pow2(w) ==> Val(m, a[..w]) == Val(m, a)
  {
    hide ValN, Pow2;
    ValAppend(m, a[..w], a[w..]);
    assert a[..w] + a[w..] == a;
    if Val(m, a[w..]) >= 1 {
      MulMono(Pow2(w), 1, Val(m, a[w..]));
    } else {
      assert Pow2(w) * 0 == 0;
    }
  }

  /** Whether the routines clear the smaller significand. */
  ghost predicate Far(ne: nat, w: nat, gap: nat) {
    ne > w && gap >= Pow2(w)
  }

  /** A cleared significand lies at least `n` places down. */
  lemma FarGap(ne: nat, n: nat, gap: nat)
    requires n >= 1 && Far(ne, CeilLog2(n), gap)
    ensures gap >= n
  {
  }

  /** The cells of the exponent difference that control the shift. */
  function ShiftCells(delta: seq<nat>, w: nat): (t: seq<nat>)
    ensures |t| <= w && |t| <= |delta| && forall i {:trigger t[i]} | 0 <= i < |t| :: t[i] == delta[i]
  {
    if w <= |delta| then delta[..w] else delta
  }

  lemma ShiftAmount(m: seq<bool>, delta: seq<nat>, w: nat)
    requires |delta| >= 1 && Val(m, delta) < Pow2(|delta| - 1) && !Far(|delta| - 1, w, Val(m, delta))
    ensures Val(m, ShiftCells(delta, w)) == Val(m, delta)
  {
    hide Val, Pow2;
    if w <= |delta| {
      if |delta| - 1 <= w {
        Pow2Mono(|delta| - 1, w);
      }
      HighPart(m, delta, w);
    }
  }

  lemma AlignedShift(b: nat, v: nat, f: nat, t: nat, gap: nat, drop: bool)
    requires v == (if drop then 0 else f * b) && (!drop ==> t == gap)
    ensures f * b >= 0
    ensures v / Pow2(t) == Aligned(drop, f * b, gap) && (v % Pow2(t) != 0 <==> Lost(drop, f * b, gap))
  {
    hide Pow2;
    MulMono(f, 0, b);
    if drop {
      DivModUnique(0, Pow2(t), 0, 0);
    }
  }

  /** The extended significand shifted right by the exponent difference, with a sticky bit. */
  method ShiftAligned(sim: SerialSimulator, inter: IntermediateAllocator, delta: seq<nat>, ext: seq<nat>, ymt: seq<nat>,
                      sticky: nat, ghost b: nat)
    requires Ready(sim, inter) && |inter.free| >= 3 && |delta| >= 1 && |ymt| >= 1
    requires LiveReg(sim, inter, delta) && LiveReg(sim, inter, ext + ymt) && Distinct(ext + ymt)
    requires Apart(delta, ext + ymt)
    requires Live(sim, inter, sticky) && sticky !in ext + ymt && sticky !in delta && !sim.memory[sticky]
    requires Val(sim.memory, ext) == 0 && Val(sim.memory, delta) < Pow2(|delta| - 1)
    requires Val(sim.memory, ymt) == if Far(|delta| - 1, CeilLog2(|ext + ymt|), Val(sim.memory, delta)) then 0 else b
    modifies sim, inter
    ensures Ready(sim, inter) && inter.free == old(inter.free)
    ensures Kept(old(sim.memory), sim.memory, inter.free, ext + ymt + [sticky])
    ensures var gap := old(Val(sim.memory, delta));
            var far := Far(|delta| - 1, CeilLog2(|ext + ymt|), gap);
            && Pow2(|ext|) * b >= 0
            && Val(sim.memory, ext + ymt) == Aligned(far, Pow2(|ext|) * b, gap)
            && (sim.memory[sticky] <==> Lost(far, Pow2(|ext|) * b, gap))
    ensures sim.latency == old(sim.latency) + ShiftCost(|ext + ymt|, |delta|)
  {
    hide Val, Pow2, Far, Aligned, Lost;
    ghost var m := sim.memory;
    var x := ext + ymt;
    var w := CeilLog2(|x|);
    var t := ShiftCells(delta, w);
    VariableShiftRight(sim, inter, x, t, Some(sticky));
    ValAppend(m, ext, ymt);
    if !Far(|delta| - 1, w, Val(m, delta)) {
      ShiftAmount(m, delta, w);
    }
    AlignedShift(b, Val(m, x), Pow2(|ext|), Val(m, t), Val(m, delta), Far(|delta| - 1, w, Val(m, delta)));
  }

  /** The cycles of the alignment shift over `n` cells controlled by at most `e` cells. */
  function ShiftCost(n: nat, e: nat): int
    requires n >= 1
  {
    var t := if CeilLog2(n) <= e then CeilLog2(n) else e;
    t * (6 * n + 10) - 4 * (Pow2(t) - 1)
  }

  lemma ShiftCostIs(n: nat, e: nat, t: nat)
    requires n >= 1 && t == if CeilLog2(n) <= e then CeilLog2(n) else e
    ensures ShiftCost(n, e) == t * (6 * n + 10) - 4 * (Pow2(t) - 1)
  {
    hide Pow2, CeilLog2;
  }

  lemma ShiftCostClosed(n: nat, e: nat)
    requires n >= 1 && e >= CeilLog2(n)
    ensures ShiftCost(n, e) == CeilLog2(n) * (6 * n + 10) - 4 * (Pow2(CeilLog2(n)) - 1)
  {
    hide Pow2, CeilLog2;
  }

  method BumpGates(sim: SerialSimulator, inter: IntermediateAllocator, ze: seq<nat>, carry: nat, overflow: nat,
                   temp: nat)
    requires Ready(sim, inter) && |inter.free| >= 4 && |ze| >= 2
    requires LiveReg(sim, inter, ze) && Distinct(ze) && Live(sim, inter, carry) && Live(sim, inter, overflow)
    requires Live(sim, inter, temp)
    requires carry !in ze && overflow !in ze && temp !in ze && carry != overflow
    modifies sim, inter
    ensures Ready(sim, inter) && inter.free == old(inter.free)
    ensures Kept(old(sim.memory), sim.memory, inter.free, ze + [temp])
    ensures Val(sim.memory, ze) ==
            old(Val(sim.memory, ze) + Bit(sim.memory, carry) + Bit(sim.memory, overflow)) % Pow2(|ze|)
    ensures sim.latency == old(sim.latency) + 8 + 10 * |ze|
  {
    hide Val, Pow2;
    ghost var m := sim.memory;
    FullAdder(sim, inter, carry, overflow, ze[0], ze[0], temp);
    ghost var m1 := sim.memory;
    var rest := ze[1..];
    assert forall i {:trigger rest[i]} | 0 <= i < |rest| :: rest[i] == ze[i + 1];
    ValKept2(m, m1, inter.free, ze[0], temp, rest);
    ghost var k := FixedAddBit(sim, inter, rest, rest, CarryAt(temp), None);
    ghost var m2 := sim.memory;
    assert Bit(m2, ze[0]) == Bit(m1, ze[0]);
    LowestCell(m, ze);
    LowestCell(m2, ze);
    BumpVal(Val(m, rest), Val(m2, rest), Bit(m, ze[0]), Bit(m1, ze[0]), Bit(m1, temp), k,
            Bit(m, carry) + Bit(m, overflow), |rest|);
  }

  lemma LowestCell(m: seq<bool>, a: seq<nat>)
    requires |a| >= 1
    ensures Val(m, a) == Bit(m, a[0]) + 2 * Val(m, a[1..])
  {
    ValBelow(m, a[0], a[1..]);
    assert [a[0]] + a[1..] == a;
  }

  /** The carry of the sum and the overflow of rounding added to the exponent. */
  method BumpExponent(sim: SerialSimulator, inter: IntermediateAllocator, ze: seq<nat>, carry: nat, overflow: nat)
    requires Ready(sim, inter) && |inter.free| >= 5 && |ze| >= 2
    requires LiveReg(sim, inter, ze) && Distinct(ze) && Live(sim, inter, carry) && Live(sim, inter, overflow)
    requires carry !in ze && overflow !in ze && carry != overflow
    modifies sim, inter
    ensures Ready(sim, inter) && inter.free == old(inter.free)
    ensures Kept(old(sim.memory), sim.memory, inter.free, ze)
    ensures Val(sim.memory, ze) ==
            old(Val(sim.memory, ze) + Bit(sim.memory, carry) + Bit(sim.memory, overflow)) % Pow2(|ze|)
    ensures sim.latency == old(sim.latency) + 8 + 10 * |ze|
  {
    hide Val, Pow2;
    var temp := inter.MallocCell();
    BumpGates(sim, inter, ze, carry, overflow, temp);
    inter.FreeCell(temp);
  }

  lemma BumpVal(r: int, r2: int, z0: int, z1: int, t: int, k: nat, c: int, n: nat)
    requires z1 + 2 * t == c + z0 && 0 <= z1 <= 1 && k <= 1 && 0 <= r2 < Pow2(n)
    requires r2 + (if k == 1 then Pow2(n) else 0) == r + t
    ensures z1 + 2 * r2 == (z0 + 2 * r + c) % Pow2(n + 1)
  {
    Pow2Next(n);
    ModCarry(z1 + 2 * r2, k, Pow2(n + 1), z0 + 2 * r + c);
  }

  /** The registers of the conditional swap do not meet. */
  ghost predicate SwapPre(sim: SerialSimulator, inter: IntermediateAllocator, xe: seq<nat>, x: seq<nat>, ye: seq<nat>,
                          y: seq<nat>, ze: seq<nat>, zm: seq<nat>, delta: seq<nat>, ymt: seq<nat>)
    reads sim, inter
  {
    && Ready(sim, inter) && |xe| == |ye| == |ze| >= 1 && |x| == |y| == |zm| == |ymt| && |delta| == |xe| + 1
    && LiveReg(sim, inter, xe) && LiveReg(sim, inter, x) && LiveReg(sim, inter, ye) && LiveReg(sim, inter, y)
    && LiveReg(sim, inter, ze) && LiveReg(sim, inter, zm) && LiveReg(sim, inter, delta) && LiveReg(sim, inter, ymt)
    && Distinct(ze) && Distinct(zm) && Distinct(delta) && Distinct(ymt)
    && Apart(xe, ze) && Apart(ye, ze) && Apart(xe, delta) && Apart(ye, delta)
    && Apart(x, ze) && Apart(y, ze) && Apart(x, zm) && Apart(y, zm) && Apart(x, delta) && Apart(y, delta)
    && Apart(x, ymt) && Apart(y, ymt)
    && Apart(ze, zm) && Apart(ze, delta) && Apart(ze, ymt) && Apart(zm, delta) && Apart(zm, ymt) && Apart(delta, ymt)
  }

  /** The cell belongs to none of the registers. */
  ghost predicate Outside(c: nat, xe: seq<nat>, x: seq<nat>, ye: seq<nat>, y: seq<nat>, ze: seq<nat>, zm: seq<nat>,
                          delta: seq<nat>, ymt: seq<nat>) {
    c !in xe && c !in x && c !in ye && c !in y && c !in ze && c !in zm && c !in delta && c !in ymt
  }

  /** What the swap selects: `x` if its exponent is at least as large, else `y`. */
  function Pick(xe: nat, ye: nat, x: nat, y: nat): nat {
    if xe >= ye then x else y
  }

  function Difference(xe: nat, ye: nat): nat {
    if xe >= ye then xe - ye else ye - xe
  }

  lemma GapBound(m: seq<bool>, xe: seq<nat>, ye: seq<nat>)
    requires |xe| == |ye|
    ensures Difference(Val(m, xe), Val(m, ye)) < Pow2(|xe|)
  {
  }

  /** Larger exponent, its significand and the other significand. */
  ghost predicate Swapped(m: seq<bool>, xe: nat, x: nat, ye: nat, y: nat, ze: seq<nat>, zm: seq<nat>, ymt: seq<nat>) {
    Val(m, ze) == Pick(xe, ye, xe, ye) && Val(m, zm) == Pick(xe, ye, x, y) && Val(m, ymt) == Pick(xe, ye, y, x)
  }

  lemma SwappedIs(m: seq<bool>, xe: nat, x: nat, ye: nat, y: nat, ze: seq<nat>, zm: seq<nat>, ymt: seq<nat>)
    requires Swapped(m, xe, x, ye, y, ze, zm, ymt)
    ensures Val(m, ze) == (if xe >= ye then xe else ye) && Val(m, zm) == (if xe >= ye then x else y)
    ensures Val(m, ymt) == if xe >= ye then y else x
  {
    hide Val;
  }

  /** Larger exponent and significands, once swap is known. */
  method SwapWords(sim: SerialSimulator, inter: IntermediateAllocator, xe: seq<nat>, x: seq<nat>, ye: seq<nat>,
                   y: seq<nat>, ze: seq<nat>, zm: seq<nat>, delta: seq<nat>, ymt: seq<nat>, swap: nat, notswap: nat)
    requires SwapPre(sim, inter, xe, x, ye, y, ze, zm, delta, ymt) && |inter.free| >= 2
    requires Live(sim, inter, swap) && Live(sim, inter, notswap) && sim.memory[notswap] == !sim.memory[swap]
    requires Outside(swap, xe, x, ye, y, ze, zm, delta, ymt) && Outside(notswap, xe, x, ye, y, ze, zm, delta, ymt)
    requires sim.memory[notswap] <==> Val(sim.memory, xe) >= Val(sim.memory, ye)
    modifies sim, inter
    ensures Ready(sim, inter) && inter.free == old(inter.free)
    ensures Kept(old(sim.memory), sim.memory, inter.free, ze + zm + ymt)
    ensures Swapped(sim.memory, old(Val(sim.memory, xe)), old(Val(sim.memory, x)), old(Val(sim.memory, ye)),
                    old(Val(sim.memory, y)), ze, zm, ymt)
    ensures sim.latency == old(sim.latency) + 6 * |ze| + 12 * |zm|
  {
    hide Val, Distinct;
    ghost var m := sim.memory;
    MuxWords(sim, inter, swap, notswap, ye, xe, ze);
    ghost var m1 := sim.memory;
    ValKept(m, m1, inter.free, ze, x);
    ValKept(m, m1, inter.free, ze, y);
    MuxWords(sim, inter, swap, notswap, y, x, zm);
    ghost var m2 := sim.memory;
    ValKept(m1, m2, inter.free, zm, x);
    ValKept(m1, m2, inter.free, zm, y);
    ValKept(m1, m2, inter.free, zm, ze);
    MuxWords(sim, inter, swap, notswap, x, y, ymt);
    ValKept(m2, sim.memory, inter.free, ymt, ze);
    ValKept(m2, sim.memory, inter.free, ymt, zm);
  }

  /** Exponent difference and conditional swap. */
  method SwapOperands(sim: SerialSimulator, inter: IntermediateAllocator, xe: seq<nat>, x: seq<nat>, ye: seq<nat>,
                      y: seq<nat>, ze: seq<nat>, zm: seq<nat>, delta: seq<nat>, ymt: seq<nat>, swap: nat,
                      notswap: nat)
    requires SwapPre(sim, inter, xe, x, ye, y, ze, zm, delta, ymt) && |inter.free| >= 6
    requires Live(sim, inter, swap) && Live(sim, inter, notswap) && swap != notswap
    requires Outside(swap, xe, x, ye, y, ze, zm, delta, ymt) && Outside(notswap, xe, x, ye, y, ze, zm, delta, ymt)
    modifies sim, inter
    ensures Ready(sim, inter) && inter.free == old(inter.free)
    ensures Kept(old(sim.memory), sim.memory, inter.free, ze + zm + ymt + delta + [swap, notswap])
    ensures sim.memory[swap] == !sim.memory[notswap]
    ensures sim.memory[notswap] <==> old(Val(sim.memory, xe)) >= old(Val(sim.memory, ye))
    ensures Swapped(sim.memory, old(Val(sim.memory, xe)), old(Val(sim.memory, x)), old(Val(sim.memory, ye)),
                    old(Val(sim.memory, y)), ze, zm, ymt)
    ensures var ex, ey, a := old(Val(sim.memory, xe)), old(Val(sim.memory, ye)), old(Val(sim.memory, x));
            var b := old(Val(sim.memory, y));
            && Val(sim.memory, ze) == (if ex >= ey then ex else ey)
            && Val(sim.memory, zm) == (if ex >= ey then a else b)
            && Val(sim.memory, ymt) == (if ex >= ey then b else a)
            && Magnitude(sim.memory, delta) == (if ex >= ey then ex - ey else ey - ex)
    ensures Magnitude(sim.memory, delta) == Difference(old(Val(sim.memory, xe)), old(Val(sim.memory, ye)))
    ensures sim.latency == old(sim.latency) + 26 * |ze| + 12 * |zm| + 5
  {
    hide Val, Distinct, Magnitude, Swapped;
    ghost var m := sim.memory;
    ExponentGap(sim, inter, xe, ye, delta, swap, notswap);
    ghost var m1, o := sim.memory, delta + [swap, notswap];
    assert forall i {:trigger o[i]} | 0 <= i < |o| ::
             o[i] == if i < |delta| then delta[i] else if i == |delta| then swap else notswap;
    ValKept(m, m1, inter.free, o, x);
    ValKept(m, m1, inter.free, o, y);
    ValKept(m, m1, inter.free, o, xe);
    ValKept(m, m1, inter.free, o, ye);
    SwapWords(sim, inter, xe, x, ye, y, ze, zm, delta, ymt, swap, notswap);
    ghost var p := ze + zm + ymt;
    assert forall i {:trigger p[i]} | 0 <= i < |p| ::
             p[i] == if i < |ze| then ze[i] else if i < |ze| + |zm| then zm[i - |ze|] else ymt[i - |ze| - |zm|];
    ValKept(m1, sim.memory, inter.free, p, delta);
    MagnitudeSame(m1, sim.memory, delta);
    SwappedIs(sim.memory, Val(m, xe), Val(m, x), Val(m, ye), Val(m, y), ze, zm, ymt);
  }

  /** absDeltaE = abs(deltaE), and the smaller significand cleared if it is too far down. */
  method AbsDrop(sim: SerialSimulator, inter: IntermediateAllocator, delta: seq<nat>, w: nat, ymt: seq<nat>)
    requires Ready(sim, inter) && |inter.free| >= 6 && |delta| >= 1
    requires LiveReg(sim, inter, delta) && LiveReg(sim, inter, ymt) && Distinct(ymt) && Distinct(delta)
    requires Apart(delta, ymt)
    modifies sim, inter
    ensures Ready(sim, inter) && inter.free == old(inter.free)
    ensures Kept(old(sim.memory), sim.memory, inter.free, delta + ymt)
    ensures var gap := old(Magnitude(sim.memory, delta));
            && Val(sim.memory, delta) == gap
            && Val(sim.memory, ymt) == if Far(|delta| - 1, w, gap) then 0 else old(Val(sim.memory, ymt))
    ensures sim.latency == old(sim.latency) + 18 * |delta| - 15 + if |delta| - 1 > w then 3 + |delta| - w + |ymt| else 0
  {
    hide Val, Pow2, Magnitude;
    ghost var m := sim.memory;
    Abs(sim, inter, delta, delta);
    ghost var m1 := sim.memory;
    ValKept(m, m1, inter.free, delta, ymt);
    DropFar(sim, inter, delta, w, ymt);
    ValKept(m1, sim.memory, inter.free, ymt, delta);
  }
}
