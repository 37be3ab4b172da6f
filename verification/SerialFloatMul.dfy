/** floatingMultiplication of serial/AritPIM.py. */
module SerialFloatMul {
  import opened Numbers
  import opened Rounding
  import opened Floats
  import opened Simulator
  import opened Allocator
  import opened Cells
  import opened SerialGates
  import opened SerialFixed
  import opened SerialShift
  import opened SerialKaratsuba
  import opened SerialFloat
  import opened FloatMul

  /** Guard bit, significand and carry bit as one number. */
  function Guarded(m: seq<bool>, guard: nat, zm: seq<nat>, carry: nat): nat {
    Bit(m, guard) + 2 * Val(m, zm) + if Bit(m, carry) == 1 then Pow2(|zm| + 1) else 0
  }

  lemma GuardedVal(m: seq<bool>, guard: nat, zm: seq<nat>, carry: nat)
    ensures Val(m, [guard] + zm + [carry]) == Guarded(m, guard, zm, carry)
  {
    hide ValN, Val, Pow2;
    ValSnoc(m, [guard] + zm, carry);
    ValBelow(m, guard, zm);
  }

  /** The product register, least significant part first. */
  lemma ProductParts(m: seq<bool>, lower: seq<nat>, guard: nat, zm: seq<nat>, carry: nat)
    ensures Val(m, lower + [guard] + zm + [carry]) == Val(m, lower) + Pow2(|lower|) * Guarded(m, guard, zm, carry)
  {
    hide ValN, Val, Pow2, Guarded;
    var high := [guard] + zm + [carry];
    assert lower + high == lower + [guard] + zm + [carry];
    ValAppend(m, lower, high);
    GuardedVal(m, guard, zm, carry);
  }

  /** The product of the significands in the cells from `lower` up to `carry`. */
  method ProductGates(sim: SerialSimulator, inter: IntermediateAllocator, x: seq<nat>, y: seq<nat>, lower: seq<nat>,
                      guard: nat, zm: seq<nat>, carry: nat)
    requires Ready(sim, inter) && |x| == |y| == |zm| == |lower| + 2 >= 4 && |inter.free| >= MulCells(|x|)
    requires LiveReg(sim, inter, x) && LiveReg(sim, inter, y) && LiveReg(sim, inter, zm) && LiveReg(sim, inter, lower)
    requires Live(sim, inter, guard) && Live(sim, inter, carry) && guard != carry
    requires Distinct(x) && Distinct(y) && Distinct(zm) && Distinct(lower)
    requires Apart(x, zm) && Apart(y, zm) && Apart(x, lower) && Apart(y, lower) && Apart(lower, zm)
    requires carry !in x && carry !in y && carry !in zm && carry !in lower
    requires guard !in x && guard !in y && guard !in zm && guard !in lower
    modifies sim, inter
    ensures Ready(sim, inter) && inter.free == old(inter.free)
    ensures Kept(old(sim.memory), sim.memory, inter.free, lower + [guard] + zm + [carry])
    ensures old(Val(sim.memory, x) * Val(sim.memory, y)) ==
            Val(sim.memory, lower) + Pow2(|lower|) * Guarded(sim.memory, guard, zm, carry)
    ensures sim.latency == old(sim.latency) + MulCycles(|x|)
  {
    hide Val, Pow2, MulCells, MulCycles, Tracks, Guarded;
    var z := lower + [guard] + zm + [carry];
    assert forall i {:trigger z[i]} | 0 <= i < |z| ::
        z[i] == if i < |lower| then lower[i] else if i == |lower| then guard
                else if i < |z| - 1 then zm[i - |lower| - 1] else carry;
    FixedMultiplication(sim, inter, x, y, z);
    ProductParts(sim.memory, lower, guard, zm, carry);
  }

  /** A fresh sticky cell: whether the lower part of the product has a bit set. */
  method FoldSticky(sim: SerialSimulator, inter: IntermediateAllocator, lower: seq<nat>, guard: nat, zm: seq<nat>,
                    carry: nat)
    returns (sticky: nat)
    requires Ready(sim, inter) && |inter.free| >= 2 && LiveReg(sim, inter, lower) && LiveReg(sim, inter, zm)
    requires Live(sim, inter, guard) && Live(sim, inter, carry)
    modifies sim, inter
    ensures Ready(sim, inter) && Pooled(inter.cells, sticky)
    ensures sticky in old(inter.free) && inter.free == old(inter.free) - {sticky}
    ensures Kept(old(sim.memory), sim.memory, old(inter.free), [])
    ensures |sim.memory| == |old(sim.memory)| && (Bit(sim.memory, sticky) == 1 <==> old(Val(sim.memory, lower)) != 0)
    ensures Guarded(sim.memory, guard, zm, carry) == old(Guarded(sim.memory, guard, zm, carry))
    ensures sim.latency == old(sim.latency) + 3 + |lower|
  {
    hide Val, Pow2, Tracks;
    ghost var m := sim.memory;
    sticky := inter.MallocCell();
    ReduceOr(sim, inter, lower, sticky);
    ValKept(m, sim.memory, inter.free, [sticky], zm);
  }

  /** Multiplies the significands into scratch, guard, result and carry cells, and folds the scratch part into
      sticky. */
  method Product(sim: SerialSimulator, inter: IntermediateAllocator, x: seq<nat>, y: seq<nat>, zm: seq<nat>, carry: nat)
    returns (guard: nat, sticky: nat, ghost low: nat)
    requires Ready(sim, inter) && |x| == |y| == |zm| >= 4 && |inter.free| >= |x| - 1 + MulCells(|x|)
    requires LiveReg(sim, inter, x) && LiveReg(sim, inter, y) && LiveReg(sim, inter, zm) && Live(sim, inter, carry)
    requires Distinct(x) && Distinct(y) && Distinct(zm) && Apart(x, zm) && Apart(y, zm)
    requires carry !in x && carry !in y && carry !in zm
    modifies sim, inter
    ensures Ready(sim, inter)
    ensures guard in old(inter.free) && sticky in old(inter.free) && guard != sticky
    ensures Pooled(inter.cells, guard) && Pooled(inter.cells, sticky)
    ensures inter.free == old(inter.free) - {guard, sticky}
    ensures Kept(old(sim.memory), sim.memory, old(inter.free), zm + [carry])
    ensures low < Pow2(|x| - 2) && (Bit(sim.memory, sticky) == 1 <==> low != 0)
    ensures old(Val(sim.memory, x) * Val(sim.memory, y)) == low + Pow2(|x| - 2) * Guarded(sim.memory, guard, zm, carry)
    ensures sim.latency == old(sim.latency) + MulCycles(|x|) + 3 + (|x| - 2)
  {
    hide Val, Pow2, MulCells, MulCycles, Tracks, Guarded;
    ghost var m := sim.memory;
    var lower := inter.Malloc(|x| - 2);
    guard := inter.MallocCell();
    ProductGates(sim, inter, x, y, lower, guard, zm, carry);
    low := Val(sim.memory, lower);
    sticky := FoldSticky(sim, inter, lower, guard, zm, carry);
    inter.Free(lower);
  }

  /** Writes -(2^(Ne-1) - 1) modulo 2^(Ne+1), the negated bias, into the exponent cells. */
  method WriteNegatedBias(sim: SerialSimulator, ze: seq<nat>)
    requires |ze| >= 3 && Distinct(ze) && forall i | 0 <= i < |ze| :: ze[i] < |sim.memory|
    modifies sim
    ensures Kept(old(sim.memory), sim.memory, {}, ze)
    ensures Val(sim.memory, ze) == Pow2(|ze| - 1) + Pow2(|ze| - 2) + 1
    ensures sim.latency == old(sim.latency) + |ze|
  {
    ghost var m := sim.memory;
    var n := |ze|;
    sim.Init1(ze[0]);
    sim.Init1(ze[n - 2]);
    sim.Init1(ze[n - 1]);
    for i := 1 to n - 2
      invariant Kept(m, sim.memory, {}, ze)
      invariant sim.memory[ze[0]] && sim.memory[ze[n - 2]] && sim.memory[ze[n - 1]]
      invariant forall k {:trigger Bit(sim.memory, ze[k])} | 1 <= k < i :: Bit(sim.memory, ze[k]) == 0
      invariant sim.latency == old(sim.latency) + 3 + i - 1
    {
      ghost var m1 := sim.memory;
      sim.Init0(ze[i]);
      assert forall k {:trigger ze[k]} | 0 <= k < n && k != i :: Bit(sim.memory, ze[k]) == Bit(m1, ze[k]);
    }
    BiasVal(sim.memory, ze);
  }

  lemma BiasVal(m: seq<bool>, ze: seq<nat>)
    requires |ze| >= 3 && Bit(m, ze[0]) == 1 && Bit(m, ze[|ze| - 2]) == 1 && Bit(m, ze[|ze| - 1]) == 1
    requires forall k {:trigger Bit(m, ze[k])} | 1 <= k < |ze| - 2 :: Bit(m, ze[k]) == 0
    ensures Val(m, ze) == Pow2(|ze| - 1) + Pow2(|ze| - 2) + 1
  {
    var n := |ze|;
    OneBit(m, ze, n - 2);
    ValNext(m, ze, n - 2);
    ValNext(m, ze, n - 1);
  }

  lemma {:induction false} OneBit(m: seq<bool>, ze: seq<nat>, n: nat)
    requires 1 <= n <= |ze| && Bit(m, ze[0]) == 1
    requires forall k {:trigger Bit(m, ze[k])} | 1 <= k < n :: Bit(m, ze[k]) == 0
    ensures ValN(m, ze, n) == 1
  {
    if n == 1 {
      assert ValN(m, ze, 0) == 0 && Pow2(0) == 1;
    } else {
      OneBit(m, ze, n - 1);
      assert Bit(m, ze[n - 1]) == 0;
    }
  }

  /** The shifted product with its guard and sticky bits rounds to `MulSig`. */
  lemma MulRounds(nm: nat, p: nat, low: nat, w: nat, c: bool, r: nat, sticky: bool)
    requires nm >= 1 && low < Pow2(nm - 1) && p == low + Pow2(nm - 1) * w && (c <==> w >= Pow2(nm + 2))
    requires r == (if c then w / 2 else w) && (sticky <==> low != 0 || (c && w % 2 == 1))
    ensures c <==> p >= Pow2(2 * nm + 1)
    ensures RoundUp(r / 2, r % 2 == 1, sticky) == MulSig(nm, p)
  {
    hide Pow2, RoundUp, RoundDiv;
    var q := Pow2(nm - 1);
    Pow2Next(nm - 1);
    Pow2Next(nm);
    CarryIffLarge(nm, p, low, w, c);
    var rest := if c then 2 * low + 2 * q * (w % 2) else 2 * low;
    if c {
      MulAssoc(2 * q, 2, r);
      MulAdd(2 * q, 2 * r, w % 2);
      DropOne(q, low, w, r);
      GuardSticky(p, 4 * q, r / 2, r % 2 == 1, rest);
    } else {
      MulAssoc(2, q, w);
      GuardSticky(p, 2 * q, r / 2, r % 2 == 1, rest);
    }
  }

  lemma DropOne(q: int, low: int, w: int, r: int)
    requires w >= 0 && r == w / 2 && 0 <= low < q
    ensures 2 * (low + q * w) == r * (4 * q) + (2 * low + 2 * q * (w % 2))
    ensures 0 <= 2 * low + 2 * q * (w % 2) < 4 * q
    ensures 2 * low + 2 * q * (w % 2) != 0 <==> low != 0 || w % 2 == 1
  {
    assert w == 2 * r + w % 2;
    MulAdd(q, 2 * r, w % 2);
    if w % 2 == 1 {
      assert q * (w % 2) == q;
    } else {
      assert q * (w % 2) == 0;
    }
    assert 2 * (q * (2 * r)) == r * (4 * q);
  }

  lemma CarryIffLarge(nm: nat, p: nat, low: nat, w: nat, c: bool)
    requires nm >= 1 && low < Pow2(nm - 1) && p == low + Pow2(nm - 1) * w && (c <==> w >= Pow2(nm + 2))
    ensures c <==> p >= Pow2(2 * nm + 1)
  {
    hide Pow2;
    Pow2Add(nm - 1, nm + 2);
    if c {
      MulMono(Pow2(nm - 1), Pow2(nm + 2), w);
    } else {
      MulMono(Pow2(nm - 1), w + 1, Pow2(nm + 2));
      MulAdd(Pow2(nm - 1), w, 1);
    }
  }

  /** Right-shift normalisation of the product: what is left to round. */
  method MulShift(sim: SerialSimulator, inter: IntermediateAllocator, zm: seq<nat>, carry: nat, guard: nat, sticky: nat,
                  ghost p: nat, ghost low: nat)
    requires Ready(sim, inter) && |inter.free| >= 4 && |zm| >= 2
    requires LiveReg(sim, inter, zm) && Distinct(zm) && Live(sim, inter, carry)
    requires Live(sim, inter, guard) && Live(sim, inter, sticky)
    requires carry !in zm && guard !in zm && sticky !in zm && guard != sticky && guard != carry && sticky != carry
    requires low < Pow2(|zm| - 2) && (Bit(sim.memory, sticky) == 1 <==> low != 0)
    requires p == low + Pow2(|zm| - 2) * Guarded(sim.memory, guard, zm, carry)
    modifies sim, inter
    ensures Ready(sim, inter) && inter.free == old(inter.free) && |sim.memory| == |old(sim.memory)|
    ensures Kept(old(sim.memory), sim.memory, inter.free, zm + [guard, sticky])
    ensures sim.memory[carry] == old(sim.memory[carry]) && (sim.memory[carry] <==> p >= Pow2(2 * |zm| - 1))
    ensures RoundUp(Val(sim.memory, zm), sim.memory[guard], sim.memory[sticky]) == MulSig(|zm| - 1, p)
    ensures sim.latency == old(sim.latency) + 6 * |zm| + 22
  {
    hide Val, Pow2, RoundUp, MulSig, Tracks;
    ghost var m := sim.memory;
    var reg := [guard] + zm;
    assert forall i {:trigger reg[i]} | 0 <= i < |reg| :: reg[i] == if i == 0 then guard else zm[i - 1];
    CarryShift(sim, inter, reg, carry, sticky);
    MulShifted(m, sim.memory, guard, zm, carry, sticky, p, low);
  }

  lemma MulShifted(m: seq<bool>, m': seq<bool>, guard: nat, zm: seq<nat>, carry: nat, sticky: nat, p: nat, low: nat)
    requires |zm| >= 2 && low < Pow2(|zm| - 2) && p == low + Pow2(|zm| - 2) * Guarded(m, guard, zm, carry)
    requires guard < |m'| && sticky < |m'| && carry < |m| && sticky < |m| && (m[sticky] <==> low != 0)
    requires var c, v := m[carry], Val(m, [guard] + zm);
             && Val(m', [guard] + zm) == (if c then (v + Pow2(|zm| + 1)) / 2 else v)
             && (m'[sticky] <==> m[sticky] || (c && (v + Pow2(|zm| + 1)) % 2 == 1))
    ensures m[carry] <==> p >= Pow2(2 * |zm| - 1)
    ensures RoundUp(Val(m', zm), m'[guard], m'[sticky]) == MulSig(|zm| - 1, p)
  {
    hide Val, Pow2, RoundUp, MulSig;
    ValBelow(m, guard, zm);
    ValBelow(m', guard, zm);
    MulRounds(|zm| - 1, p, low, Guarded(m, guard, zm, carry), m[carry], Val(m', [guard] + zm), m'[sticky]);
  }

  /** Right-shift normalisation and rounding of the product. */
  method MulNormalize(sim: SerialSimulator, inter: IntermediateAllocator, zm: seq<nat>, carry: nat, guard: nat,
                      sticky: nat, ghost p: nat, ghost low: nat)
    returns (overflow: nat)
    requires Ready(sim, inter) && |inter.free| >= 4 && |zm| >= 2
    requires LiveReg(sim, inter, zm) && Distinct(zm) && Live(sim, inter, carry)
    requires Live(sim, inter, guard) && Live(sim, inter, sticky) && Pooled(inter.cells, guard)
    requires Pooled(inter.cells, sticky)
    requires carry !in zm && guard !in zm && sticky !in zm && guard != sticky && guard != carry && sticky != carry
    requires low < Pow2(|zm| - 2) && (Bit(sim.memory, sticky) == 1 <==> low != 0)
    requires p == low + Pow2(|zm| - 2) * Guarded(sim.memory, guard, zm, carry)
    modifies sim, inter
    ensures Ready(sim, inter) && Live(sim, inter, overflow) && Pooled(inter.cells, overflow) && overflow !in zm
    ensures overflow != carry
    ensures forall c: nat {:trigger c in inter.free} ::
              c in inter.free <==> (c in old(inter.free) || c == guard || c == sticky) && c != overflow
    ensures overflow in old(inter.free) || overflow == guard || overflow == sticky
    ensures |inter.free| == |old(inter.free)| + 1
    ensures Kept(old(sim.memory), sim.memory, inter.free, zm + [overflow])
    ensures sim.memory[carry] <==> p >= Pow2(2 * |zm| - 1)
    ensures var s := MulSig(|zm| - 1, p);
            && Val(sim.memory, zm) == (if s == Pow2(|zm|) then Pow2(|zm| - 1) else s)
            && (sim.memory[overflow] <==> s == Pow2(|zm|))
    ensures sim.latency == old(sim.latency) + 16 * |zm| + 32
  {
    hide Val, Pow2, RoundUp, MulSig, Tracks, Guarded;
    MulShift(sim, inter, zm, carry, guard, sticky, p, low);
    overflow := RoundStage(sim, inter, zm, guard, sticky, [guard, sticky]);
  }

  /** The significand of the product, rounded, with the negated bias already in the exponent cells. */
  method MulSignificand(sim: SerialSimulator, inter: IntermediateAllocator, x: seq<nat>, y: seq<nat>, zm: seq<nat>,
                        ze: seq<nat>, carry: nat)
    returns (overflow: nat)
    requires Ready(sim, inter) && |x| == |y| == |zm| >= 4 && |inter.free| >= |x| - 1 + MulCells(|x|) && |ze| >= 3
    requires LiveReg(sim, inter, x) && LiveReg(sim, inter, y) && LiveReg(sim, inter, zm) && LiveReg(sim, inter, ze)
    requires Distinct(x) && Distinct(y) && Distinct(zm) && Distinct(ze)
    requires Apart(x, zm) && Apart(y, zm) && Apart(zm, ze)
    requires Live(sim, inter, carry) && carry !in x && carry !in y && carry !in zm && carry !in ze
    modifies sim, inter
    ensures Ready(sim, inter) && Pooled(inter.cells, overflow)
    ensures overflow in old(inter.free) && inter.free == old(inter.free) - {overflow}
    ensures Kept(old(sim.memory), sim.memory, old(inter.free), zm + ze + [carry])
    ensures Val(sim.memory, ze) == Pow2(|ze| - 1) + Pow2(|ze| - 2) + 1
    ensures var p := SigProduct(old(Val(sim.memory, x)), old(Val(sim.memory, y)));
            var s := MulSig(|zm| - 1, p);
            && (sim.memory[carry] <==> p >= Pow2(2 * |zm| - 1))
            && Val(sim.memory, zm) == (if s == Pow2(|zm|) then Pow2(|zm| - 1) else s)
            && (sim.memory[overflow] <==> s == Pow2(|zm|))
    ensures sim.latency == old(sim.latency) + MulCycles(|x|) + 17 * |x| + 33 + |ze|
  {
    hide Val, Pow2, RoundUp, MulSig, MulCells, MulCycles;
    var guard, sticky, low := Product(sim, inter, x, y, zm, carry);
    ghost var m1 := sim.memory;
    WriteNegatedBias(sim, ze);
    ghost var m2 := sim.memory;
    ValKept(m1, m2, {}, ze, zm);
    overflow := MulNormalize(sim, inter, zm, carry, guard, sticky,
                             SigProduct(old(Val(sim.memory, x)), old(Val(sim.memory, y))), low);
    ValKept(m2, sim.memory, inter.free, zm + [overflow], ze);
  }

  /** Both exponents, the product's carry and the rounding overflow added to the negated bias. */
  method MulExponent(sim: SerialSimulator, inter: IntermediateAllocator, xe: seq<nat>, ye: seq<nat>, zero: nat,
                     ze: seq<nat>, overflow: nat, carry: nat)
    requires Ready(sim, inter) && |inter.free| >= 5 && |ze| == |xe| + 1 == |ye| + 1
    requires LiveReg(sim, inter, xe) && LiveReg(sim, inter, ye) && LiveReg(sim, inter, ze) && Live(sim, inter, zero)
    requires Live(sim, inter, overflow) && Live(sim, inter, carry)
    requires Distinct(ze) && Apart(xe, ze) && Apart(ye, ze) && zero !in ze && overflow !in ze && carry !in ze
    requires !sim.memory[zero]
    modifies sim, inter
    ensures Ready(sim, inter) && inter.free == old(inter.free)
    ensures Kept(old(sim.memory), sim.memory, inter.free, ze)
    ensures Val(sim.memory, ze) == old(Val(sim.memory, ze) + Val(sim.memory, xe) + Val(sim.memory, ye) +
                                       Bit(sim.memory, overflow) + Bit(sim.memory, carry)) % Pow2(|ze|)
    ensures sim.latency == old(sim.latency) + 36 * |ze|
  {
    hide Val, Pow2, Distinct;
    ghost var m := sim.memory;
    AddExponent(sim, inter, xe, zero, ze, overflow);
    ghost var m1 := sim.memory;
    ValKept(m, m1, inter.free, ze, ye);
    assert Bit(m1, carry) == Bit(m, carry);
    AddExponent(sim, inter, ye, zero, ze, carry);
    TwoAdded(Val(m, ze), Val(m, xe), Val(m, ye), Bit(m, overflow), Bit(m, carry), Val(m1, ze), Val(sim.memory, ze),
             Pow2(|ze|));
  }

  lemma TwoAdded(e: int, x: int, y: int, o: int, c: int, e1: int, e2: int, p: int)
    requires p > 0 && e1 == (x + e + o) % p && e2 == (y + e1 + c) % p
    ensures e2 == (e + x + y + o + c) % p
  {
    ModAdd(x + e + o, y + c, p);
  }

  /** The product carry and the rounding overflow are the two increments of the exponent. */
  lemma BumpBits(n: nat, a: nat, b: nat, carry: bool, overflow: bool)
    requires n >= 1 && (carry <==> SigProduct(a, b) >= Pow2(2 * n - 1))
    requires (overflow <==> MulSig(n - 1, SigProduct(a, b)) == Pow2(n))
    ensures (if overflow then 1 else 0) + (if carry then 1 else 0) == ProductBump(n - 1, a, b)
  {
    hide Pow2, MulSig;
  }

  /** Significand and exponent of the product, with the cell of the product carry given. */
  method MulParts(sim: SerialSimulator, inter: IntermediateAllocator, xe: seq<nat>, x: seq<nat>, ye: seq<nat>,
                  y: seq<nat>, ze: seq<nat>, zm: seq<nat>, zero: nat, carry: nat)
    requires Ready(sim, inter) && |x| == |y| == |zm| >= 4 && |inter.free| >= |x| - 1 + MulCells(|x|)
    requires |ze| == |xe| + 1 == |ye| + 1 && |ze| >= 3
    requires LiveReg(sim, inter, x) && LiveReg(sim, inter, y) && LiveReg(sim, inter, zm) && LiveReg(sim, inter, ze)
    requires LiveReg(sim, inter, xe) && LiveReg(sim, inter, ye) && Live(sim, inter, zero) && !sim.memory[zero]
    requires Distinct(x) && Distinct(y) && Distinct(zm) && Distinct(ze) && zero !in zm && zero !in ze
    requires Live(sim, inter, carry) && carry !in x && carry !in y && carry !in zm && carry !in ze && carry != zero
    requires carry !in xe && carry !in ye
    requires Apart(x, zm) && Apart(y, zm) && Apart(zm, ze) && Apart(xe, zm) && Apart(ye, zm) && Apart(xe, ze)
    requires Apart(ye, ze)
    modifies sim, inter
    ensures Ready(sim, inter) && inter.free == old(inter.free)
    ensures Kept(old(sim.memory), sim.memory, inter.free, zm + ze + [carry])
    ensures Val(sim.memory, zm) == old(ProductSig(|zm| - 1, Val(sim.memory, x), Val(sim.memory, y)))
    ensures Val(sim.memory, ze) ==
            (Pow2(|ze| - 1) + Pow2(|ze| - 2) + 1 + old(Val(sim.memory, xe) + Val(sim.memory, ye) +
             ProductBump(|zm| - 1, Val(sim.memory, x), Val(sim.memory, y)))) % Pow2(|ze|)
    ensures sim.latency == old(sim.latency) + MulCycles(|x|) + 17 * |x| + 33 + 37 * |ze|
  {
    hide Val, Pow2, MulSig, MulCells, MulCycles, Tracks, ProductBump, SigProduct;
    ghost var m := sim.memory;
    var overflow := MulSignificand(sim, inter, x, y, zm, ze, carry);
    ghost var m1 := sim.memory;
    ValKept(m, m1, old(inter.free), zm + ze + [carry], xe);
    ValKept(m, m1, old(inter.free), zm + ze + [carry], ye);
    MulExponent(sim, inter, xe, ye, zero, ze, overflow, carry);
    ValKept(m1, sim.memory, inter.free, ze, zm);
    BumpBits(|zm|, Val(m, x), Val(m, y), m1[carry], m1[overflow]);
    inter.FreeCell(overflow);
  }

  /** Significand and exponent of the product, before the flush. */
  method MulMagnitude(sim: SerialSimulator, inter: IntermediateAllocator, xe: seq<nat>, x: seq<nat>, ye: seq<nat>,
                      y: seq<nat>, ze: seq<nat>, zm: seq<nat>, zero: nat)
    requires Ready(sim, inter) && |x| == |y| == |zm| >= 4 && |inter.free| >= |x| + MulCells(|x|)
    requires |ze| == |xe| + 1 == |ye| + 1 && |ze| >= 3
    requires LiveReg(sim, inter, x) && LiveReg(sim, inter, y) && LiveReg(sim, inter, zm) && LiveReg(sim, inter, ze)
    requires LiveReg(sim, inter, xe) && LiveReg(sim, inter, ye) && Live(sim, inter, zero) && !sim.memory[zero]
    requires Distinct(x) && Distinct(y) && Distinct(zm) && Distinct(ze) && zero !in zm && zero !in ze
    requires Apart(x, zm) && Apart(y, zm) && Apart(zm, ze) && Apart(xe, zm) && Apart(ye, zm) && Apart(xe, ze)
    requires Apart(ye, ze)
    modifies sim, inter
    ensures Ready(sim, inter) && inter.free == old(inter.free)
    ensures Kept(old(sim.memory), sim.memory, inter.free, zm + ze)
    ensures Val(sim.memory, zm) == old(ProductSig(|zm| - 1, Val(sim.memory, x), Val(sim.memory, y)))
    ensures Val(sim.memory, ze) ==
            (Pow2(|ze| - 1) + Pow2(|ze| - 2) + 1 + old(Val(sim.memory, xe) + Val(sim.memory, ye) +
             ProductBump(|zm| - 1, Val(sim.memory, x), Val(sim.memory, y)))) % Pow2(|ze|)
    ensures sim.latency == old(sim.latency) + MulCycles(|x|) + 17 * |x| + 33 + 37 * |ze|
  {
    hide Val, Pow2, MulSig, MulCells, MulCycles, Tracks, ProductBump, ProductSig;
    var carry := inter.MallocCell();
    MulParts(sim, inter, xe, x, ye, y, ze, zm, zero, carry);
    inter.FreeCell(carry);
  }

  /** Sign, exponent and significand of the product, flushed to zero when a factor is zero or the exponent leaves
      the range. */
  method MulSigned(sim: SerialSimulator, inter: IntermediateAllocator, xs: nat, xe: seq<nat>, x: seq<nat>,
                   ys: nat, ye: seq<nat>, y: seq<nat>, zs: nat, ze: seq<nat>, zm: seq<nat>, zero: nat)
    requires Ready(sim, inter) && |x| == |y| == |zm| >= 4 && |inter.free| >= |x| + MulCells(|x|)
    requires |ze| == |xe| + 1 == |ye| + 1 && |ze| >= 3
    requires LiveReg(sim, inter, x) && LiveReg(sim, inter, y) && LiveReg(sim, inter, zm) && LiveReg(sim, inter, ze)
    requires LiveReg(sim, inter, xe) && LiveReg(sim, inter, ye) && Live(sim, inter, zero) && !sim.memory[zero]
    requires Live(sim, inter, xs) && Live(sim, inter, ys) && Live(sim, inter, zs) && xs != ys
    requires Distinct(x) && Distinct(y) && Distinct(zm) && Distinct(ze) && zero !in zm && zero !in ze
    requires Apart(x, zm) && Apart(y, zm) && Apart(zm, ze) && Apart(xe, zm) && Apart(ye, zm) && Apart(xe, ze)
    requires Apart(ye, ze)
    requires xs !in zm && xs !in ze && ys !in zm && ys !in ze && zs !in zm && zs !in ze
    modifies sim, inter
    ensures Ready(sim, inter) && inter.free == old(inter.free)
    ensures Kept(old(sim.memory), sim.memory, inter.free, [zs] + ze + zm)
    ensures var nm, s := |zm| - 1, old(ProductSig(|zm| - 1, Val(sim.memory, x), Val(sim.memory, y)));
            var e := (Pow2(|ze| - 1) + Pow2(|ze| - 2) + 1 + old(Val(sim.memory, xe) + Val(sim.memory, ye) +
                      ProductBump(|zm| - 1, Val(sim.memory, x), Val(sim.memory, y)))) % Pow2(|ze|);
            if s < Pow2(nm) || e >= Pow2(|ze| - 1) then
              !sim.memory[zs] && Val(sim.memory, ze) == 0 && Val(sim.memory, zm) == 0
            else
              sim.memory[zs] == old(sim.memory[xs] != sim.memory[ys]) && Val(sim.memory, ze) == e &&
              Val(sim.memory, zm) == s
    ensures sim.latency == old(sim.latency) + MulCycles(|x|) + 18 * |x| + 50 + 38 * |ze|
  {
    hide Val, Pow2, ProductSig, ProductBump, MulCells, MulCycles;
    MulMagnitude(sim, inter, xe, x, ye, y, ze, zm, zero);
    ghost var m1 := sim.memory;
    Xor(sim, inter, xs, ys, zs);
    ValKept(m1, sim.memory, inter.free, [zs], ze);
    ValKept(m1, sim.memory, inter.free, [zs], zm);
    ghost var m2 := sim.memory;
    TopBitVal(m2, ze);
    TopBitVal(m2, zm);
    Flush(sim, inter, zm[|zm| - 1], ze[|ze| - 1], zs, ze, zm);
  }

  /** What the product's significand and exponent become in the result cells. */
  ghost predicate MulResult(m: seq<bool>, sign: bool, se: nat, a: nat, b: nat, zs: nat, ze: seq<nat>, zm: seq<nat>)
    requires |ze| >= 1 && |zm| >= 1
  {
    var nm, s := |zm| - 1, ProductSig(|zm| - 1, a, b);
    var e := (Pow2(|ze|) + Pow2(|ze| - 1) + 1 + se + ProductBump(nm, a, b)) % Pow2(|ze| + 1);
    if s < Pow2(nm) || e >= Pow2(|ze|) then Bit(m, zs) == 0 && Val(m, ze) == 0 && Val(m, zm) == 0
    else Bit(m, zs) == (if sign then 1 else 0) && Val(m, ze) == e && Val(m, zm) == s
  }

  lemma MulResultTop(m: seq<bool>, sign: bool, se: nat, a: nat, b: nat, zs: nat, ze: seq<nat>, msb: nat, zm: seq<nat>)
    requires |ze| >= 1 && |zm| >= 1
    requires var nm, s, ze' := |zm| - 1, ProductSig(|zm| - 1, a, b), ze + [msb];
             var e := (Pow2(|ze'| - 1) + Pow2(|ze'| - 2) + 1 + se + ProductBump(nm, a, b)) % Pow2(|ze'|);
             if s < Pow2(nm) || e >= Pow2(|ze'| - 1) then Bit(m, zs) == 0 && Val(m, ze') == 0 && Val(m, zm) == 0
             else Bit(m, zs) == (if sign then 1 else 0) && Val(m, ze') == e && Val(m, zm) == s
    ensures MulResult(m, sign, se, a, b, zs, ze, zm)
  {
    hide Val, Pow2, ProductSig, ProductBump;
    ValSnoc(m, ze, msb);
  }

  /** The top exponent bit around `MulSigned`. */
  method MulTop(sim: SerialSimulator, inter: IntermediateAllocator, xs: nat, xe: seq<nat>, x: seq<nat>,
                ys: nat, ye: seq<nat>, y: seq<nat>, zs: nat, ze: seq<nat>, zm: seq<nat>, zero: nat)
    requires Ready(sim, inter) && |x| == |y| == |zm| >= 4 && |inter.free| >= |x| + 1 + MulCells(|x|)
    requires |ze| == |xe| == |ye| && |ze| >= 2
    requires LiveReg(sim, inter, x) && LiveReg(sim, inter, y) && LiveReg(sim, inter, zm) && LiveReg(sim, inter, ze)
    requires LiveReg(sim, inter, xe) && LiveReg(sim, inter, ye)
    requires Live(sim, inter, xs) && Live(sim, inter, ys) && Live(sim, inter, zs) && xs != ys
    requires Distinct(x) && Distinct(y) && Distinct(zm) && Distinct(ze)
    requires Apart(x, zm) && Apart(y, zm) && Apart(zm, ze) && Apart(xe, zm) && Apart(ye, zm) && Apart(xe, ze)
    requires Apart(ye, ze)
    requires xs !in zm && xs !in ze && ys !in zm && ys !in ze && zs !in zm && zs !in ze
    requires Live(sim, inter, zero) && !sim.memory[zero] && zero !in zm && zero !in ze
    modifies sim, inter
    ensures Ready(sim, inter) && inter.free == old(inter.free)
    ensures Kept(old(sim.memory), sim.memory, inter.free, [zs] + ze + zm)
    ensures MulResult(sim.memory, old(sim.memory[xs] != sim.memory[ys]), old(Val(sim.memory, xe) + Val(sim.memory, ye)),
                      old(Val(sim.memory, x)), old(Val(sim.memory, y)), zs, ze, zm)
    ensures sim.latency == old(sim.latency) + MulCycles(|x|) + 18 * |x| + 88 + 38 * |ze|
  {
    hide Val, Pow2, ProductSig, ProductBump, MulCells, MulCycles, MulResult, Distinct, Apart;
    ghost var m := sim.memory;
    var msb := inter.MallocCell();
    var ze' := ze + [msb];
    WithCell(sim, inter, ze, msb);
    ApartTop(xe, ze, msb);
    ApartTop(ye, ze, msb);
    ApartTop(zm, ze, msb);
    MulSigned(sim, inter, xs, xe, x, ys, ye, y, zs, ze', zm, zero);
    MulResultTop(sim.memory, m[xs] != m[ys], Val(m, xe) + Val(m, ye), Val(m, x), Val(m, y), zs, ze, msb, zm);
    inter.FreeCell(msb);
  }

  /** The padding cell around `MulTop`. */
  method MulExtended(sim: SerialSimulator, inter: IntermediateAllocator, xs: nat, xe: seq<nat>, x: seq<nat>,
                     ys: nat, ye: seq<nat>, y: seq<nat>, zs: nat, ze: seq<nat>, zm: seq<nat>)
    requires Ready(sim, inter) && |x| == |y| == |zm| >= 4 && |inter.free| >= |x| + 2 + MulCells(|x|)
    requires |ze| == |xe| == |ye| && |ze| >= 2
    requires LiveReg(sim, inter, x) && LiveReg(sim, inter, y) && LiveReg(sim, inter, zm) && LiveReg(sim, inter, ze)
    requires LiveReg(sim, inter, xe) && LiveReg(sim, inter, ye)
    requires Live(sim, inter, xs) && Live(sim, inter, ys) && Live(sim, inter, zs) && xs != ys
    requires Distinct(x) && Distinct(y) && Distinct(zm) && Distinct(ze)
    requires Apart(x, zm) && Apart(y, zm) && Apart(zm, ze) && Apart(xe, zm) && Apart(ye, zm) && Apart(xe, ze)
    requires Apart(ye, ze)
    requires xs !in zm && xs !in ze && ys !in zm && ys !in ze && zs !in zm && zs !in ze
    modifies sim, inter
    ensures Ready(sim, inter) && inter.free == old(inter.free)
    ensures Kept(old(sim.memory), sim.memory, inter.free, [zs] + ze + zm)
    ensures MulResult(sim.memory, old(sim.memory[xs] != sim.memory[ys]), old(Val(sim.memory, xe) + Val(sim.memory, ye)),
                      old(Val(sim.memory, x)), old(Val(sim.memory, y)), zs, ze, zm)
    ensures sim.latency == old(sim.latency) + MulCycles(|x|) + 18 * |x| + 89 + 38 * |ze|
  {
    hide Val, Pow2, MulCells, MulCycles, MulResult;
    ghost var m := sim.memory;
    var zero := inter.MallocCell();
    sim.Init0(zero);
    ghost var m1 := sim.memory;
    assert Kept1(m, m1, {}, zero);
    ValKeptCell(m, m1, {}, zero, x);
    ValKeptCell(m, m1, {}, zero, y);
    ValKeptCell(m, m1, {}, zero, xe);
    ValKeptCell(m, m1, {}, zero, ye);
    MulTop(sim, inter, xs, xe, x, ys, ye, y, zs, ze, zm, zero);
    inter.FreeCell(zero);
  }

  lemma ProductFloat(m: seq<bool>, x: Float, y: Float, zs: nat, ze: seq<nat>, zm: seq<nat>, zh: nat)
    requires |ze| >= 2
    requires MulResult(m, x.sign != y.sign, x.exp + y.exp, Significand(|zm|, x), Significand(|zm|, y), zs, ze,
                       zm + [zh])
    ensures FloatAt(m, zs, ze, zm) == FloatMul.Product(|ze|, |zm|, x, y)
  {
    hide Val, Pow2, ProductSig, ProductBump;
    DropHidden(m, zm, zh);
  }

  /** floatingMultiplication once the hidden-bit cells are allocated. */
  method MulHidden(sim: SerialSimulator, inter: IntermediateAllocator, xs: nat, xe: seq<nat>, xm: seq<nat>, xh: nat,
                   ys: nat, ye: seq<nat>, ym: seq<nat>, yh: nat, zs: nat, ze: seq<nat>, zm: seq<nat>, zh: nat)
    requires Ready(sim, inter) && |xm| == |ym| == |zm| >= 3 && |inter.free| >= |xm| + 3 + MulCells(|xm| + 1)
    requires |ze| == |xe| == |ye| && |ze| >= 2
    requires LiveReg(sim, inter, xe) && LiveReg(sim, inter, xm + [xh]) && LiveReg(sim, inter, ye)
    requires LiveReg(sim, inter, ym + [yh])
    requires LiveReg(sim, inter, ze) && LiveReg(sim, inter, zm + [zh])
    requires Live(sim, inter, xs) && Live(sim, inter, ys) && Live(sim, inter, zs) && xs != ys
    requires Distinct(xm + [xh]) && Distinct(ym + [yh]) && Distinct(zm + [zh]) && Distinct(ze)
    requires Apart(xm + [xh], zm + [zh]) && Apart(ym + [yh], zm + [zh]) && Apart(zm + [zh], ze)
    requires Apart(xe, zm + [zh]) && Apart(ye, zm + [zh]) && Apart(xe, ze) && Apart(ye, ze)
    requires xs !in zm + [zh] && xs !in ze && ys !in zm + [zh] && ys !in ze && zs !in zm + [zh] && zs !in ze
    requires xh != yh && xh !in ye && xh !in ym && yh !in xm && yh !in xe && yh !in ye && xh !in xe && xh != xs
    requires xh != ys && yh != xs && yh != ys
    modifies sim, inter
    ensures Ready(sim, inter) && inter.free == old(inter.free)
    ensures Kept(old(sim.memory), sim.memory, inter.free, [zs] + ze + (zm + [zh]) + [xh, yh])
    ensures FloatAt(sim.memory, zs, ze, zm) ==
            FloatMul.Product(|ze|, |zm|, old(FloatAt(sim.memory, xs, xe, xm)), old(FloatAt(sim.memory, ys, ye, ym)))
    ensures sim.latency == old(sim.latency) + MulCycles(|xm| + 1) + 18 * |xm| + 113 + 40 * |ze|
  {
    hide Val, Pow2, MulCells, MulCycles, MulResult, FloatMul.Product, Significand;
    ghost var m := sim.memory;
    assert forall i {:trigger xm[i]} | 0 <= i < |xm| :: xm[i] == (xm + [xh])[i];
    assert forall i {:trigger ym[i]} | 0 <= i < |ym| :: ym[i] == (ym + [yh])[i];
    assert (xm + [xh])[|xm|] == xh && (ym + [yh])[|ym|] == yh;
    HiddenBits(sim, inter, xs, xe, xm, xh, ys, ye, ym, yh);
    ghost var m1 := sim.memory;
    MulExtended(sim, inter, xs, xe, xm + [xh], ys, ye, ym + [yh], zs, ze, zm + [zh]);
    ProductFloat(sim.memory, FloatAt(m, xs, xe, xm), FloatAt(m, ys, ye, ym), zs, ze, zm, zh);
  }

  /** What the routine asks of its registers. */
  ghost predicate MulRegisters(sim: SerialSimulator, inter: IntermediateAllocator, xs: nat, xe: seq<nat>, xm: seq<nat>,
                               ys: nat, ye: seq<nat>, ym: seq<nat>, zs: nat, ze: seq<nat>, zm: seq<nat>)
    reads sim, inter
  {
    && Ready(sim, inter) && |xm| == |ym| == |zm| >= 3 && |ze| == |xe| == |ye| && |ze| >= 2
    && LiveReg(sim, inter, xe) && LiveReg(sim, inter, xm) && LiveReg(sim, inter, ye) && LiveReg(sim, inter, ym)
    && LiveReg(sim, inter, ze) && LiveReg(sim, inter, zm) && Live(sim, inter, xs) && Live(sim, inter, ys)
    && Live(sim, inter, zs) && xs != ys && Distinct(xm) && Distinct(ym) && Distinct(zm) && Distinct(ze)
    && Apart(xm, zm) && Apart(ym, zm) && Apart(zm, ze) && Apart(xe, zm) && Apart(ye, zm) && Apart(xe, ze)
    && Apart(ye, ze) && xs !in zm && xs !in ze && ys !in zm && ys !in ze && zs !in zm && zs !in ze
  }

  /** The routine around its hidden-bit cells. */
  method MultiplyFloats(sim: SerialSimulator, inter: IntermediateAllocator, xs: nat, xe: seq<nat>, xm: seq<nat>,
                        ys: nat, ye: seq<nat>, ym: seq<nat>, zs: nat, ze: seq<nat>, zm: seq<nat>)
    requires MulRegisters(sim, inter, xs, xe, xm, ys, ye, ym, zs, ze, zm)
    requires |inter.free| >= |xm| + 6 + MulCells(|xm| + 1)
    modifies sim, inter
    ensures Ready(sim, inter) && inter.free == old(inter.free)
    ensures Kept(old(sim.memory), sim.memory, inter.free, [zs] + ze + zm)
    ensures FloatAt(sim.memory, zs, ze, zm) ==
            FloatMul.Product(|ze|, |zm|, old(FloatAt(sim.memory, xs, xe, xm)), old(FloatAt(sim.memory, ys, ye, ym)))
    ensures sim.latency == old(sim.latency) + MulCycles(|xm| + 1) + 18 * |xm| + 113 + 40 * |ze|
  {
    hide FloatAt, MulCells, MulCycles, FloatMul.Product, Distinct, Apart;
    var xh, yh, zh := inter.Malloc3();
    WithCell(sim, inter, xm, xh);
    WithCell(sim, inter, ym, yh);
    WithCell(sim, inter, zm, zh);
    ApartTop(xm, zm, zh);
    ApartTop(zm + [zh], xm, xh);
    ApartTop(ym, zm, zh);
    ApartTop(zm + [zh], ym, yh);
    ApartTop(xe, zm, zh);
    ApartTop(ye, zm, zh);
    ApartSwap(zm, ze);
    ApartTop(ze, zm, zh);
    MulHidden(sim, inter, xs, xe, xm, xh, ys, ye, ym, yh, zs, ze, zm, zh);
    inter.Free3(xh, yh, zh);
  }

  /** floatingMultiplication: the result cells hold `FloatMul.Product` of the two floats, every other cell outside
      the pool keeps its bit, and the pool is given back whole. */
  method FloatingMultiplication(sim: SerialSimulator, inter: IntermediateAllocator, xs: nat, xe: seq<nat>, xm: seq<nat>,
                                ys: nat, ye: seq<nat>, ym: seq<nat>, zs: nat, ze: seq<nat>, zm: seq<nat>)
    requires MulRegisters(sim, inter, xs, xe, xm, ys, ye, ym, zs, ze, zm)
    requires |inter.free| >= |xm| + 6 + MulCells(|xm| + 1)
    modifies sim, inter
    ensures Ready(sim, inter) && inter.free == old(inter.free)
    ensures Kept(old(sim.memory), sim.memory, inter.free, [zs] + ze + zm)
    ensures var m := old(sim.memory);
            Float(sim.memory[zs], Val(sim.memory, ze), Val(sim.memory, zm)) ==
            FloatMul.Product(|ze|, |zm|, Float(m[xs], Val(m, xe), Val(m, xm)), Float(m[ys], Val(m, ye), Val(m, ym)))
    ensures sim.latency == old(sim.latency) + MulCycles(|xm| + 1) + 18 * |xm| + 113 + 40 * |ze|
  {
    hide FloatAt, Val, FloatMul.Product, Kept, MulCycles, MulCells;
    ghost var m := sim.memory;
    MultiplyFloats(sim, inter, xs, xe, xm, ys, ye, ym, zs, ze, zm);
    KeptSize(m, sim.memory, inter.free, [zs] + ze + zm);
    FloatAtIs(m, xs, xe, xm);
    FloatAtIs(m, ys, ye, ym);
    FloatAtIs(sim.memory, zs, ze, zm);
  }
}
