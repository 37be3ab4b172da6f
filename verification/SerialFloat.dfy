/** The steps that the floating-point routines of serial/AritPIM.py share. */
module SerialFloat {
  import opened Numbers
  import opened Rounding
  import opened Floats
  import opened Simulator
  import opened Allocator
  import opened Cells
  import opened SerialGates
  import opened SerialFixed
  import opened SerialShift
  import opened SerialKaratsuba

  /** The float in a sign cell, exponent cells and mantissa cells. */
  function FloatAt(m: seq<bool>, s: nat, e: seq<nat>, man: seq<nat>): Float {
    Float(Bit(m, s) == 1, Val(m, e), Val(m, man))
  }

  lemma FloatAtIs(m: seq<bool>, s: nat, e: seq<nat>, man: seq<nat>)
    requires s < |m|
    ensures FloatAt(m, s, e, man) == Float(m[s], Val(m, e), Val(m, man))
  {
  }

  /** should_round = AND(guard, OR(sticky, lsb)). */
  method RoundBit(sim: SerialSimulator, inter: IntermediateAllocator, sticky: nat, lsb: nat, guard: nat, out: nat)
    requires Ready(sim, inter) && |inter.free| >= 2
    requires Live(sim, inter, sticky) && Live(sim, inter, lsb) && Live(sim, inter, guard) && Live(sim, inter, out)
    requires sticky != lsb
    modifies sim, inter
    ensures Ready(sim, inter) && inter.free == old(inter.free)
    ensures Kept1(old(sim.memory), sim.memory, inter.free, out)
    ensures sim.memory[out] == old(sim.memory[guard] && (sim.memory[sticky] || sim.memory[lsb]))
    ensures sim.latency == old(sim.latency) + 6
  {
    var t0, t1 := inter.Malloc2();
    sim.Nor(sticky, lsb, t0);
    sim.Not(guard, t1);
    sim.Nor(t0, t1, out);
    inter.Free2(t0, t1);
  }

  lemma LowBit(m: seq<bool>, a: seq<nat>)
    requires |a| >= 1
    ensures Val(m, a) % 2 == Bit(m, a[0])
  {
    ValDivMod(m, a, 1);
    assert ValN(m, a, 1) == Bit(m, a[0]) by {
      assert ValN(m, a, 0) == 0;
    }
  }

  /** Adds the rounding bit to the significand in place; a carry out of the top becomes a new hidden bit. */
  method RoundAdd(sim: SerialSimulator, inter: IntermediateAllocator, zm: seq<nat>, should: nat, overflow: nat)
    requires Ready(sim, inter) && |inter.free| >= 4 && |zm| >= 1
    requires LiveReg(sim, inter, zm) && Distinct(zm) && Live(sim, inter, should) && Live(sim, inter, overflow)
    requires should !in zm && overflow !in zm && should != overflow
    modifies sim, inter
    ensures Ready(sim, inter) && inter.free == old(inter.free)
    ensures Kept(old(sim.memory), sim.memory, inter.free, zm + [overflow])
    ensures var s := old(Val(sim.memory, zm) + Bit(sim.memory, should));
            && Val(sim.memory, zm) == (if s == Pow2(|zm|) then Pow2(|zm| - 1) else s)
            && (sim.memory[overflow] <==> s == Pow2(|zm|))
    ensures sim.latency == old(sim.latency) + 10 * |zm| + 4
  {
    hide ValN, Pow2;
    ghost var carry := FixedAddBit(sim, inter, zm, zm, CarryAt(should), Some(overflow));
    ghost var m1 := sim.memory;
    var n := |zm| - 1;
    Or(sim, inter, zm[n], overflow, zm[n]);
    assert Same(m1, sim.memory, zm, 0, n);
    ValSame(m1, sim.memory, zm, n);
    ValNext(m1, zm, n);
    ValNext(sim.memory, zm, n);
    ValZero0(m1, zm, n);
  }

  lemma ValZero0(m: seq<bool>, a: seq<nat>, n: nat)
    requires n < |a|
    ensures ValN(m, a, n + 1) == 0 ==> ValN(m, a, n) == 0 && Bit(m, a[n]) == 0
  {
  }

  /** Clears every cell of the list, by X-MAGIC, when the bit in `t` is set. */
  method ClearIf(sim: SerialSimulator, t: nat, a: seq<nat>)
    requires t < |sim.memory| && t !in a && Distinct(a)
    requires forall i | 0 <= i < |a| :: a[i] < |sim.memory|
    modifies sim
    ensures Kept(old(sim.memory), sim.memory, {}, a)
    ensures old(sim.memory)[t] ==>
              forall i {:trigger Bit(sim.memory, a[i])} | 0 <= i < |a| :: Bit(sim.memory, a[i]) == 0
    ensures !old(sim.memory)[t] ==> Same(old(sim.memory), sim.memory, a, 0, |a|)
    ensures sim.latency == old(sim.latency) + |a|
  {
    ghost var m := sim.memory;
    for i := 0 to |a|
      invariant Kept(m, sim.memory, {}, a)
      invariant Same(m, sim.memory, a, i, |a|)
      invariant forall k {:trigger Bit(sim.memory, a[k])} | 0 <= k < i ::
                  Bit(sim.memory, a[k]) == if m[t] then 0 else Bit(m, a[k])
      invariant sim.latency == old(sim.latency) + i
    {
      ghost var m1 := sim.memory;
      sim.NotInto(t, a[i]);
      assert forall k {:trigger a[k]} | 0 <= k < |a| && k != i :: Bit(sim.memory, a[k]) == Bit(m1, a[k]);
    }
  }

  /** The rounding step: decides from guard and sticky, gives their cells (`spent`) back, adds the rounding bit,
      and leaves in a new cell whether the significand overflowed to the next power of two. */
  method RoundStage(sim: SerialSimulator, inter: IntermediateAllocator, zm: seq<nat>, guard: nat, sticky: nat,
                    spent: seq<nat>) returns (overflow: nat)
    requires Ready(sim, inter) && |inter.free| >= 4 && |zm| >= 1 && |spent| >= 2
    requires LiveReg(sim, inter, zm) && Distinct(zm) && LiveReg(sim, inter, spent) && Distinct(spent)
    requires Apart(zm, spent)
    requires guard in spent && sticky in spent && forall i | 0 <= i < |spent| :: Pooled(inter.cells, spent[i])
    modifies sim, inter
    ensures Ready(sim, inter) && Live(sim, inter, overflow) && Pooled(inter.cells, overflow) && overflow !in zm
    ensures forall c: nat {:trigger c in inter.free} ::
              c in inter.free <==> (c in old(inter.free) || c in spent) && c != overflow
    ensures |inter.free| == |old(inter.free)| + |spent| - 1
    ensures Kept(old(sim.memory), sim.memory, inter.free, zm + [overflow])
    ensures var s := RoundUp(old(Val(sim.memory, zm)), old(sim.memory)[guard], old(sim.memory)[sticky]);
            && Val(sim.memory, zm) == (if s == Pow2(|zm|) then Pow2(|zm| - 1) else s)
            && (sim.memory[overflow] <==> s == Pow2(|zm|))
    ensures overflow in old(inter.free) || overflow in spent
    ensures sim.latency == old(sim.latency) + 10 * |zm| + 10
  {
    hide Val, Pow2, Tracks;
    ghost var m := sim.memory;
    var should := inter.MallocCell();
    RoundBit(sim, inter, sticky, zm[0], guard, should);
    ghost var m1 := sim.memory;
    ValKept(m, m1, inter.free, [should], zm);
    LowBit(m, zm);
    inter.Free(spent);
    overflow := inter.MallocCell();
    RoundAdd(sim, inter, zm, should, overflow);
    inter.FreeCell(should);
  }

  lemma CeilLog2Positive(n: nat)
    requires n >= 2
    ensures CeilLog2(n) >= 1
  {
  }

  /** Right-shift normalisation: the carry above the register moves in when it is set, and the bit that
      leaves at the bottom joins the sticky bit. */
  method CarryShift(sim: SerialSimulator, inter: IntermediateAllocator, reg: seq<nat>, carry: nat, sticky: nat)
    requires Ready(sim, inter) && |inter.free| >= 4 && |reg| >= 1
    requires LiveReg(sim, inter, reg) && Distinct(reg) && Live(sim, inter, carry) && Live(sim, inter, sticky)
    requires carry !in reg && sticky !in reg && carry != sticky
    modifies sim, inter
    ensures Ready(sim, inter) && inter.free == old(inter.free)
    ensures Kept(old(sim.memory), sim.memory, inter.free, reg + [sticky])
    ensures var c, v := old(sim.memory)[carry], old(Val(sim.memory, reg));
            && Val(sim.memory, reg) == (if c then (v + Pow2(|reg|)) / 2 else v)
            && (sim.memory[sticky] <==> old(sim.memory)[sticky] || (c && (v + Pow2(|reg|)) % 2 == 1))
    ensures sim.latency == old(sim.latency) + 6 * (|reg| + 1) + 10
  {
    hide ValN, Val, Pow2, Tracks;
    ghost var m := sim.memory;
    var copy := inter.MallocCell();
    Id(sim, inter, carry, copy);
    ghost var m1 := sim.memory;
    var x := reg + [copy];
    assert forall i {:trigger x[i]} | 0 <= i < |x| :: x[i] == if i < |reg| then reg[i] else copy;
    CeilLog2Positive(|x|);
    Pow2Bit(1);
    VariableShiftRight(sim, inter, x, [carry], Some(sticky));
    inter.FreeCell(copy);
    CarryWeight(m1, carry);
    CarryShiftVal(m, m1, sim.memory, reg, copy, carry, Pow2(Val(m1, [carry])));
  }

  /** The carry as a shift amount. */
  lemma CarryWeight(m: seq<bool>, carry: nat)
    ensures Pow2(Val(m, [carry])) == 1 + Bit(m, carry)
  {
    hide Val;
    ValCell(m, carry);
    Pow2Bit(Bit(m, carry));
  }

  lemma Halved(v: int, p: int, w: int, c: nat, r: int, q: int, w0: int, c': nat)
    requires c <= 1 && p == 1 + c && v == r + (if c == 1 then q else 0) && w == v / p && 0 <= r < q
    requires w == w0 + (if c' == 1 then q else 0) && 0 <= w0 < q
    ensures v % p == (if c == 1 then (r + q) % 2 else 0) && w0 == if c == 1 then (r + q) / 2 else r
  {
    DivBySmall(v, p);
  }

  lemma CarryShiftVal(m: seq<bool>, m1: seq<bool>, m2: seq<bool>, reg: seq<nat>, copy: nat, carry: nat, p: nat)
    requires Same(m, m1, reg, 0, |reg|) && Bit(m1, carry) == Bit(m, carry) && Bit(m1, copy) == Bit(m, carry)
    requires p == 1 + Bit(m, carry) && Val(m2, reg + [copy]) == Val(m1, reg + [copy]) / p
    ensures Val(m1, reg + [copy]) % p == if Bit(m, carry) == 1 then (Val(m, reg) + Pow2(|reg|)) % 2 else 0
    ensures Val(m2, reg) == if Bit(m, carry) == 1 then (Val(m, reg) + Pow2(|reg|)) / 2 else Val(m, reg)
  {
    RegSame(m, m1, reg);
    hide ValN, Pow2, Val;
    ValSnoc(m1, reg, copy);
    ValSnoc(m2, reg, copy);
    Halved(Val(m1, reg + [copy]), p, Val(m2, reg + [copy]), Bit(m, carry), Val(m, reg), Pow2(|reg|), Val(m2, reg),
           Bit(m2, copy));
  }

  lemma RegSame(m: seq<bool>, m': seq<bool>, a: seq<nat>)
    requires Same(m, m', a, 0, |a|)
    ensures Val(m', a) == Val(m, a)
  {
    ValSame(m, m', a, |a|);
  }

  lemma Pow2Bit(b: nat)
    requires b <= 1
    ensures Pow2(b) == 1 + b
  {
    assert Pow2(0) == 1;
  }

  /** Adds an exponent field, zero-extended by one bit, and a carry into the exponent accumulator. */
  method AddExponent(sim: SerialSimulator, inter: IntermediateAllocator, e: seq<nat>, zero: nat, ze: seq<nat>, cin: nat)
    requires Ready(sim, inter) && |inter.free| >= 5 && |ze| == |e| + 1
    requires LiveReg(sim, inter, e) && LiveReg(sim, inter, ze) && Live(sim, inter, zero) && Live(sim, inter, cin)
    requires Distinct(ze) && Apart(e, ze) && zero !in ze && !sim.memory[zero]
    modifies sim, inter
    ensures Ready(sim, inter) && inter.free == old(inter.free)
    ensures Kept(old(sim.memory), sim.memory, inter.free, ze)
    ensures Val(sim.memory, ze) == old(Val(sim.memory, e) + Val(sim.memory, ze) + Bit(sim.memory, cin)) % Pow2(|ze|)
    ensures sim.latency == old(sim.latency) + 18 * |ze|
  {
    hide ValN, Val, Pow2;
    var p := e + Zeros(zero, 1);
    assert forall i {:trigger p[i]} | 0 <= i < |p| :: p[i] == if i < |e| then e[i] else zero;
    PadVal(sim.memory, e, zero, 1);
    ghost var k := FixedAddition(sim, inter, p, ze, ze, CarryAt(cin), None);
    ModCarry(Val(sim.memory, ze), k, Pow2(|ze|), old(Val(sim.memory, e) + Val(sim.memory, ze) + Bit(sim.memory, cin)));
  }

  /** should_zero = OR(NOT hidden, top), and the outputs cleared when it is set. */
  method FlushCells(sim: SerialSimulator, inter: IntermediateAllocator, hidden: nat, top: nat, a: seq<nat>)
    requires Ready(sim, inter) && |inter.free| >= 2
    requires Live(sim, inter, hidden) && Live(sim, inter, top) && LiveReg(sim, inter, a) && Distinct(a)
    modifies sim, inter
    ensures Ready(sim, inter) && inter.free == old(inter.free)
    ensures Kept(old(sim.memory), sim.memory, inter.free, a)
    ensures !old(sim.memory)[hidden] || old(sim.memory)[top] ==>
              forall i {:trigger Bit(sim.memory, a[i])} | 0 <= i < |a| :: Bit(sim.memory, a[i]) == 0
    ensures old(sim.memory)[hidden] && !old(sim.memory)[top] ==> Same(old(sim.memory), sim.memory, a, 0, |a|)
    ensures sim.latency == old(sim.latency) + 6 + |a|
  {
    ghost var m := sim.memory;
    var sz := inter.MallocCell();
    sim.Not(hidden, sz);
    Or(sim, inter, sz, top, sz);
    ghost var m1 := sim.memory;
    assert Same(m, m1, a, 0, |a|);
    ClearIf(sim, sz, a);
    inter.FreeCell(sz);
  }

  /** The end of a signed routine: sign, exponent and significand are flushed to zero, or kept. */
  method Flush(sim: SerialSimulator, inter: IntermediateAllocator, hidden: nat, top: nat, zs: nat, ze: seq<nat>,
               zm: seq<nat>)
    requires Ready(sim, inter) && |inter.free| >= 2
    requires Live(sim, inter, hidden) && Live(sim, inter, top) && Live(sim, inter, zs)
    requires LiveReg(sim, inter, ze) && LiveReg(sim, inter, zm)
    requires Distinct(ze) && Distinct(zm) && Apart(ze, zm) && zs !in ze && zs !in zm
    modifies sim, inter
    ensures Ready(sim, inter) && inter.free == old(inter.free)
    ensures Kept(old(sim.memory), sim.memory, inter.free, [zs] + ze + zm)
    ensures !old(sim.memory)[hidden] || old(sim.memory)[top] ==>
              !sim.memory[zs] && Val(sim.memory, ze) == 0 && Val(sim.memory, zm) == 0
    ensures old(sim.memory)[hidden] && !old(sim.memory)[top] ==>
              && sim.memory[zs] == old(sim.memory)[zs]
              && Val(sim.memory, ze) == old(Val(sim.memory, ze)) && Val(sim.memory, zm) == old(Val(sim.memory, zm))
    ensures sim.latency == old(sim.latency) + 7 + |ze| + |zm|
  {
    hide ValN;
    var a := [zs] + ze + zm;
    assert forall i {:trigger a[i]} | 0 <= i < |a| ::
             a[i] == if i == 0 then zs else if i <= |ze| then ze[i - 1] else zm[i - 1 - |ze|];
    FlushCells(sim, inter, hidden, top, a);
    FlushVal(old(sim.memory), sim.memory, zs, ze, zm, !old(sim.memory)[hidden] || old(sim.memory)[top]);
  }

  lemma FlushVal(m: seq<bool>, m': seq<bool>, zs: nat, ze: seq<nat>, zm: seq<nat>, flush: bool)
    requires var a := [zs] + ze + zm;
             if flush then forall i {:trigger Bit(m', a[i])} | 0 <= i < |a| :: Bit(m', a[i]) == 0
             else Same(m, m', a, 0, |a|)
    ensures flush ==> Bit(m', zs) == 0 && Val(m', ze) == 0 && Val(m', zm) == 0
    ensures !flush ==> Bit(m', zs) == Bit(m, zs) && Val(m', ze) == Val(m, ze) && Val(m', zm) == Val(m, zm)
  {
    hide ValN;
    var a := [zs] + ze + zm;
    assert a[0] == zs;
    forall i | 0 <= i < |ze|
      ensures Bit(m', ze[i]) == if flush then 0 else Bit(m, ze[i])
    {
      assert a[1 + i] == ze[i];
    }
    forall i | 0 <= i < |zm|
      ensures Bit(m', zm[i]) == if flush then 0 else Bit(m, zm[i])
    {
      assert a[1 + |ze| + i] == zm[i];
    }
    if flush {
      ValZero(m', ze, |ze|);
      ValZero(m', zm, |zm|);
    } else {
      ValSame(m, m', ze, |ze|);
      ValSame(m, m', zm, |zm|);
    }
  }

  /** The top cell is set exactly when the number reaches its weight. */
  lemma TopBitVal(m: seq<bool>, a: seq<nat>)
    requires |a| >= 1
    ensures Bit(m, a[|a| - 1]) == 1 <==> Val(m, a) >= Pow2(|a| - 1)
    ensures Val(m, a) == ValN(m, a, |a| - 1) + if Bit(m, a[|a| - 1]) == 1 then Pow2(|a| - 1) else 0
  {
    ValNext(m, a, |a| - 1);
  }

  /** The hidden bits: each is set exactly when the exponent field is nonzero, and tops its mantissa. */
  method HiddenBits(sim: SerialSimulator, inter: IntermediateAllocator, xs: nat, xe: seq<nat>, xm: seq<nat>, xh: nat,
                    ys: nat, ye: seq<nat>, ym: seq<nat>, yh: nat)
    requires Ready(sim, inter) && |inter.free| >= 1
    requires LiveReg(sim, inter, xe) && LiveReg(sim, inter, xm) && LiveReg(sim, inter, ye) && LiveReg(sim, inter, ym)
    requires Live(sim, inter, xh) && Live(sim, inter, yh) && xh != yh
    requires xh !in xm && xh !in ye && xh !in ym && yh !in xm && yh !in ym && yh !in xe && yh !in ye && xh !in xe
    modifies sim, inter
    ensures Ready(sim, inter) && inter.free == old(inter.free)
    ensures Kept2(old(sim.memory), sim.memory, inter.free, xh, yh)
    ensures Val(sim.memory, xm + [xh]) == old(Significand(|xm|, FloatAt(sim.memory, xs, xe, xm)))
    ensures Val(sim.memory, ym + [yh]) == old(Significand(|ym|, FloatAt(sim.memory, ys, ye, ym)))
    ensures Bit(sim.memory, xh) == 1 <==> old(Val(sim.memory, xe)) != 0
    ensures Bit(sim.memory, yh) == 1 <==> old(Val(sim.memory, ye)) != 0
    ensures Val(sim.memory, xe) == old(Val(sim.memory, xe)) && Val(sim.memory, ye) == old(Val(sim.memory, ye))
    ensures sim.latency == old(sim.latency) + 6 + |xe| + |ye|
  {
    hide Val, ValN, Pow2;
    ghost var m := sim.memory;
    ReduceOr(sim, inter, xe, xh);
    ghost var m1 := sim.memory;
    ValKeptCell(m, m1, inter.free, xh, ye);
    ReduceOr(sim, inter, ye, yh);
    assert Kept2(m, sim.memory, inter.free, xh, yh);
    ValKept2(m, sim.memory, inter.free, xh, yh, xm);
    ValKept2(m, sim.memory, inter.free, xh, yh, ym);
    ValKept2(m, sim.memory, inter.free, xh, yh, xe);
    ValKept2(m, sim.memory, inter.free, xh, yh, ye);
    ValSnoc(sim.memory, xm, xh);
    ValSnoc(sim.memory, ym, yh);
  }

  lemma ValKept2(m: seq<bool>, m': seq<bool>, f: set<nat>, o: nat, p: nat, a: seq<nat>)
    requires Kept2(m, m', f, o, p) && o !in a && p !in a && forall i | 0 <= i < |a| :: a[i] !in f
    ensures Val(m', a) == Val(m, a)
  {
    ValSame(m, m', a, |a|);
  }

  /** The mantissa field of a significand with its hidden bit set, and of zero. */
  lemma DropHidden(m: seq<bool>, zm: seq<nat>, zh: nat)
    ensures Val(m, zm + [zh]) >= Pow2(|zm|) ==> Val(m, zm) == Val(m, zm + [zh]) - Pow2(|zm|)
    ensures Val(m, zm + [zh]) == 0 ==> Val(m, zm) == 0
  {
    ValSnoc(m, zm, zh);
  }

  /** A register with a scratch cell on top. */
  lemma WithCell(sim: SerialSimulator, inter: IntermediateAllocator, a: seq<nat>, h: nat)
    requires LiveReg(sim, inter, a) && Live(sim, inter, h) && Distinct(a) && h !in a
    ensures LiveReg(sim, inter, a + [h]) && Distinct(a + [h])
  {
    assert forall i {:trigger (a + [h])[i]} | 0 <= i < |a| + 1 :: (a + [h])[i] == if i < |a| then a[i] else h;
  }

  lemma ApartTop(a: seq<nat>, b: seq<nat>, h: nat)
    requires Apart(a, b) && h !in a
    ensures Apart(a, b + [h]) && Apart(b + [h], a)
  {
    assert forall i {:trigger (b + [h])[i]} | 0 <= i < |b| + 1 :: (b + [h])[i] == if i < |b| then b[i] else h;
  }

  lemma ApartSwap(a: seq<nat>, b: seq<nat>)
    requires Apart(a, b)
    ensures Apart(b, a)
  {
  }

  /** The rounded significand as the cells hold it, and whether it overflowed. */
  ghost predicate RoundedTo(m: seq<bool>, zm: seq<nat>, overflow: nat, s: nat)
    requires |zm| >= 1
  {
    && Val(m, zm) == (if s == Pow2(|zm|) then Pow2(|zm| - 1) else s)
    && (Bit(m, overflow) == 1 <==> s == Pow2(|zm|))
  }

  /** A normalised significand with guard, round and sticky bits that rounds to `s`. */
  ghost predicate RoundsFrom(m: seq<bool>, zm: seq<nat>, guard: nat, round: nat, sticky: nat, s: nat) {
    RoundUp(Val(m, zm), Bit(m, guard) == 1, Bit(m, round) == 1 || Bit(m, sticky) == 1) == s
  }

  /** sticky = OR(round, sticky), then the rounding step. */
  method StickyRound(sim: SerialSimulator, inter: IntermediateAllocator, zm: seq<nat>, guard: nat, round: nat,
                     sticky: nat, ghost s: nat)
    returns (overflow: nat)
    requires Ready(sim, inter) && |inter.free| >= 4 && |zm| >= 1
    requires LiveReg(sim, inter, zm) && Distinct(zm) && guard !in zm && round !in zm && sticky !in zm
    requires Live(sim, inter, guard) && Live(sim, inter, round) && Live(sim, inter, sticky)
    requires Pooled(inter.cells, guard) && Pooled(inter.cells, round) && Pooled(inter.cells, sticky)
    requires guard != round && guard != sticky && round != sticky
    modifies sim, inter
    ensures Ready(sim, inter) && Live(sim, inter, overflow) && Pooled(inter.cells, overflow) && overflow !in zm
    ensures inter.free == old(inter.free) + {guard, round, sticky} - {overflow}
    ensures overflow in old(inter.free) || overflow == guard || overflow == round || overflow == sticky
    ensures Kept(old(sim.memory), sim.memory, inter.free, zm + [overflow])
    ensures old(RoundsFrom(sim.memory, zm, guard, round, sticky, s)) ==> RoundedTo(sim.memory, zm, overflow, s)
    ensures sim.latency == old(sim.latency) + 10 * |zm| + 14
  {
    hide Val, Pow2, RoundUp;
    ghost var m := sim.memory;
    Or(sim, inter, round, sticky, sticky);
    ValKeptCell(m, sim.memory, inter.free, sticky, zm);
    var spent := [guard, round, sticky];
    overflow := RoundStage(sim, inter, zm, guard, sticky, spent);
  }

  /** The exponent cells hold `e` modulo `2^(Ne+1)`, which shows a negative `e` in the top cell. */
  ghost predicate WrappedTo(m: seq<bool>, ze: seq<nat>, e: int)
    requires |ze| >= 1
  {
    if e < 0 then Val(m, ze) >= Pow2(|ze| - 1) else Val(m, ze) == e
  }

  lemma WrappedTop(m: seq<bool>, ze: seq<nat>, msb: nat, e: int)
    requires WrappedTo(m, ze + [msb], e)
    ensures Bit(m, msb) == 1 <==> e < 0 || e >= Pow2(|ze|)
    ensures 0 <= e < Pow2(|ze|) ==> Val(m, ze) == e
  {
    hide Val, Pow2;
    ValSnoc(m, ze, msb);
  }
}
