/** Fixed-point addition and subtraction of serial/AritPIM.py, bit by bit over address lists. */
module SerialFixed {
  import opened Numbers
  import opened Simulator
  import opened Allocator
  import opened Cells
  import opened SerialGates

  /** The optional input carry: absent, the constant 1, or a cell. */
  datatype CarryIn = NoCarry | OneCarry | CarryAt(cell: nat)

  function CarryInBit(m: seq<bool>, cin: CarryIn): (b: nat)
    ensures b <= 1
  {
    match cin
    case NoCarry => 0
    case OneCarry => 1
    case CarryAt(c) => Bit(m, c)
  }

  /** The output may overlap the inputs as long as no cell is written before its last read. */
  ghost predicate WritesBehind(z: seq<nat>, x: seq<nat>)
    requires |z| == |x|
  {
    forall i, j | 0 <= i < j < |z| :: z[i] != x[j]
  }

  /** One column of a ripple addition. */
  lemma Column(p: nat, zi: nat, z: nat, cin: nat, cout: nat, x: nat, y: nat, xi: nat, yi: nat, c0: nat)
    requires zi <= 1 && cin <= 1 && cout <= 1 && xi <= 1 && yi <= 1
    requires z + (if cin == 1 then p else 0) == x + y + c0
    requires zi + 2 * cout == xi + yi + cin
    ensures z + (if zi == 1 then p else 0) + (if cout == 1 then 2 * p else 0) ==
            x + (if xi == 1 then p else 0) + (y + (if yi == 1 then p else 0)) + c0
  {
  }

  /** Where the carry into column `i` of `n` stands. */
  function CarryCell(i: nat, n: nat, first: nat, c: nat, last: nat): nat {
    if i == 0 then first else if i >= n then last else c
  }

  /** What the ripple loop keeps: the columns done so far add up, the columns ahead are unread. */
  ghost predicate RippleInv(m: seq<bool>, m': seq<bool>, f: set<nat>, x: seq<nat>, y: seq<nat>, z: seq<nat>, i: nat,
                            first: nat, c: nat, last: nat)
    requires i <= |x| == |y| == |z|
  {
    && Kept(m, m', f, z + [c, last])
    && Same(m, m', x, i, |x|) && Same(m, m', y, i, |y|)
    && ValN(m', z, i) + (if Bit(m', CarryCell(i, |z|, first, c, last)) == 1 then Pow2(i) else 0) ==
       ValN(m, x, i) + ValN(m, y, i) + Bit(m, first)
  }

  ghost predicate RipplePre(sim: SerialSimulator, inter: IntermediateAllocator, x: seq<nat>, y: seq<nat>, z: seq<nat>,
                            first: nat, c: nat, last: nat)
    reads sim, inter
  {
    && Ready(sim, inter) && |x| == |y| == |z|
    && LiveReg(sim, inter, x) && LiveReg(sim, inter, y) && LiveReg(sim, inter, z)
    && Live(sim, inter, first) && Live(sim, inter, c) && Live(sim, inter, last)
    && Distinct(z) && WritesBehind(z, x) && WritesBehind(z, y)
    && c !in x && c !in y && c !in z && last !in z
  }

  /** A column changes only its cell of `z` and the carry, so the columns ahead are still unread. */
  lemma RippleStepVal(m: seq<bool>, m1: seq<bool>, m2: seq<bool>, f: set<nat>, x: seq<nat>, y: seq<nat>, z: seq<nat>,
                      i: nat, first: nat, c: nat, last: nat, cin: nat, cout: nat)
    requires i < |x| == |y| == |z| && Distinct(z) && WritesBehind(z, x) && WritesBehind(z, y)
    requires forall k | 0 <= k < |z| :: x[k] !in f && y[k] !in f && z[k] !in f
    requires c !in x && c !in y && c !in z && last !in z
    requires RippleInv(m, m1, f, x, y, z, i, first, c, last)
    requires cin == CarryCell(i, |z|, first, c, last) && cout == CarryCell(i + 1, |z|, first, c, last)
    requires Kept2(m1, m2, f, z[i], cout)
    requires Bit(m2, z[i]) + 2 * Bit(m2, cout) == Bit(m1, x[i]) + Bit(m1, y[i]) + Bit(m1, cin)
    ensures |m1| == |m2| && RippleInv(m, m2, f, x, y, z, i + 1, first, c, last)
  {
    hide ValN, Pow2;
    AheadKept(m1, m2, f, x, z, i, c, cout);
    AheadKept(m1, m2, f, y, z, i, c, cout);
    BehindKept(m1, m2, f, z, i, cout);
    ValNext(m2, z, i);
    ValNext(m, x, i);
    ValNext(m, y, i);
    Pow2Next(i);
    Column(Pow2(i), Bit(m2, z[i]), ValN(m1, z, i), Bit(m1, cin), Bit(m2, cout),
           ValN(m, x, i), ValN(m, y, i), Bit(m, x[i]), Bit(m, y[i]), Bit(m, first));
  }

  /** The columns behind a step keep their number. */
  lemma BehindKept(m1: seq<bool>, m2: seq<bool>, f: set<nat>, z: seq<nat>, i: nat, cout: nat)
    requires i < |z| && Distinct(z) && Kept2(m1, m2, f, z[i], cout) && cout !in z
    requires forall k | 0 <= k < |z| :: z[k] !in f
    ensures ValN(m2, z, i) == ValN(m1, z, i)
  {
    hide ValN;
    assert Same(m1, m2, z, 0, i);
    ValSame(m1, m2, z, i);
  }

  /** The columns ahead of a step keep their bits; only the last step may write the final carry over an operand. */
  lemma AheadKept(m1: seq<bool>, m2: seq<bool>, f: set<nat>, x: seq<nat>, z: seq<nat>, i: nat, c: nat, cout: nat)
    requires i < |x| == |z| && WritesBehind(z, x) && Kept2(m1, m2, f, z[i], cout) && (i + 1 < |x| ==> cout == c)
    requires c !in x
    requires forall k | 0 <= k < |x| :: x[k] !in f
    ensures Same(m1, m2, x, i + 1, |x|)
  {
  }

  method RippleStep(sim: SerialSimulator, inter: IntermediateAllocator, x: seq<nat>, y: seq<nat>, z: seq<nat>, i: nat,
                    first: nat, c: nat, last: nat, ghost m: seq<bool>)
    requires RipplePre(sim, inter, x, y, z, first, c, last) && |inter.free| >= 4
    requires i < |x| && x[i] != y[i]
    requires RippleInv(m, sim.memory, inter.free, x, y, z, i, first, c, last)
    modifies sim, inter
    ensures RipplePre(sim, inter, x, y, z, first, c, last) && inter.free == old(inter.free)
    ensures RippleInv(m, sim.memory, inter.free, x, y, z, i + 1, first, c, last)
    ensures sim.latency == old(sim.latency) + 18
  {
    hide Tracks, RippleInv, Kept2;
    ghost var m1 := sim.memory;
    var cin, cout := if i > 0 then c else first, if i < |x| - 1 then c else last;
    FullAdder(sim, inter, x[i], y[i], cin, z[i], cout);
    RippleStepVal(m, m1, sim.memory, inter.free, x, y, z, i, first, c, last, cin, cout);
  }

  /** The loop of fixedAddition, with the carry cells chosen. */
  method Ripple(sim: SerialSimulator, inter: IntermediateAllocator, x: seq<nat>, y: seq<nat>, z: seq<nat>,
                first: nat, c: nat, last: nat)
    requires RipplePre(sim, inter, x, y, z, first, c, last) && |inter.free| >= 4
    requires forall i | 0 <= i < |x| :: x[i] != y[i]
    modifies sim, inter
    ensures Ready(sim, inter) && inter.free == old(inter.free)
    ensures Kept(old(sim.memory), sim.memory, inter.free, z + [c, last])
    ensures Val(sim.memory, z) + (if Bit(sim.memory, CarryCell(|z|, |z|, first, c, last)) == 1 then Pow2(|z|) else 0) ==
            old(Val(sim.memory, x) + Val(sim.memory, y) + Bit(sim.memory, first))
    ensures sim.latency == old(sim.latency) + 18 * |z|
  {
    ghost var m := sim.memory;
    for i := 0 to |x|
      invariant RipplePre(sim, inter, x, y, z, first, c, last) && inter.free == old(inter.free)
      invariant RippleInv(m, sim.memory, inter.free, x, y, z, i, first, c, last)
      invariant sim.latency == old(sim.latency) + 18 * i
    {
      hide RippleInv, RipplePre;
      RippleStep(sim, inter, x, y, z, i, first, c, last, m);
    }
  }

  /** The carry cell is scratch: outside it only the outputs change. */
  lemma CarryKeeps(m: seq<bool>, m1: seq<bool>, m2: seq<bool>, f: set<nat>, z: seq<nat>, c: nat, last: nat,
                   cout: Option<nat>)
    requires Kept1(m, m1, {}, c) && Kept(m1, m2, f, z + [c, last]) && last == if cout.Some? then cout.value else c
    ensures Kept(m, m2, f + {c}, if cout.Some? then z + [cout.value] else z)
  {
    assert forall d | d in z + [c, last] :: d == c || d in (if cout.Some? then z + [cout.value] else z);
  }

  /** A constant carry into the first column is written to `c`. */
  method SetCarry(sim: SerialSimulator, c: nat, cin: CarryIn) returns (first: nat)
    requires c < |sim.memory| && (cin.CarryAt? ==> cin.cell != c)
    modifies sim
    ensures Kept1(old(sim.memory), sim.memory, {}, c) && first == if cin.CarryAt? then cin.cell else c
    ensures Bit(sim.memory, first) == old(CarryInBit(sim.memory, cin))
    ensures sim.latency == old(sim.latency) + if cin.CarryAt? then 0 else 1
  {
    first := c;
    match cin {
      case NoCarry => sim.Init0(c);
      case OneCarry => sim.Init1(c);
      case CarryAt(a) => first := a;
    }
  }

  /** fixedAddition: 18 cycles per bit, plus one to set a constant carry. `carry` is the carry out of the top bit. */
  method FixedAddition(sim: SerialSimulator, inter: IntermediateAllocator, x: seq<nat>, y: seq<nat>, z: seq<nat>,
                       cin: CarryIn, cout: Option<nat>) returns (ghost carry: nat)
    requires Ready(sim, inter) && |inter.free| >= 5
    requires |x| == |y| == |z|
    requires LiveReg(sim, inter, x) && LiveReg(sim, inter, y) && LiveReg(sim, inter, z)
    requires cin.CarryAt? ==> Live(sim, inter, cin.cell)
    requires cout.Some? ==> Live(sim, inter, cout.value) && cout.value !in z
    requires Distinct(z) && WritesBehind(z, x) && WritesBehind(z, y)
    requires forall i | 0 <= i < |x| :: x[i] != y[i]
    modifies sim, inter
    ensures Ready(sim, inter) && inter.free == old(inter.free)
    ensures Kept(old(sim.memory), sim.memory, inter.free, if cout.Some? then z + [cout.value] else z)
    ensures carry <= 1
    ensures Val(sim.memory, z) + (if carry == 1 then Pow2(|z|) else 0) ==
            old(Val(sim.memory, x) + Val(sim.memory, y) +
                match cin case NoCarry => 0 case OneCarry => 1 case CarryAt(c) => Bit(sim.memory, c))
    ensures cout.Some? && |z| > 0 ==> carry == Bit(sim.memory, cout.value)
    ensures sim.latency == old(sim.latency) + 18 * |z| + (if cin.CarryAt? then 0 else 1)
  {
    hide Pow2, ValN, Tracks, Bit, WritesBehind, Distinct;
    ghost var m := sim.memory;
    var c := inter.MallocCell();
    var first := SetCarry(sim, c, cin);
    ghost var m1 := sim.memory;
    var last := if cout.Some? then cout.value else c;
    ValKeptCell(m, sim.memory, {}, c, x);
    ValKeptCell(m, sim.memory, {}, c, y);
    Ripple(sim, inter, x, y, z, first, c, last);
    CarryKeeps(m, m1, sim.memory, inter.free, z, c, last, cout);
    carry := Bit(sim.memory, CarryCell(|z|, |z|, first, c, last));
    inter.FreeCell(c);
  }

  /** What the subtraction loop keeps: with the borrow-free carry `c`, `z + y + 2^i*c == x + 2^i` on `i` columns. */
  ghost predicate BorrowInv(m: seq<bool>, m': seq<bool>, f: set<nat>, x: seq<nat>, y: seq<nat>, z: seq<nat>, i: nat,
                            c: nat, last: nat)
    requires i <= |x| == |y| == |z|
  {
    && Kept(m, m', f, z + [c, last])
    && Same(m, m', x, i, |x|) && Same(m, m', y, i, |y|)
    && ValN(m', z, i) + (if Bit(m', CarryCell(i, |z|, c, c, last)) == 1 then Pow2(i) else 0) + ValN(m, y, i) ==
       ValN(m, x, i) + Pow2(i)
  }

  lemma BorrowColumn(p: nat, zi: nat, z: nat, cin: nat, cout: nat, x: nat, y: nat, xi: nat, yi: nat)
    requires zi <= 1 && cin <= 1 && cout <= 1 && xi <= 1 && yi <= 1
    requires z + (if cin == 1 then p else 0) + y == x + p
    requires zi + 2 * cout == xi + 1 - yi + cin
    ensures z + (if zi == 1 then p else 0) + (if cout == 1 then 2 * p else 0) + (y + (if yi == 1 then p else 0)) ==
            x + (if xi == 1 then p else 0) + 2 * p
  {
  }

  lemma BorrowStepVal(m: seq<bool>, m1: seq<bool>, m2: seq<bool>, f: set<nat>, x: seq<nat>, y: seq<nat>, z: seq<nat>,
                      i: nat, c: nat, last: nat, cout: nat)
    requires i < |x| == |y| == |z| && Distinct(z) && WritesBehind(z, x) && WritesBehind(z, y)
    requires forall k | 0 <= k < |z| :: x[k] !in f && y[k] !in f && z[k] !in f
    requires c !in x && c !in y && c !in z && last !in z
    requires BorrowInv(m, m1, f, x, y, z, i, c, last)
    requires cout == CarryCell(i + 1, |z|, c, c, last) && Kept2(m1, m2, f, z[i], cout)
    requires Bit(m2, z[i]) + 2 * Bit(m2, cout) == Bit(m1, x[i]) + 1 - Bit(m1, y[i]) + Bit(m1, c)
    ensures |m1| == |m2| && BorrowInv(m, m2, f, x, y, z, i + 1, c, last)
  {
    hide ValN, Pow2;
    AheadKept(m1, m2, f, x, z, i, c, cout);
    AheadKept(m1, m2, f, y, z, i, c, cout);
    BehindKept(m1, m2, f, z, i, cout);
    ValNext(m2, z, i);
    ValNext(m, x, i);
    ValNext(m, y, i);
    Pow2Next(i);
    BorrowColumn(Pow2(i), Bit(m2, z[i]), ValN(m1, z, i), Bit(m1, c), Bit(m2, cout),
                 ValN(m, x, i), ValN(m, y, i), Bit(m, x[i]), Bit(m, y[i]));
  }

  method BorrowStep(sim: SerialSimulator, inter: IntermediateAllocator, x: seq<nat>, y: seq<nat>, z: seq<nat>, i: nat,
                    c: nat, last: nat, ghost m: seq<bool>)
    requires RipplePre(sim, inter, x, y, z, c, c, last) && |inter.free| >= 5
    requires i < |x|
    requires BorrowInv(m, sim.memory, inter.free, x, y, z, i, c, last)
    modifies sim, inter
    ensures RipplePre(sim, inter, x, y, z, c, c, last) && inter.free == old(inter.free)
    ensures BorrowInv(m, sim.memory, inter.free, x, y, z, i + 1, c, last)
    ensures sim.latency == old(sim.latency) + 20
  {
    hide Tracks, BorrowInv, Kept2;
    ghost var m1 := sim.memory;
    var cout := if i < |x| - 1 then c else last;
    FullSubtractor(sim, inter, x[i], y[i], c, z[i], cout);
    BorrowStepVal(m, m1, sim.memory, inter.free, x, y, z, i, c, last, cout);
  }

  lemma BorrowStart(m: seq<bool>, f: set<nat>, x: seq<nat>, y: seq<nat>, z: seq<nat>, c: nat, last: nat)
    requires |x| == |y| == |z| && Bit(m, c) == 1
    ensures BorrowInv(m, m, f, x, y, z, 0, c, last)
  {
  }

  /** The loop of fixedSubtraction; the carry cell holds 1 on entry. */
  method Borrow(sim: SerialSimulator, inter: IntermediateAllocator, x: seq<nat>, y: seq<nat>, z: seq<nat>,
                c: nat, last: nat)
    requires RipplePre(sim, inter, x, y, z, c, c, last) && |inter.free| >= 5
    requires sim.memory[c]
    modifies sim, inter
    ensures Ready(sim, inter) && inter.free == old(inter.free)
    ensures Kept(old(sim.memory), sim.memory, inter.free, z + [c, last])
    ensures Val(sim.memory, z) + (if Bit(sim.memory, CarryCell(|z|, |z|, c, c, last)) == 1 then Pow2(|z|) else 0) +
            old(Val(sim.memory, y)) == old(Val(sim.memory, x)) + Pow2(|z|)
    ensures sim.latency == old(sim.latency) + 20 * |z|
  {
    hide ValN, Pow2;
    ghost var m := sim.memory;
    BorrowStart(m, inter.free, x, y, z, c, last);
    for i := 0 to |x|
      invariant RipplePre(sim, inter, x, y, z, c, c, last) && inter.free == old(inter.free)
      invariant BorrowInv(m, sim.memory, inter.free, x, y, z, i, c, last)
      invariant sim.latency == old(sim.latency) + 20 * i
    {
      hide BorrowInv, RipplePre;
      BorrowStep(sim, inter, x, y, z, i, c, last, m);
    }
  }

  /** fixedSubtraction: 20N + 1 cycles. The carry out is 1 exactly when `x >= y`. */
  method FixedSubtraction(sim: SerialSimulator, inter: IntermediateAllocator, x: seq<nat>, y: seq<nat>, z: seq<nat>,
                          cout: Option<nat>)
    requires Ready(sim, inter) && |inter.free| >= 6
    requires |x| == |y| == |z|
    requires LiveReg(sim, inter, x) && LiveReg(sim, inter, y) && LiveReg(sim, inter, z)
    requires cout.Some? ==> Live(sim, inter, cout.value) && cout.value !in z
    requires Distinct(z) && WritesBehind(z, x) && WritesBehind(z, y)
    modifies sim, inter
    ensures Ready(sim, inter) && inter.free == old(inter.free)
    ensures Kept(old(sim.memory), sim.memory, inter.free, if cout.Some? then z + [cout.value] else z)
    ensures Val(sim.memory, z) == old(Val(sim.memory, x) - Val(sim.memory, y) +
                                      if Val(sim.memory, x) >= Val(sim.memory, y) then 0 else Pow2(|z|))
    ensures cout.Some? && |z| > 0 ==>
              (sim.memory[cout.value] <==> old(Val(sim.memory, x) >= Val(sim.memory, y)))
    ensures sim.latency == old(sim.latency) + 20 * |z| + 1
  {
    hide Pow2, ValN, Tracks;
    ghost var m := sim.memory;
    var c := inter.MallocCell();
    sim.Init1(c);
    ghost var m1 := sim.memory;
    var last := if cout.Some? then cout.value else c;
    assert Kept1(m, sim.memory, {}, c);
    ValKeptCell(m, sim.memory, {}, c, x);
    ValKeptCell(m, sim.memory, {}, c, y);
    Borrow(sim, inter, x, y, z, c, last);
    CarryKeeps(m, m1, sim.memory, inter.free, z, c, last, cout);
    inter.FreeCell(c);
  }

  ghost predicate AddBitInv(m: seq<bool>, m': seq<bool>, f: set<nat>, x: seq<nat>, z: seq<nat>, i: nat,
                            first: nat, c: nat, last: nat)
    requires i <= |x| == |z|
  {
    && Kept(m, m', f, z + [c, last])
    && Same(m, m', x, i, |x|)
    && ValN(m', z, i) + (if Bit(m', CarryCell(i, |z|, first, c, last)) == 1 then Pow2(i) else 0) ==
       ValN(m, x, i) + Bit(m, first)
  }

  lemma AddBitStepVal(m: seq<bool>, m1: seq<bool>, m2: seq<bool>, f: set<nat>, x: seq<nat>, z: seq<nat>, i: nat,
                      first: nat, c: nat, last: nat, cin: nat, cout: nat)
    requires i < |x| == |z| && Distinct(z) && WritesBehind(z, x) && forall k | 0 <= k < |z| :: x[k] !in f && z[k] !in f
    requires c !in x && c !in z && last !in z
    requires AddBitInv(m, m1, f, x, z, i, first, c, last)
    requires cin == CarryCell(i, |z|, first, c, last) && cout == CarryCell(i + 1, |z|, first, c, last)
    requires Kept2(m1, m2, f, z[i], cout)
    requires Bit(m2, z[i]) + 2 * Bit(m2, cout) == Bit(m1, x[i]) + Bit(m1, cin)
    ensures |m1| == |m2| && AddBitInv(m, m2, f, x, z, i + 1, first, c, last)
  {
    hide ValN, Pow2;
    AheadKept(m1, m2, f, x, z, i, c, cout);
    BehindKept(m1, m2, f, z, i, cout);
    ValNext(m2, z, i);
    ValNext(m, x, i);
    Pow2Next(i);
    Column(Pow2(i), Bit(m2, z[i]), ValN(m1, z, i), Bit(m1, cin), Bit(m2, cout),
           ValN(m, x, i), 0, Bit(m, x[i]), 0, Bit(m, first));
  }

  method AddBitStep(sim: SerialSimulator, inter: IntermediateAllocator, x: seq<nat>, z: seq<nat>, i: nat,
                    first: nat, c: nat, last: nat, ghost m: seq<bool>)
    requires RipplePre(sim, inter, x, x, z, first, c, last) && |inter.free| >= 3
    requires i < |x| && x[0] != first
    requires AddBitInv(m, sim.memory, inter.free, x, z, i, first, c, last)
    modifies sim, inter
    ensures RipplePre(sim, inter, x, x, z, first, c, last) && inter.free == old(inter.free)
    ensures AddBitInv(m, sim.memory, inter.free, x, z, i + 1, first, c, last)
    ensures sim.latency == old(sim.latency) + 10
  {
    hide Tracks, AddBitInv, Kept2;
    ghost var m1 := sim.memory;
    var cin, cout := if i > 0 then c else first, if i < |x| - 1 then c else last;
    HalfAdder(sim, inter, x[i], cin, z[i], cout);
    AddBitStepVal(m, m1, sim.memory, inter.free, x, z, i, first, c, last, cin, cout);
  }

  /** The loop of __fixedAddBit, with the carry cells chosen. */
  method AddBitLoop(sim: SerialSimulator, inter: IntermediateAllocator, x: seq<nat>, z: seq<nat>, first: nat, c: nat,
                    last: nat)
    requires RipplePre(sim, inter, x, x, z, first, c, last) && |inter.free| >= 3 && (|x| > 0 ==> x[0] != first)
    modifies sim, inter
    ensures Ready(sim, inter) && inter.free == old(inter.free)
    ensures Kept(old(sim.memory), sim.memory, inter.free, z + [c, last])
    ensures Val(sim.memory, z) + (if Bit(sim.memory, CarryCell(|z|, |z|, first, c, last)) == 1 then Pow2(|z|) else 0) ==
            old(Val(sim.memory, x) + Bit(sim.memory, first))
    ensures sim.latency == old(sim.latency) + 10 * |z|
  {
    ghost var m := sim.memory;
    for i := 0 to |x|
      invariant RipplePre(sim, inter, x, x, z, first, c, last) && inter.free == old(inter.free)
      invariant AddBitInv(m, sim.memory, inter.free, x, z, i, first, c, last)
      invariant sim.latency == old(sim.latency) + 10 * i
    {
      hide AddBitInv, RipplePre;
      AddBitStep(sim, inter, x, z, i, first, c, last, m);
    }
  }

  /** The carry into the first column and the loop, with the carry cell given. */
  method AddBitFrom(sim: SerialSimulator, inter: IntermediateAllocator, x: seq<nat>, z: seq<nat>,
                    cin: CarryIn, c: nat, cout: Option<nat>) returns (ghost carry: nat)
    requires Ready(sim, inter) && |inter.free| >= 3
    requires |x| == |z| && !cin.NoCarry? && Live(sim, inter, c) && c !in x && c !in z
    requires LiveReg(sim, inter, x) && LiveReg(sim, inter, z)
    requires cin.CarryAt? ==> Live(sim, inter, cin.cell) && cin.cell != c && (|x| > 0 ==> cin.cell != x[0])
    requires cout.Some? ==> Live(sim, inter, cout.value) && cout.value !in z
    requires Distinct(z) && WritesBehind(z, x)
    modifies sim, inter
    ensures Ready(sim, inter) && inter.free == old(inter.free)
    ensures Kept(old(sim.memory), sim.memory, inter.free + {c}, if cout.Some? then z + [cout.value] else z)
    ensures carry <= 1
    ensures Val(sim.memory, z) + (if carry == 1 then Pow2(|z|) else 0) ==
            old(Val(sim.memory, x) + CarryInBit(sim.memory, cin))
    ensures cout.Some? && |z| > 0 ==> carry == Bit(sim.memory, cout.value)
    ensures sim.latency == old(sim.latency) + 10 * |z| + if cin.OneCarry? then 1 else 0
  {
    hide Pow2, ValN, Tracks, CarryInBit, WritesBehind, Distinct;
    ghost var m := sim.memory;
    var first := SetCarry(sim, c, cin);
    ghost var m1 := sim.memory;
    var last := if cout.Some? then cout.value else c;
    ValKeptCell(m, m1, {}, c, x);
    AddBitLoop(sim, inter, x, z, first, c, last);
    CarryKeeps(m, m1, sim.memory, inter.free, z, c, last, cout);
    carry := Bit(sim.memory, CarryCell(|z|, |z|, first, c, last));
  }

  /** __fixedAddBit: ten cycles per bit, adding the bit in a cell or the constant 1, which takes one more cycle.
      `carry` is the carry out of the top bit. */
  method FixedAddBit(sim: SerialSimulator, inter: IntermediateAllocator, x: seq<nat>, z: seq<nat>,
                     cin: CarryIn, cout: Option<nat>) returns (ghost carry: nat)
    requires Ready(sim, inter) && |inter.free| >= 4
    requires |x| == |z| && !cin.NoCarry?
    requires LiveReg(sim, inter, x) && LiveReg(sim, inter, z)
    requires cin.CarryAt? ==> Live(sim, inter, cin.cell) && (|x| > 0 ==> cin.cell != x[0])
    requires cout.Some? ==> Live(sim, inter, cout.value) && cout.value !in z
    requires Distinct(z) && WritesBehind(z, x)
    modifies sim, inter
    ensures Ready(sim, inter) && inter.free == old(inter.free)
    ensures Kept(old(sim.memory), sim.memory, inter.free, if cout.Some? then z + [cout.value] else z)
    ensures carry <= 1
    ensures Val(sim.memory, z) + (if carry == 1 then Pow2(|z|) else 0) ==
            old(Val(sim.memory, x) + match cin case OneCarry => 1 case CarryAt(c) => Bit(sim.memory, c))
    ensures cout.Some? && |z| > 0 ==> carry == Bit(sim.memory, cout.value)
    ensures sim.latency == old(sim.latency) + 10 * |z| + if cin.OneCarry? then 1 else 0
  {
    hide Pow2, ValN, Tracks, WritesBehind, Distinct;
    var c := inter.MallocCell();
    carry := AddBitFrom(sim, inter, x, z, cin, c, cout);
    inter.FreeCell(c);
  }

  /** Two's-complement magnitude of the low `i` bits `v` under the sign bit `s`. */
  function Negated(s: nat, v: int, p: int): int {
    if s == 1 then p - v else v
  }

  /** The magnitude of the two's-complement number in `x`; the most negative value gives 0. */
  function Magnitude(m: seq<bool>, x: seq<nat>): nat
    requires |x| > 0
  {
    var n := |x| - 1;
    if Bit(m, x[n]) == 0 || ValN(m, x, n) == 0 then ValN(m, x, n) else Pow2(n) - ValN(m, x, n)
  }

  lemma MagnitudeSame(m: seq<bool>, m': seq<bool>, x: seq<nat>)
    requires |x| > 0 && Same(m, m', x, 0, |x|)
    ensures Magnitude(m', x) == Magnitude(m, x)
  {
    ValSame(m, m', x, |x| - 1);
    assert Bit(m', x[|x| - 1]) == Bit(m, x[|x| - 1]);
  }

  ghost predicate AbsInv(m: seq<bool>, m': seq<bool>, f: set<nat>, x: seq<nat>, z: seq<nat>, i: nat, c: nat)
    requires i < |x| == |z|
  {
    && Kept(m, m', f, z + [c])
    && Same(m, m', x, i, |x|)
    && ValN(m', z, i) + (if Bit(m', if i == 0 then x[|x| - 1] else c) == 1 then Pow2(i) else 0) ==
       Negated(Bit(m, x[|x| - 1]), ValN(m, x, i), Pow2(i))
  }

  lemma AbsColumn(s: nat, p: nat, zi: nat, z: nat, cin: nat, cout: nat, x: nat, xi: nat)
    requires s <= 1 && zi <= 1 && cin <= 1 && cout <= 1 && xi <= 1
    requires z + (if cin == 1 then p else 0) == Negated(s, x, p)
    requires zi + 2 * cout == (if s == 1 then 1 - xi else xi) + cin
    ensures z + (if zi == 1 then p else 0) + (if cout == 1 then 2 * p else 0) ==
            Negated(s, x + (if xi == 1 then p else 0), 2 * p)
  {
  }

  /** Exclusive-or with the sign, then a half adder: one column of __abs. */
  method AbsColumnGates(sim: SerialSimulator, inter: IntermediateAllocator, a: nat, msb: nat, notMsb: nat,
                        cin: nat, s: nat, cout: nat)
    requires Ready(sim, inter) && |inter.free| >= 4
    requires Live(sim, inter, a) && Live(sim, inter, msb) && Live(sim, inter, notMsb)
    requires Live(sim, inter, cin) && Live(sim, inter, s) && Live(sim, inter, cout)
    requires a != msb && s != cout && sim.memory[notMsb] == !sim.memory[msb]
    modifies sim, inter
    ensures Ready(sim, inter) && inter.free == old(inter.free)
    ensures Kept2(old(sim.memory), sim.memory, inter.free, s, cout)
    ensures Bit(sim.memory, s) + 2 * Bit(sim.memory, cout) ==
            old(Negated(Bit(sim.memory, msb), Bit(sim.memory, a), 1) + Bit(sim.memory, cin))
    ensures sim.latency == old(sim.latency) + 18
  {
    var t := inter.MallocCell();
    XorGiven(sim, inter, a, msb, t, notMsb);
    HalfAdder(sim, inter, t, cin, s, cout);
    inter.FreeCell(t);
  }

  method AbsStep(sim: SerialSimulator, inter: IntermediateAllocator, x: seq<nat>, z: seq<nat>, i: nat,
                 c: nat, notMsb: nat, ghost m: seq<bool>)
    requires Ready(sim, inter) && |inter.free| >= 4 && i + 1 < |x| == |z|
    requires LiveReg(sim, inter, x) && LiveReg(sim, inter, z) && Live(sim, inter, c) && Live(sim, inter, notMsb)
    requires Distinct(x) && Distinct(z) && WritesBehind(z, x) && c != notMsb
    requires c !in x && c !in z && notMsb !in x && notMsb !in z
    requires sim.memory[notMsb] == !sim.memory[x[|x| - 1]]
    requires AbsInv(m, sim.memory, inter.free, x, z, i, c)
    modifies sim, inter
    ensures Ready(sim, inter) && inter.free == old(inter.free) && |sim.memory| == |old(sim.memory)|
    ensures sim.memory[notMsb] == !sim.memory[x[|x| - 1]]
    ensures AbsInv(m, sim.memory, inter.free, x, z, i + 1, c)
    ensures sim.latency == old(sim.latency) + 18
  {
    ghost var m1 := sim.memory;
    var msb := x[|x| - 1];
    AbsColumnGates(sim, inter, x[i], msb, notMsb, if i > 0 then c else msb, z[i], c);
    assert Same(m1, sim.memory, z, 0, i);
    ValSame(m1, sim.memory, z, i);
    AbsColumn(Bit(m, msb), Pow2(i), Bit(sim.memory, z[i]), ValN(m1, z, i), Bit(m1, if i > 0 then c else msb),
              Bit(sim.memory, c), ValN(m, x, i), Bit(m, x[i]));
  }

  /** Clearing the sign position turns the finished columns into the magnitude. */
  lemma AbsClear(m: seq<bool>, m1: seq<bool>, f: set<nat>, x: seq<nat>, z: seq<nat>, c: nat)
    requires 0 < |x| == |z| && Distinct(z) && z[|z| - 1] < |m1|
    requires AbsInv(m, m1, f, x, z, |z| - 1, c)
    ensures Val(m1[z[|z| - 1] := false], z) == Magnitude(m, x)
  {
    var n := |z| - 1;
    assert Same(m1, m1[z[n] := false], z, 0, n);
    ValSame(m1, m1[z[n] := false], z, n);
  }

  /** The loop of __abs and the clearing of the sign. */
  method AbsLoop(sim: SerialSimulator, inter: IntermediateAllocator, x: seq<nat>, z: seq<nat>, c: nat, notMsb: nat)
    requires Ready(sim, inter) && |inter.free| >= 4 && 0 < |x| == |z|
    requires LiveReg(sim, inter, x) && LiveReg(sim, inter, z) && Live(sim, inter, c) && Live(sim, inter, notMsb)
    requires Distinct(x) && Distinct(z) && WritesBehind(z, x) && c != notMsb
    requires c !in x && c !in z && notMsb !in x && notMsb !in z
    requires sim.memory[notMsb] == !sim.memory[x[|x| - 1]]
    modifies sim, inter
    ensures Ready(sim, inter) && inter.free == old(inter.free)
    ensures Kept(old(sim.memory), sim.memory, inter.free, z + [c])
    ensures Val(sim.memory, z) == Magnitude(old(sim.memory), x)
    ensures sim.latency == old(sim.latency) + 18 * |x| - 17
  {
    hide Val, Magnitude;
    ghost var l, m := sim.latency, sim.memory;
    var n := |x| - 1;
    for i := 0 to n
      invariant Ready(sim, inter) && inter.free == old(inter.free) && |sim.memory| == |m|
      invariant AbsInv(m, sim.memory, inter.free, x, z, i, c)
      invariant sim.memory[notMsb] == !sim.memory[x[n]]
      invariant sim.latency == l + 18 * i
    {
      AbsStep(sim, inter, x, z, i, c, notMsb, m);
    }
    AbsClear(m, sim.memory, inter.free, x, z, c);
    sim.Init0(z[n]);
  }

  /** The carry cell around the loop. */
  method AbsCarry(sim: SerialSimulator, inter: IntermediateAllocator, x: seq<nat>, z: seq<nat>, notMsb: nat)
    requires Ready(sim, inter) && |inter.free| >= 5 && 0 < |x| == |z|
    requires LiveReg(sim, inter, x) && LiveReg(sim, inter, z) && Live(sim, inter, notMsb)
    requires Distinct(x) && Distinct(z) && WritesBehind(z, x) && notMsb !in x && notMsb !in z
    requires sim.memory[notMsb] == !sim.memory[x[|x| - 1]]
    modifies sim, inter
    ensures Ready(sim, inter) && inter.free == old(inter.free)
    ensures Kept(old(sim.memory), sim.memory, inter.free, z)
    ensures Val(sim.memory, z) == Magnitude(old(sim.memory), x)
    ensures sim.latency == old(sim.latency) + 18 * |x| - 17
  {
    hide Val, Magnitude, Tracks;
    var c := inter.MallocCell();
    AbsLoop(sim, inter, x, z, c, notMsb);
    inter.FreeCell(c);
  }

  /** The magnitude by the number in all cells. */
  lemma MagnitudeIs(m: seq<bool>, x: seq<nat>)
    requires |x| > 0
    ensures var v, h := Val(m, x), Pow2(|x| - 1);
            Magnitude(m, x) == if v < h then v else if v == h then 0 else 2 * h - v
  {
    ValNext(m, x, |x| - 1);
  }

  /** __abs: 18N - 15 cycles. The magnitude of a two's-complement number, its most negative value giving 0. */
  method Abs(sim: SerialSimulator, inter: IntermediateAllocator, x: seq<nat>, z: seq<nat>)
    requires Ready(sim, inter) && |inter.free| >= 6
    requires |x| == |z| > 0
    requires LiveReg(sim, inter, x) && LiveReg(sim, inter, z)
    requires Distinct(x) && Distinct(z) && WritesBehind(z, x)
    modifies sim, inter
    ensures Ready(sim, inter) && inter.free == old(inter.free)
    ensures Kept(old(sim.memory), sim.memory, inter.free, z)
    ensures Val(sim.memory, z) == Magnitude(old(sim.memory), x)
    ensures var v, h := old(Val(sim.memory, x)), Pow2(|x| - 1);
            Val(sim.memory, z) == if v < h then v else if v == h then 0 else 2 * h - v
    ensures sim.latency == old(sim.latency) + 18 * |x| - 15
  {
    hide ValN, Val, Pow2, Magnitude, Tracks;
    ghost var m := sim.memory;
    var notMsb := inter.MallocCell();
    sim.Not(x[|x| - 1], notMsb);
    MagnitudeSame(m, sim.memory, x);
    MagnitudeIs(m, x);
    AbsCarry(sim, inter, x, z, notMsb);
    inter.FreeCell(notMsb);
  }
}
