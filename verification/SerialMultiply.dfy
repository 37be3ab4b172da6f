/** Fixed-point multiplication of serial/AritPIM.py: schoolbook up to 20 bits, Karatsuba above. */
module SerialMultiply {
  import opened Numbers
  import opened Simulator
  import opened Allocator
  import opened Cells
  import opened SerialGates
  import opened SerialFixed

  /** The first `n` bits of the number whose complement stands in `notx`, or zero when `noty` is set. */
  function Partial(m: seq<bool>, notx: seq<nat>, noty: nat, n: nat): int
    requires n <= |notx|
  {
    if Bit(m, noty) == 1 then 0 else Pow2(n) - 1 - ValN(m, notx, n)
  }

  ghost predicate RowPre(sim: SerialSimulator, inter: IntermediateAllocator, z: seq<nat>, top: nat,
                         notx: seq<nat>, noty: nat, p: nat, c: nat)
    reads sim, inter
  {
    && Ready(sim, inter) && |z| == |notx|
    && LiveReg(sim, inter, z) && LiveReg(sim, inter, notx)
    && Live(sim, inter, top) && Live(sim, inter, noty) && Live(sim, inter, p) && Live(sim, inter, c)
    && Distinct(z) && Apart(notx, z)
    && top !in z && top !in notx && top != noty && top != p && top != c
    && noty !in z && noty !in notx && noty != p && noty != c
    && p !in z && p !in notx && p != c
    && c !in z && c !in notx
  }

  ghost predicate RowInv(m: seq<bool>, m': seq<bool>, f: set<nat>, z: seq<nat>, top: nat,
                         notx: seq<nat>, noty: nat, p: nat, c: nat, j: nat)
    requires j <= |z| == |notx|
  {
    && Kept(m, m', f, z + [p, c, top])
    && Same(m, m', z, j, |z|)
    && ValN(m', z, j) + (if Bit(m', CarryCell(j, |z|, c, c, top)) == 1 then Pow2(j) else 0) ==
       ValN(m, z, j) + Partial(m, notx, noty, j)
  }

  lemma RowColumn(p: int, zi: nat, z: int, cin: nat, cout: nat, w: int, wi: nat, on: bool, q: int, qi: nat)
    requires zi <= 1 && cin <= 1 && cout <= 1 && wi <= 1 && qi <= 1
    requires z + (if cin == 1 then p else 0) == w + (if on then p - 1 - q else 0)
    requires zi + 2 * cout == wi + (if on then 1 - qi else 0) + cin
    ensures z + (if zi == 1 then p else 0) + (if cout == 1 then 2 * p else 0) ==
            w + (if wi == 1 then p else 0) + (if on then 2 * p - 1 - (q + (if qi == 1 then p else 0)) else 0)
  {
  }

  /** One partial-product bit and the full adder that takes it in. */
  method RowGates(sim: SerialSimulator, inter: IntermediateAllocator, a: nat, notx: nat, noty: nat, p: nat, c: nat,
                  cout: nat)
    requires Ready(sim, inter) && |inter.free| >= 4
    requires Live(sim, inter, a) && Live(sim, inter, notx) && Live(sim, inter, noty)
    requires Live(sim, inter, p) && Live(sim, inter, c) && Live(sim, inter, cout)
    requires notx != noty && p != notx && p != noty && p != a && p != c && a != c && a != cout && p != cout
    modifies sim, inter
    ensures Ready(sim, inter) && inter.free == old(inter.free)
    ensures Kept(old(sim.memory), sim.memory, inter.free, [a, p, cout])
    ensures Bit(sim.memory, a) + 2 * Bit(sim.memory, cout) ==
            old(Bit(sim.memory, a) + (if Bit(sim.memory, noty) == 1 then 0
                                      else 1 - Bit(sim.memory, notx)) + Bit(sim.memory, c))
    ensures sim.latency == old(sim.latency) + 20
  {
    hide Tracks;
    sim.Nor(notx, noty, p);
    FullAdder(sim, inter, a, p, c, a, cout);
  }

  /** A column of a row changes only its cell of `z`, the partial product and the carry. */
  lemma RowStepVal(m: seq<bool>, m1: seq<bool>, m2: seq<bool>, f: set<nat>, z: seq<nat>, top: nat,
                   notx: seq<nat>, noty: nat, p: nat, c: nat, j: nat, cout: nat)
    requires j < |z| == |notx| && Distinct(z) && Apart(notx, z)
    requires (forall k | 0 <= k < |z| :: z[k] !in f && notx[k] !in f)
    requires p !in z && c !in z && top !in z && p !in notx && c !in notx && top !in notx
    requires noty !in z && noty !in f && noty != p && noty != c && noty != top
    requires RowInv(m, m1, f, z, top, notx, noty, p, c, j)
    requires cout == CarryCell(j + 1, |z|, c, c, top) && Kept(m1, m2, f, [z[j], p, cout])
    requires Bit(m2, z[j]) + 2 * Bit(m2, cout) ==
             Bit(m1, z[j]) + (if Bit(m1, noty) == 1 then 0 else 1 - Bit(m1, notx[j])) + Bit(m1, c)
    ensures RowInv(m, m2, f, z, top, notx, noty, p, c, j + 1)
  {
    hide ValN, Pow2;
    assert forall k {:trigger z[k]} | 0 <= k < |z| && k != j :: Bit(m2, z[k]) == Bit(m1, z[k]);
    ValBits(m2, z, m1, z, j);
    assert Bit(m1, z[j]) == Bit(m, z[j]) && Bit(m1, notx[j]) == Bit(m, notx[j]) && Bit(m1, noty) == Bit(m, noty);
    RowColumn(Pow2(j), Bit(m2, z[j]), ValN(m1, z, j), Bit(m1, c), Bit(m2, cout),
              ValN(m, z, j), Bit(m, z[j]), Bit(m, noty) != 1, ValN(m, notx, j), Bit(m, notx[j]));
    ValNext(m2, z, j);
    ValNext(m, z, j);
    ValNext(m, notx, j);
    Pow2Next(j);
  }

  method RowStep(sim: SerialSimulator, inter: IntermediateAllocator, z: seq<nat>, top: nat,
                 notx: seq<nat>, noty: nat, p: nat, c: nat, j: nat, ghost m: seq<bool>)
    requires RowPre(sim, inter, z, top, notx, noty, p, c) && |inter.free| >= 4 && j < |z|
    requires RowInv(m, sim.memory, inter.free, z, top, notx, noty, p, c, j)
    modifies sim, inter
    ensures Ready(sim, inter) && inter.free == old(inter.free) && |sim.memory| == |old(sim.memory)|
    ensures RowInv(m, sim.memory, inter.free, z, top, notx, noty, p, c, j + 1)
    ensures sim.latency == old(sim.latency) + 20
  {
    hide Tracks, RowInv, Kept;
    ghost var m1 := sim.memory;
    var cout := if j < |z| - 1 then c else top;
    RowGates(sim, inter, z[j], notx[j], noty, p, c, cout);
    RowStepVal(m, m1, sim.memory, inter.free, z, top, notx, noty, p, c, j, cout);
    KeptSize(m1, sim.memory, inter.free, [z[j], p, cout]);
  }

  method RowLoop(sim: SerialSimulator, inter: IntermediateAllocator, z: seq<nat>, top: nat,
                 notx: seq<nat>, noty: nat, p: nat, c: nat)
    requires RowPre(sim, inter, z, top, notx, noty, p, c) && |inter.free| >= 4 && |z| >= 1 && !sim.memory[c]
    modifies sim, inter
    ensures Ready(sim, inter) && inter.free == old(inter.free)
    ensures Kept(old(sim.memory), sim.memory, inter.free, z + [p, c, top])
    ensures Val(sim.memory, z) + (if Bit(sim.memory, top) == 1 then Pow2(|z|) else 0) ==
            old(Val(sim.memory, z) + Partial(sim.memory, notx, noty, |z|))
    ensures sim.latency == old(sim.latency) + 20 * |z|
  {
    ghost var m := sim.memory;
    for j := 0 to |z|
      invariant Ready(sim, inter) && inter.free == old(inter.free) && |sim.memory| == |m|
      invariant RowInv(m, sim.memory, inter.free, z, top, notx, noty, p, c, j)
      invariant sim.latency == old(sim.latency) + 20 * j
    {
      hide RowInv;
      RowStep(sim, inter, z, top, notx, noty, p, c, j, m);
    }
  }

  /** The complement of the multiplicand, as kept through all rows. */
  ghost predicate Complement(m: seq<bool>, x: seq<nat>, m': seq<bool>, notx: seq<nat>) {
    |x| == |notx| && forall i {:trigger Bit(m', notx[i])} | 0 <= i < |x| :: Bit(m', notx[i]) == 1 - Bit(m, x[i])
  }

  lemma {:induction false} ComplementVal(m: seq<bool>, x: seq<nat>, m': seq<bool>, notx: seq<nat>, n: nat)
    requires Complement(m, x, m', notx) && n <= |x|
    ensures ValN(m', notx, n) == Pow2(n) - 1 - ValN(m, x, n)
  {
    if n > 0 {
      ComplementVal(m, x, m', notx, n - 1);
      assert Bit(m', notx[n - 1]) == 1 - Bit(m, x[n - 1]);
    }
  }

  /** One row of the schoolbook product: adds `x` (whose complement is in `notx`) if `noty` is clear. */
  method Row(sim: SerialSimulator, inter: IntermediateAllocator, z: seq<nat>, top: nat,
             notx: seq<nat>, noty: nat, p: nat)
    requires Ready(sim, inter) && |inter.free| >= 5 && |z| == |notx| >= 1
    requires LiveReg(sim, inter, z) && LiveReg(sim, inter, notx)
    requires Live(sim, inter, top) && Live(sim, inter, noty) && Live(sim, inter, p)
    requires Distinct(z) && Apart(notx, z)
    requires top !in z && top !in notx && top != noty && top != p
    requires noty !in z && noty !in notx && noty != p && p !in z && p !in notx
    modifies sim, inter
    ensures Ready(sim, inter) && inter.free == old(inter.free)
    ensures Kept(old(sim.memory), sim.memory, inter.free, z + [p, top])
    ensures Val(sim.memory, z) + (if Bit(sim.memory, top) == 1 then Pow2(|z|) else 0) ==
            old(Val(sim.memory, z) + Partial(sim.memory, notx, noty, |z|))
    ensures sim.latency == old(sim.latency) + 20 * |z| + 1
  {
    hide ValN, Pow2;
    ghost var m := sim.memory;
    var c := inter.MallocCell();
    sim.Init0(c);
    ghost var m1 := sim.memory;
    assert Same(m, m1, z, 0, |z|) && Same(m, m1, notx, 0, |notx|);
    ValSame(m, m1, z, |z|);
    ValSame(m, m1, notx, |notx|);
    RowLoop(sim, inter, z, top, notx, noty, p, c);
    inter.FreeCell(c);
  }

  /** Computes NOT(x) once for all rows. */
  method ComplementInto(sim: SerialSimulator, x: seq<nat>, notx: seq<nat>)
    requires |x| == |notx| && Distinct(notx) && Apart(x, notx)
    requires forall i | 0 <= i < |x| :: x[i] < |sim.memory|
    requires forall i | 0 <= i < |notx| :: notx[i] < |sim.memory|
    modifies sim
    ensures Kept(old(sim.memory), sim.memory, {}, notx)
    ensures Complement(old(sim.memory), x, sim.memory, notx)
    ensures sim.latency == old(sim.latency) + 2 * |x|
  {
    ghost var m := sim.memory;
    for i := 0 to |x|
      invariant Kept(m, sim.memory, {}, notx)
      invariant forall k {:trigger Bit(sim.memory, notx[k])} | 0 <= k < i ::
                Bit(sim.memory, notx[k]) == 1 - Bit(m, x[k])
      invariant sim.latency == old(sim.latency) + 2 * i
    {
      ghost var m1 := sim.memory;
      sim.Not(x[i], notx[i]);
      assert forall k {:trigger notx[k]} | 0 <= k < i :: Bit(sim.memory, notx[k]) == Bit(m1, notx[k]);
    }
  }

  /** The first row is copied rather than added. */
  method FirstRow(sim: SerialSimulator, z: seq<nat>, notx: seq<nat>, noty: nat)
    requires |z| >= |notx| && Distinct(z) && Apart(notx, z) && noty !in z && noty !in notx
    requires noty < |sim.memory| && (forall i | 0 <= i < |z| :: z[i] < |sim.memory|)
    requires forall i | 0 <= i < |notx| :: notx[i] < |sim.memory|
    modifies sim
    ensures Kept(old(sim.memory), sim.memory, {}, z)
    ensures ValN(sim.memory, z, |notx|) == old(Partial(sim.memory, notx, noty, |notx|))
    ensures sim.latency == old(sim.latency) + 2 * |notx|
  {
    ghost var m := sim.memory;
    for j := 0 to |notx|
      invariant Kept(m, sim.memory, {}, z)
      invariant ValN(sim.memory, z, j) == Partial(m, notx, noty, j)
      invariant sim.latency == old(sim.latency) + 2 * j
    {
      ghost var m1 := sim.memory;
      sim.Nor(notx[j], noty, z[j]);
      assert Same(m1, sim.memory, z, 0, j);
      ValSame(m1, sim.memory, z, j);
    }
  }

  method ClearFrom(sim: SerialSimulator, z: seq<nat>, n: nat)
    requires n <= |z| && Distinct(z) && forall i | 0 <= i < |z| :: z[i] < |sim.memory|
    modifies sim
    ensures Kept(old(sim.memory), sim.memory, {}, z) && Same(old(sim.memory), sim.memory, z, 0, n)
    ensures forall k {:trigger Bit(sim.memory, z[k])} | n <= k < |z| :: Bit(sim.memory, z[k]) == 0
    ensures sim.latency == old(sim.latency) + |z| - n
  {
    ghost var m := sim.memory;
    for j := n to |z|
      invariant Kept(m, sim.memory, {}, z) && Same(m, sim.memory, z, 0, n)
      invariant forall k {:trigger Bit(sim.memory, z[k])} | n <= k < j :: Bit(sim.memory, z[k]) == 0
      invariant sim.latency == old(sim.latency) + j - n
    {
      ghost var m1 := sim.memory;
      sim.Init0(z[j]);
      assert forall k {:trigger z[k]} | 0 <= k < |z| && k != j :: Bit(sim.memory, z[k]) == Bit(m1, z[k]);
    }
  }

  /** After `i` rows the low `i + N` cells hold `x` times the low `i` bits of `y`; the rest is zero. */
  ghost predicate SchoolInv(m: seq<bool>, m': seq<bool>, f: set<nat>, xv: nat, y: seq<nat>, z: seq<nat>, noty: nat,
                            p: nat, i: nat)
    requires i <= |y| && |z| == 2 * |y|
  {
    && Kept(m, m', f, z + [noty, p])
    && ValN(m', z, i + |y|) == xv * ValN(m, y, i)
    && forall k {:trigger Bit(m', z[k])} | i + |y| <= k < |z| :: Bit(m', z[k]) == 0
  }

  lemma SchoolStep(m: seq<bool>, m1: seq<bool>, m2: seq<bool>, xv: nat, y: seq<nat>, z: seq<nat>, i: nat, add: nat)
    requires i < |y| && |z| == 2 * |y|
    requires ValN(m1, z, i + |y|) == xv * ValN(m, y, i)
    requires Same(m1, m2, z, 0, i)
    requires add == if Bit(m, y[i]) == 1 then xv else 0
    requires Val(m2, z[i..i + |y|]) + (if Bit(m2, z[i + |y|]) == 1 then Pow2(|y|) else 0) ==
            Val(m1, z[i..i + |y|]) + add
    ensures ValN(m2, z, i + |y| + 1) == xv * ValN(m, y, i + 1)
  {
    hide ValN, Pow2;
    var n := |y|;
    var w := z[i..i + n];
    ValSame(m1, m2, z, i);
    ValSplit(m1, z, i, i + n);
    ValSplit(m2, z, i, i + n);
    ValPrefix(m1, z[i..], w, n);
    ValPrefix(m2, z[i..], w, n);
    ValNext(m2, z, i + n);
    ValNext(m, y, i);
    Pow2Add(i, n);
    SchoolSum(Pow2(i), Pow2(n), ValN(m1, z, i), Val(m1, w), Val(m2, w), Bit(m2, z[i + n]), xv, ValN(m, y, i),
              Bit(m, y[i]));
  }

  /** The arithmetic of one row: `lo` below it, `w` becoming `w'` with carry `b` above it. */
  lemma SchoolSum(pi: int, pn: int, lo: int, w: int, w': int, b: nat, xv: int, yv: int, yi: nat)
    requires b <= 1 && yi <= 1 && lo + pi * w == xv * yv
    requires w' + (if b == 1 then pn else 0) == w + (if yi == 1 then xv else 0)
    ensures lo + pi * w' + (if b == 1 then pi * pn else 0) == xv * (yv + if yi == 1 then pi else 0)
  {
    MulAdd(pi, w', pn);
    MulAdd(pi, w, xv);
    MulAdd(xv, yv, pi);
  }

  ghost predicate SchoolPre(sim: SerialSimulator, inter: IntermediateAllocator, y: seq<nat>, z: seq<nat>,
                            notx: seq<nat>, noty: nat, p: nat)
    reads sim, inter
  {
    && Ready(sim, inter) && |y| == |notx| >= 1 && |z| == 2 * |y|
    && LiveReg(sim, inter, y) && LiveReg(sim, inter, z) && LiveReg(sim, inter, notx)
    && Live(sim, inter, noty) && Live(sim, inter, p)
    && Distinct(z) && Apart(notx, z) && Apart(y, z)
    && noty !in z && noty !in notx && noty !in y && noty != p && p !in z && p !in notx && p !in y
  }

  /** Row `i` on the cells `w` of the product with `top` above them: adds `xv` if the bit in `yi` is set. */
  method SchoolGates(sim: SerialSimulator, inter: IntermediateAllocator, w: seq<nat>, top: nat, notx: seq<nat>,
                     yi: nat, noty: nat, p: nat)
    requires Ready(sim, inter) && |inter.free| >= 5 && |w| == |notx| >= 1
    requires LiveReg(sim, inter, w) && LiveReg(sim, inter, notx) && Distinct(w) && Apart(notx, w)
    requires Live(sim, inter, top) && Live(sim, inter, yi) && Live(sim, inter, noty) && Live(sim, inter, p)
    requires top !in w && top !in notx && top != noty && top != p
    requires noty !in w && noty !in notx && noty != p && p !in w && p !in notx && yi != noty
    modifies sim, inter
    ensures Ready(sim, inter) && inter.free == old(inter.free)
    ensures Kept(old(sim.memory), sim.memory, inter.free, w + [noty, p, top])
    ensures Val(sim.memory, w) + (if Bit(sim.memory, top) == 1 then Pow2(|w|) else 0) ==
            old(Val(sim.memory, w) + if Bit(sim.memory, yi) == 1 then Pow2(|w|) - 1 - Val(sim.memory, notx) else 0)
    ensures sim.latency == old(sim.latency) + 20 * |w| + 3
  {
    hide ValN, Pow2, Tracks;
    ghost var m := sim.memory;
    sim.Not(yi, noty);
    ghost var m1 := sim.memory;
    assert Kept1(m, m1, {}, noty);
    ValKeptCell(m, m1, {}, noty, w);
    ValKeptCell(m, m1, {}, noty, notx);
    Row(sim, inter, w, top, notx, noty, p);
  }

  /** Row `i` leaves the cells below it and above it alone. */
  lemma SchoolFrame(m: seq<bool>, m': seq<bool>, f: set<nat>, z: seq<nat>, i: nat, n: nat, noty: nat, p: nat)
    requires 1 <= i && i + n < |z| && Distinct(z) && noty !in z && p !in z && forall k | 0 <= k < |z| :: z[k] !in f
    requires Kept(m, m', f, z[i..i + n] + [noty, p, z[i + n]])
    ensures Kept(m, m', f, z + [noty, p]) && Same(m, m', z, 0, i) && Same(m, m', z, i + n + 1, |z|)
  {
    var out := z[i..i + n] + [noty, p, z[i + n]];
    assert forall c | c in out :: c in z + [noty, p];
    forall k | 0 <= k < |z| && (k < i || i + n < k)
      ensures z[k] !in out
    {
    }
  }

  method SchoolRow(sim: SerialSimulator, inter: IntermediateAllocator, y: seq<nat>, z: seq<nat>,
                   notx: seq<nat>, noty: nat, p: nat, i: nat, ghost m: seq<bool>, ghost xv: nat)
    requires SchoolPre(sim, inter, y, z, notx, noty, p) && |inter.free| >= 5 && 1 <= i < |y|
    requires xv == Pow2(|notx|) - 1 - Val(m, notx)
    requires SchoolInv(m, sim.memory, inter.free, xv, y, z, noty, p, i)
    modifies sim, inter
    ensures Ready(sim, inter) && inter.free == old(inter.free) && |sim.memory| == |old(sim.memory)|
    ensures SchoolInv(m, sim.memory, inter.free, xv, y, z, noty, p, i + 1)
    ensures sim.latency == old(sim.latency) + 20 * |y| + 3
  {
    hide ValN, Pow2, Tracks;
    ghost var m0 := sim.memory;
    var n := |y|;
    assert Same(m, m0, notx, 0, n) && Bit(m0, y[i]) == Bit(m, y[i]);
    ValSame(m, m0, notx, n);
    SchoolGates(sim, inter, z[i..i + n], z[i + n], notx, y[i], noty, p);
    SchoolFrame(m0, sim.memory, inter.free, z, i, n, noty, p);
    SchoolStep(m, m0, sim.memory, xv, y, z, i, if Bit(m, y[i]) == 1 then xv else 0);
  }

  lemma SchoolFirst(m: seq<bool>, m': seq<bool>, f: set<nat>, xv: nat, y: seq<nat>, z: seq<nat>, noty: nat, p: nat)
    requires |y| >= 1 && |z| == 2 * |y| && Kept(m, m', f, z + [noty, p])
    requires ValN(m', z, |y|) == if Bit(m, y[0]) == 1 then xv else 0
    requires forall k {:trigger Bit(m', z[k])} | |y| <= k < |z| :: Bit(m', z[k]) == 0
    ensures SchoolInv(m, m', f, xv, y, z, noty, p, 1)
  {
    assert ValN(m, y, 0) == 0 && Pow2(0) == 1;
    ValNext(m, y, 0);
    assert ValN(m, y, 1) == Bit(m, y[0]);
    ValNext(m', z, |y|);
    assert Bit(m', z[|y|]) == 0;
  }

  /** Row 0. */
  method SchoolStart(sim: SerialSimulator, inter: IntermediateAllocator, y: seq<nat>, z: seq<nat>,
                     notx: seq<nat>, noty: nat, p: nat, ghost xv: nat)
    requires SchoolPre(sim, inter, y, z, notx, noty, p)
    requires xv == Pow2(|notx|) - 1 - Val(sim.memory, notx)
    modifies sim
    ensures SchoolInv(old(sim.memory), sim.memory, inter.free, xv, y, z, noty, p, 1)
    ensures sim.latency == old(sim.latency) + 3 * |y| + 2
  {
    hide ValN, Pow2;
    ghost var m := sim.memory;
    sim.Not(y[0], noty);
    ghost var m1 := sim.memory;
    assert Kept1(m, m1, {}, noty);
    ValKeptCell(m, m1, {}, noty, notx);
    FirstRow(sim, z, notx, noty);
    ghost var m2 := sim.memory;
    ClearFrom(sim, z, |y|);
    ValSame(m2, sim.memory, z, |y|);
    SchoolFirst(m, sim.memory, inter.free, xv, y, z, noty, p);
  }

  /** All rows of the schoolbook product. */
  method SchoolRows(sim: SerialSimulator, inter: IntermediateAllocator, y: seq<nat>, z: seq<nat>,
                    notx: seq<nat>, noty: nat, p: nat)
    requires SchoolPre(sim, inter, y, z, notx, noty, p) && |inter.free| >= 5
    modifies sim, inter
    ensures Ready(sim, inter) && inter.free == old(inter.free)
    ensures Kept(old(sim.memory), sim.memory, inter.free, z + [noty, p])
    ensures Val(sim.memory, z) == old((Pow2(|notx|) - 1 - Val(sim.memory, notx)) * Val(sim.memory, y))
    ensures sim.latency == old(sim.latency) + 3 * |y| + 2 + (|y| - 1) * (20 * |y| + 3)
  {
    hide ValN, Pow2;
    ghost var m, xv := sim.memory, Pow2(|notx|) - 1 - Val(sim.memory, notx);
    SchoolStart(sim, inter, y, z, notx, noty, p, xv);
    for i := 1 to |y|
      invariant Ready(sim, inter) && inter.free == old(inter.free) && |sim.memory| == |m|
      invariant SchoolInv(m, sim.memory, inter.free, xv, y, z, noty, p, i)
      invariant sim.latency == old(sim.latency) + 3 * |y| + 2 + (i - 1) * (20 * |y| + 3)
    {
      SchoolRow(sim, inter, y, z, notx, noty, p, i, m, xv);
      MulAdd(20 * |y| + 3, i - 1, 1);
    }
  }

  /** The rows with their two scratch bits. */
  method SchoolProduct(sim: SerialSimulator, inter: IntermediateAllocator, y: seq<nat>, z: seq<nat>, notx: seq<nat>)
    requires Ready(sim, inter) && |inter.free| >= 7 && |y| == |notx| >= 1 && |z| == 2 * |y|
    requires LiveReg(sim, inter, y) && LiveReg(sim, inter, z) && LiveReg(sim, inter, notx)
    requires Distinct(z) && Apart(notx, z) && Apart(y, z)
    modifies sim, inter
    ensures Ready(sim, inter) && inter.free == old(inter.free)
    ensures Kept(old(sim.memory), sim.memory, inter.free, z)
    ensures Val(sim.memory, z) == old((Pow2(|notx|) - 1 - Val(sim.memory, notx)) * Val(sim.memory, y))
    ensures sim.latency == old(sim.latency) + 3 * |y| + 2 + (|y| - 1) * (20 * |y| + 3)
  {
    hide ValN, Val, Pow2;
    var noty := inter.MallocCell();
    var p := inter.MallocCell();
    SchoolRows(sim, inter, y, z, notx, noty, p);
    inter.FreeCell(noty);
    inter.FreeCell(p);
  }

  lemma SchoolCycles(n: nat)
    ensures 2 * n + (3 * n + 2 + (n - 1) * (20 * n + 3)) == 20 * n * n - 12 * n - 1
  {
  }

  /** fixedMultiplication for N <= 20: the full product in 20N^2 - 12N - 1 cycles. */
  method Schoolbook(sim: SerialSimulator, inter: IntermediateAllocator, x: seq<nat>, y: seq<nat>, z: seq<nat>)
    requires Ready(sim, inter) && |inter.free| >= |x| + 7
    requires 2 <= |x| == |y| && |z| == 2 * |x|
    requires LiveReg(sim, inter, x) && LiveReg(sim, inter, y) && LiveReg(sim, inter, z)
    requires Distinct(z) && Apart(x, z) && Apart(y, z)
    modifies sim, inter
    ensures Ready(sim, inter) && inter.free == old(inter.free)
    ensures Kept(old(sim.memory), sim.memory, inter.free, z)
    ensures Val(sim.memory, z) == old(Val(sim.memory, x) * Val(sim.memory, y))
    ensures sim.latency == old(sim.latency) + 20 * |x| * |x| - 12 * |x| - 1
  {
    hide ValN, Pow2, Complement;
    ghost var m := sim.memory;
    var notx := inter.Malloc(|x|);
    ComplementInto(sim, x, notx);
    ghost var m1 := sim.memory;
    ComplementVal(m, x, m1, notx, |x|);
    ValKept(m, m1, {}, notx, y);
    SchoolProduct(sim, inter, y, z, notx);
    inter.Free(notx);
    SchoolCycles(|x|);
  }
}
