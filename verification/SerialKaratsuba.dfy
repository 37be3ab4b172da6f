/** fixedMultiplication of serial/AritPIM.py above 20 bits: Karatsuba over the cells of the result. */
module SerialKaratsuba {
  import opened Numbers
  import opened Simulator
  import opened Allocator
  import opened Cells
  import opened SerialFixed
  import opened SerialMultiply

  /** `n` copies of the zero cell, the source's padding. */
  function Zeros(zero: nat, n: nat): (r: seq<nat>)
    ensures |r| == n && forall i {:trigger r[i]} | 0 <= i < n :: r[i] == zero
  {
    seq(n, _ => zero)
  }

  /** Padding with a cell that holds 0 does not change the number. */
  lemma PadVal(m: seq<bool>, a: seq<nat>, zero: nat, n: nat)
    requires Bit(m, zero) == 0
    ensures Val(m, a + Zeros(zero, n)) == Val(m, a)
  {
    hide ValN;
    var p := Zeros(zero, n);
    ValAppend(m, a, p);
    ValZero(m, p, n);
    assert Val(m, p) == 0;
  }

  /** The sum of the two halves of `x`, one bit wider than the upper half, written to `sum`. */
  method HalfSum(sim: SerialSimulator, inter: IntermediateAllocator, x: seq<nat>, zero: nat, sum: seq<nat>)
    requires Ready(sim, inter) && |inter.free| >= 5 && |x| >= 2 && |sum| == |x| - |x| / 2 + 1
    requires LiveReg(sim, inter, x) && LiveReg(sim, inter, sum) && Live(sim, inter, zero)
    requires Distinct(x) && Distinct(sum) && Apart(x, sum) && zero !in x && zero !in sum && !sim.memory[zero]
    modifies sim, inter
    ensures Ready(sim, inter) && inter.free == old(inter.free)
    ensures Kept(old(sim.memory), sim.memory, inter.free, sum)
    ensures Val(sim.memory, sum) == old(Val(sim.memory, x[..|x| / 2]) + Val(sim.memory, x[|x| / 2..]))
    ensures sim.latency == old(sim.latency) + 18 * (|x| - |x| / 2) + 1
  {
    hide ValN, Pow2;
    ghost var m := sim.memory;
    var l := |x| / 2;
    var u := |x| - l;
    var lo, hi, s := x[..l] + Zeros(zero, u - l), x[l..], sum[..u];
    PadVal(m, x[..l], zero, u - l);
    assert forall i {:trigger lo[i]} | 0 <= i < u :: lo[i] == if i < l then x[i] else zero;
    assert forall i {:trigger hi[i]} | 0 <= i < u :: hi[i] == x[l + i];
    assert forall i {:trigger s[i]} | 0 <= i < u :: s[i] == sum[i];
    ghost var carry := FixedAddition(sim, inter, lo, hi, s, NoCarry, Some(sum[u]));
    ValNext(sim.memory, sum, u);
    ValPrefix(sim.memory, sum, s, u);
  }

  /** Subtracts the narrower `a` from `t` in place when it fits. */
  method SubPadded(sim: SerialSimulator, inter: IntermediateAllocator, t: seq<nat>, a: seq<nat>, zero: nat)
    requires Ready(sim, inter) && |inter.free| >= 6 && |a| <= |t|
    requires LiveReg(sim, inter, t) && LiveReg(sim, inter, a) && Live(sim, inter, zero)
    requires Distinct(t) && Apart(a, t) && zero !in t && zero !in a && !sim.memory[zero]
    requires Val(sim.memory, a) <= Val(sim.memory, t)
    modifies sim, inter
    ensures Ready(sim, inter) && inter.free == old(inter.free)
    ensures Kept(old(sim.memory), sim.memory, inter.free, t)
    ensures Val(sim.memory, t) == old(Val(sim.memory, t) - Val(sim.memory, a))
    ensures sim.latency == old(sim.latency) + 20 * |t| + 1
  {
    hide ValN, Pow2;
    var p := a + Zeros(zero, |t| - |a|);
    PadVal(sim.memory, a, zero, |t| - |a|);
    assert forall i {:trigger p[i]} | 0 <= i < |t| :: p[i] == if i < |a| then a[i] else zero;
    FixedSubtraction(sim, inter, t, p, t, None);
  }

  /** Scratch cells that a product of `n`-bit numbers needs. */
  function MulCells(n: nat): (k: nat)
    ensures k >= 7
  {
    if n <= 20 then n + 7 else 2 * (n - n / 2) + 3 + MulCells(n - n / 2 + 1)
  }

  lemma {:induction false} MulCellsMono(n: nat)
    ensures MulCells(n) <= MulCells(n + 1)
  {
    hide MulCells;
    if n < 20 {
      MulCellsSmall(n);
      MulCellsSmall(n + 1);
    } else if n == 20 {
      MulCellsSmall(20);
      MulCellsSmall(12);
      MulCellsUnfold(21);
    } else {
      MulCellsUnfold(n);
      MulCellsUnfold(n + 1);
      MulCellsMono(n - n / 2 + 1);
    }
  }

  lemma MulCellsSmall(n: nat)
    requires n <= 20
    ensures MulCells(n) == n + 7
  {
  }

  /** The pool for `n` bits covers the cross term, the zero cell and each of the three recursive products. */
  lemma MulCellsStep(n: nat, l: nat)
    requires n > 20 && l == n / 2
    ensures MulCells(n) == 2 * (n - l) + 3 + MulCells(n - l + 1)
    ensures MulCells(n - l + 1) >= MulCells(n - l) >= MulCells(l)
  {
    hide MulCells;
    MulCellsMono(n - l);
    MulCellsMono(l);
    MulCellsUnfold(n);
  }

  lemma MulCellsUnfold(n: nat)
    requires n > 20
    ensures MulCells(n) == 2 * (n - n / 2) + 3 + MulCells(n - n / 2 + 1)
  {
  }

  /** Cycles of a product of `n`-bit numbers. */
  function MulCycles(n: nat): int {
    if n <= 20 then 20 * n * n - 12 * n - 1
    else
      var u := n - n / 2;
      142 * u + 10 * n + 102 + MulCycles(u + 1) + MulCycles(u) + MulCycles(n / 2)
  }

  lemma MulCyclesStep(n: nat)
    requires n > 20
    ensures var u := n - n / 2;
            MulCycles(n) == 142 * u + 10 * n + 102 + MulCycles(u + 1) + MulCycles(u) + MulCycles(n / 2)
  {
  }

  lemma MulCyclesSmall(n: nat)
    requires n <= 20
    ensures MulCycles(n) == 20 * n * n - 12 * n - 1 && MulCells(n) == n + 7
  {
  }

  /** The closed form the source gives for even widths that recurse once. */
  lemma MulCyclesEven(h: nat)
    requires 20 < 2 * h <= 38
    ensures MulCycles(2 * h) == 15 * (2 * h) * (2 * h) + 83 * (2 * h) + 107
  {
    hide MulCycles;
    MulCyclesStep(2 * h);
    MulCyclesSmall(h + 1);
    MulCyclesSmall(h);
    assert (h + 1) * (h + 1) == h * h + 2 * h + 1;
  }

  /** What both forms of the multiplication ask of their operands. */
  ghost predicate MulPre(sim: SerialSimulator, inter: IntermediateAllocator, x: seq<nat>, y: seq<nat>, z: seq<nat>)
    reads sim, inter
  {
    && Ready(sim, inter) && 2 <= |x| == |y| && |z| == 2 * |x|
    && LiveReg(sim, inter, x) && LiveReg(sim, inter, y) && LiveReg(sim, inter, z)
    && Distinct(x) && Distinct(y) && Distinct(z) && Apart(x, z) && Apart(y, z)
  }

  /** The halves of `x`, split at `l`, hold `x0` and `x1`. */
  ghost predicate Halves(m: seq<bool>, x: seq<nat>, l: nat, x0: int, x1: int) {
    l <= |x| && Val(m, x[..l]) == x0 && Val(m, x[l..]) == x1
  }

  lemma KeptHalves(m: seq<bool>, m': seq<bool>, f: set<nat>, t: seq<nat>, x: seq<nat>, l: nat, x0: int, x1: int)
    requires Halves(m, x, l, x0, x1) && Kept(m, m', f, t) && Apart(x, t) && forall i | 0 <= i < |x| :: x[i] !in f
    ensures Halves(m', x, l, x0, x1)
  {
    hide Val;
    var a, b := x[..l], x[l..];
    assert forall i {:trigger a[i]} | 0 <= i < |a| :: a[i] == x[i];
    assert forall i {:trigger b[i]} | 0 <= i < |b| :: b[i] == x[l + i];
    ValKept(m, m', f, t, a);
    ValKept(m, m', f, t, b);
  }

  /** x0 + x1 into the low end of `z` and y0 + y1 into its middle. */
  method HalfSums(sim: SerialSimulator, inter: IntermediateAllocator, x: seq<nat>, y: seq<nat>, z: seq<nat>, zero: nat,
                  l: nat, ghost x0: int, ghost x1: int, ghost y0: int, ghost y1: int)
    requires MulPre(sim, inter, x, y, z) && |inter.free| >= 5 && |x| > 20 && l == |x| / 2
    requires Live(sim, inter, zero) && zero !in x && zero !in y && zero !in z && !sim.memory[zero]
    requires Halves(sim.memory, x, l, x0, x1) && Halves(sim.memory, y, l, y0, y1)
    modifies sim, inter
    ensures Ready(sim, inter) && inter.free == old(inter.free)
    ensures Kept(old(sim.memory), sim.memory, inter.free, z)
    ensures Val(sim.memory, z[..|x| - l + 1]) == x0 + x1
    ensures Val(sim.memory, z[|x|..2 * |x| - l + 1]) == y0 + y1
    ensures sim.latency == old(sim.latency) + 36 * (|x| - l) + 2
  {
    hide Val;
    ghost var m := sim.memory;
    var n := |x|;
    var xs, ys := z[..n - l + 1], z[n..2 * n - l + 1];
    assert forall i {:trigger xs[i]} | 0 <= i < |xs| :: xs[i] == z[i];
    assert forall i {:trigger ys[i]} | 0 <= i < |ys| :: ys[i] == z[n + i];
    HalfSum(sim, inter, x, zero, xs);
    ghost var m1 := sim.memory;
    KeptHalves(m, m1, inter.free, xs, y, l, y0, y1);
    HalfSum(sim, inter, y, zero, ys);
    ValKept(m1, sim.memory, inter.free, ys, xs);
  }

  /** The half products into the two ends of `z`. */
  method EndProducts(sim: SerialSimulator, inter: IntermediateAllocator, x: seq<nat>, y: seq<nat>, z: seq<nat>,
                     l: nat, ghost x0: int, ghost x1: int, ghost y0: int, ghost y1: int)
    requires MulPre(sim, inter, x, y, z) && 2 <= l && l + 2 <= |x|
    requires |inter.free| >= MulCells(l) && |inter.free| >= MulCells(|x| - l)
    requires Halves(sim.memory, x, l, x0, x1) && Halves(sim.memory, y, l, y0, y1)
    modifies sim, inter
    ensures Ready(sim, inter) && inter.free == old(inter.free)
    ensures Kept(old(sim.memory), sim.memory, inter.free, z)
    ensures Halves(sim.memory, z, 2 * l, x0 * y0, x1 * y1)
    ensures sim.latency == old(sim.latency) + MulCycles(l) + MulCycles(|x| - l)
    decreases |x|, 0
  {
    hide Val, MulCells, MulCycles;
    ghost var m := sim.memory;
    var xl, yl, zl := x[..l], y[..l], z[..2 * l];
    assert forall i {:trigger xl[i]} | 0 <= i < |xl| :: xl[i] == x[i];
    assert forall i {:trigger yl[i]} | 0 <= i < |yl| :: yl[i] == y[i];
    assert forall i {:trigger zl[i]} | 0 <= i < |zl| :: zl[i] == z[i];
    FixedMultiplication(sim, inter, xl, yl, zl);
    ghost var m1 := sim.memory;
    KeptHalves(m, m1, inter.free, zl, x, l, x0, x1);
    KeptHalves(m, m1, inter.free, zl, y, l, y0, y1);
    var xh, yh, zh := x[l..], y[l..], z[2 * l..];
    assert forall i {:trigger xh[i]} | 0 <= i < |xh| :: xh[i] == x[l + i];
    assert forall i {:trigger yh[i]} | 0 <= i < |yh| :: yh[i] == y[l + i];
    assert forall i {:trigger zh[i]} | 0 <= i < |zh| :: zh[i] == z[2 * l + i];
    FixedMultiplication(sim, inter, xh, yh, zh);
    ValKept(m1, sim.memory, inter.free, zh, zl);
  }

  /** The product of the half sums, which stand in z's own cells. */
  method CrossProduct(sim: SerialSimulator, inter: IntermediateAllocator, z: seq<nat>, t: seq<nat>, n: nat, l: nat,
                      ghost a: int, ghost b: int)
    requires Ready(sim, inter) && 3 <= l && l + 2 <= n && |z| == 2 * n && |t| == 2 * (n - l + 1)
    requires |inter.free| >= MulCells(n - l + 1) && LiveReg(sim, inter, z) && LiveReg(sim, inter, t)
    requires Distinct(z) && Distinct(t) && Apart(z, t)
    requires Val(sim.memory, z[..n - l + 1]) == a && Val(sim.memory, z[n..2 * n - l + 1]) == b
    modifies sim, inter
    ensures Ready(sim, inter) && inter.free == old(inter.free) && |sim.memory| == |old(sim.memory)|
    ensures Kept(old(sim.memory), sim.memory, inter.free, t) && Val(sim.memory, t) == a * b
    ensures sim.latency == old(sim.latency) + MulCycles(n - l + 1)
    decreases n, 0
  {
    hide Val, MulCells, MulCycles;
    var xs, ys := z[..n - l + 1], z[n..2 * n - l + 1];
    assert forall i {:trigger xs[i]} | 0 <= i < |xs| :: xs[i] == z[i];
    assert forall i {:trigger ys[i]} | 0 <= i < |ys| :: ys[i] == z[n + i];
    FixedMultiplication(sim, inter, xs, ys, t);
  }

  /** The three recursive products, the first from the half sums that stand in `z`. */
  method Products(sim: SerialSimulator, inter: IntermediateAllocator, x: seq<nat>, y: seq<nat>, z: seq<nat>,
                  t: seq<nat>, l: nat, ghost x0: int, ghost x1: int, ghost y0: int, ghost y1: int)
    requires MulPre(sim, inter, x, y, z) && 3 <= l && l + 2 <= |x| && |t| == 2 * (|x| - l + 1)
    requires |inter.free| >= MulCells(l) && |inter.free| >= MulCells(|x| - l) && |inter.free| >= MulCells(|x| - l + 1)
    requires LiveReg(sim, inter, t) && Distinct(t) && Apart(x, t) && Apart(y, t) && Apart(z, t)
    requires Halves(sim.memory, x, l, x0, x1) && Halves(sim.memory, y, l, y0, y1)
    requires Val(sim.memory, z[..|x| - l + 1]) == x0 + x1
    requires Val(sim.memory, z[|x|..2 * |x| - l + 1]) == y0 + y1
    modifies sim, inter
    ensures Ready(sim, inter) && inter.free == old(inter.free)
    ensures Kept(old(sim.memory), sim.memory, inter.free, z + t)
    ensures Halves(sim.memory, z, 2 * l, x0 * y0, x1 * y1)
    ensures Val(sim.memory, t) == (x0 + x1) * (y0 + y1)
    ensures sim.latency == old(sim.latency) + MulCycles(|x| - l + 1) + MulCycles(l) + MulCycles(|x| - l)
    decreases |x|, 1
  {
    hide Val, MulCells, MulCycles;
    ghost var m := sim.memory;
    CrossProduct(sim, inter, z, t, |x|, l, x0 + x1, y0 + y1);
    ghost var m1 := sim.memory;
    KeptHalves(m, m1, inter.free, t, x, l, x0, x1);
    KeptHalves(m, m1, inter.free, t, y, l, y0, y1);
    EndProducts(sim, inter, x, y, z, l, x0, x1, y0, y1);
    ValKept(m1, sim.memory, inter.free, z, t);
  }

  /** (x0 + x1)(y0 + y1) - x0*y0 - x1*y1 is the cross term and never negative. */
  lemma CrossTerm(x0: int, x1: int, y0: int, y1: int)
    requires x0 >= 0 && x1 >= 0 && y0 >= 0 && y1 >= 0
    ensures (x0 + x1) * (y0 + y1) == x0 * y0 + x1 * y1 + (x0 * y1 + x1 * y0)
    ensures x0 * y0 >= 0 && x1 * y1 >= 0 && x0 * y1 + x1 * y0 >= 0
  {
  }

  /** The two subtractions that leave the cross term in `t`. */
  method SubtractEnds(sim: SerialSimulator, inter: IntermediateAllocator, z: seq<nat>, t: seq<nat>, zero: nat, k: nat,
                      ghost z0: int, ghost z1: int)
    requires Ready(sim, inter) && |inter.free| >= 6 && k <= |z| && k <= |t| && |z| - k <= |t|
    requires LiveReg(sim, inter, z) && LiveReg(sim, inter, t) && Live(sim, inter, zero)
    requires Distinct(t) && Apart(z, t) && zero !in z && zero !in t && !sim.memory[zero]
    requires Halves(sim.memory, z, k, z0, z1) && z0 + z1 <= Val(sim.memory, t)
    modifies sim, inter
    ensures Ready(sim, inter) && inter.free == old(inter.free)
    ensures Kept(old(sim.memory), sim.memory, inter.free, t)
    ensures Val(sim.memory, t) == old(Val(sim.memory, t)) - z0 - z1
    ensures Halves(sim.memory, z, k, z0, z1)
    ensures sim.latency == old(sim.latency) + 40 * |t| + 2
  {
    hide Val;
    ghost var m := sim.memory;
    var zl, zh := z[..k], z[k..];
    assert forall i {:trigger zl[i]} | 0 <= i < |zl| :: zl[i] == z[i];
    assert forall i {:trigger zh[i]} | 0 <= i < |zh| :: zh[i] == z[k + i];
    SubPadded(sim, inter, t, zl, zero);
    KeptHalves(m, sim.memory, inter.free, t, z, k, z0, z1);
    ghost var m1 := sim.memory;
    SubPadded(sim, inter, t, zh, zero);
    KeptHalves(m1, sim.memory, inter.free, t, z, k, z0, z1);
  }

  /** `v` consists of three parts of the given weights. */
  ghost predicate Joined(v: int, pl: int, pk: int, lo: int, mid: int, hi: int) {
    v == lo + pl * mid + pk * hi
  }

  ghost predicate Times(a: int, b: int, c: int) {
    c == a * b
  }

  lemma Pow2Times(a: nat, b: nat)
    ensures Times(Pow2(a), Pow2(b), Pow2(a + b))
  {
    Pow2Add(a, b);
  }

  lemma ThreeParts(m: seq<bool>, z: seq<nat>, l: nat, k: nat)
    requires l <= k <= |z|
    ensures Joined(Val(m, z), Pow2(l), Pow2(k), Val(m, z[..l]), Val(m, z[l..k]), Val(m, z[k..]))
  {
    hide ValN, Pow2, Val;
    var lo, mid, low, hi := z[..l], z[l..k], z[..k], z[k..];
    assert low + hi == z && lo + mid == low;
    ValAppend(m, low, hi);
    ValAppend(m, lo, mid);
  }

  /** Adding into the middle part with its carry into the upper part adds to the whole. */
  lemma MergeSum(pl: int, pt: int, ph: int, pk: int, pz: int,
                 lo: int, mid: int, mid': int, hi: int, hi': int, t: int, c1: nat, c2: nat, v: nat, v': nat, u: int)
    requires Joined(v, pl, pk, lo, mid, hi) && Joined(v', pl, pk, lo, mid', hi') && v + u < pz && Times(pl, t, u)
    requires Times(pl, pt, pk) && Times(pk, ph, pz) && c1 <= 1 && c2 <= 1
    requires mid' + (if c1 == 1 then pt else 0) == t + mid && hi' + (if c2 == 1 then ph else 0) == hi + c1
    ensures v' == v + u
  {
    MulAdd(pl, mid', pt);
    MulAdd(pl, t, mid);
    MulAdd(pk, hi', ph);
    MulAdd(pk, hi, 1);
  }

  lemma MergeVal(m: seq<bool>, m': seq<bool>, z: seq<nat>, t: seq<nat>, l: nat, c1: nat, c2: nat, u: int)
    requires l + |t| <= |z| && c1 <= 1 && c2 <= 1 && Times(Pow2(l), Val(m, t), u)
    requires Val(m', z[..l]) == Val(m, z[..l])
    requires Val(m', z[l..l + |t|]) + (if c1 == 1 then Pow2(|t|) else 0) == Val(m, t) + Val(m, z[l..l + |t|])
    requires Val(m', z[l + |t|..]) + (if c2 == 1 then Pow2(|z| - l - |t|) else 0) == Val(m, z[l + |t|..]) + c1
    requires Val(m, z) + u < Pow2(|z|)
    ensures Val(m', z) == Val(m, z) + u
  {
    hide ValN, Pow2, Val, Joined, Times;
    var k := l + |t|;
    ThreeParts(m, z, l, k);
    ThreeParts(m', z, l, k);
    Pow2Times(l, |t|);
    Pow2Times(k, |z| - k);
    MergeSum(Pow2(l), Pow2(|t|), Pow2(|z| - k), Pow2(k), Pow2(|z|), Val(m, z[..l]), Val(m, z[l..k]), Val(m', z[l..k]),
             Val(m, z[k..]), Val(m', z[k..]), Val(m, t), c1, c2, Val(m, z), Val(m', z), u);
  }

  /** The addition into the middle part, its addend's cells given back, and its carry through the upper part. */
  method MergeParts(sim: SerialSimulator, inter: IntermediateAllocator, mid: seq<nat>, hi: seq<nat>, t: seq<nat>,
                    c: nat)
    returns (ghost c1: nat, ghost c2: nat)
    requires Ready(sim, inter) && |inter.free| >= 5 && 0 < |t| == |mid| && |hi| > 0
    requires LiveReg(sim, inter, mid) && LiveReg(sim, inter, hi) && LiveReg(sim, inter, t)
    requires Distinct(mid) && Distinct(hi) && Distinct(t) && Apart(mid, hi) && Apart(mid, t) && Apart(hi, t)
    requires Live(sim, inter, c) && c !in mid && c !in hi && c !in t
    requires forall i | 0 <= i < |t| :: Pooled(inter.cells, t[i])
    modifies sim, inter
    ensures Ready(sim, inter)
    ensures forall c: nat {:trigger c in inter.free} :: c in inter.free <==> c in old(inter.free) || c in t
    ensures |inter.free| == |old(inter.free)| + |t|
    ensures Kept(old(sim.memory), sim.memory, inter.free, mid + hi + [c])
    ensures c1 <= 1 && c2 <= 1
    ensures Val(sim.memory, mid) + (if c1 == 1 then Pow2(|t|) else 0) == old(Val(sim.memory, t) + Val(sim.memory, mid))
    ensures Val(sim.memory, hi) + (if c2 == 1 then Pow2(|hi|) else 0) == old(Val(sim.memory, hi)) + c1
    ensures sim.latency == old(sim.latency) + 18 * |t| + 1 + 10 * |hi|
  {
    hide ValN, Pow2, Val;
    ghost var m := sim.memory;
    c1 := FixedAddition(sim, inter, t, mid, mid, NoCarry, Some(c));
    ghost var m1 := sim.memory;
    ValKept(m, m1, inter.free, mid + [c], hi);
    inter.Free(t);
    c2 := FixedAddBit(sim, inter, hi, hi, CarryAt(c), None);
    ValKept(m1, sim.memory, inter.free, hi, mid);
  }

  /** Adds the cross term `t` into `z` from cell `l` on and gives `t` back; the carry runs to the top and is never
      lost. */
  method Merge(sim: SerialSimulator, inter: IntermediateAllocator, z: seq<nat>, t: seq<nat>, l: nat, c: nat)
    requires Ready(sim, inter) && |inter.free| >= 5 && 0 < |t| && l + |t| < |z|
    requires LiveReg(sim, inter, z) && LiveReg(sim, inter, t) && Distinct(z) && Distinct(t) && Apart(z, t)
    requires Live(sim, inter, c) && c !in z && c !in t
    requires forall i | 0 <= i < |t| :: Pooled(inter.cells, t[i])
    requires Val(sim.memory, z) + Pow2(l) * Val(sim.memory, t) < Pow2(|z|)
    modifies sim, inter
    ensures Ready(sim, inter)
    ensures forall c: nat {:trigger c in inter.free} :: c in inter.free <==> c in old(inter.free) || c in t
    ensures |inter.free| == |old(inter.free)| + |t|
    ensures Kept(old(sim.memory), sim.memory, inter.free, z + [c])
    ensures Val(sim.memory, z) == old(Val(sim.memory, z) + Pow2(l) * Val(sim.memory, t))
    ensures sim.latency == old(sim.latency) + 18 * |t| + 1 + 10 * (|z| - l - |t|)
  {
    hide ValN, Pow2, Val;
    ghost var m := sim.memory;
    var k := l + |t|;
    var lo, mid, hi := z[..l], z[l..k], z[k..];
    assert forall i {:trigger lo[i]} | 0 <= i < |lo| :: lo[i] == z[i];
    assert forall i {:trigger mid[i]} | 0 <= i < |mid| :: mid[i] == z[l + i];
    assert forall i {:trigger hi[i]} | 0 <= i < |hi| :: hi[i] == z[k + i];
    ghost var c1, c2 := MergeParts(sim, inter, mid, hi, t, c);
    ghost var o := mid + hi + [c];
    assert forall i {:trigger o[i]} | 0 <= i < |o| ::
             o[i] == if i < |mid| then mid[i] else if i < |mid| + |hi| then hi[i - |mid|] else c;
    ValKept(m, sim.memory, inter.free, o, lo);
    MergeVal(m, sim.memory, z, t, l, c1, c2, Pow2(l) * Val(m, t));
  }

  /** From the half sums in `z` to the end products in `z` and the cross term in `t`. */
  method Terms(sim: SerialSimulator, inter: IntermediateAllocator, x: seq<nat>, y: seq<nat>, z: seq<nat>, t: seq<nat>,
               zero: nat, l: nat, ghost x0: int, ghost x1: int, ghost y0: int, ghost y1: int)
    requires MulPre(sim, inter, x, y, z) && 3 <= l && 2 * l <= |x| <= 2 * l + 1 && |t| == 2 * (|x| - l + 1)
    requires |inter.free| >= MulCells(l) && |inter.free| >= MulCells(|x| - l) && |inter.free| >= MulCells(|x| - l + 1)
    requires LiveReg(sim, inter, t) && Distinct(t) && Apart(x, t) && Apart(y, t) && Apart(z, t)
    requires Live(sim, inter, zero) && zero !in z && zero !in t && !sim.memory[zero]
    requires Halves(sim.memory, x, l, x0, x1) && Halves(sim.memory, y, l, y0, y1)
    requires Val(sim.memory, z[..|x| - l + 1]) == x0 + x1
    requires Val(sim.memory, z[|x|..2 * |x| - l + 1]) == y0 + y1
    modifies sim, inter
    ensures Ready(sim, inter) && inter.free == old(inter.free)
    ensures Kept(old(sim.memory), sim.memory, inter.free, z + t)
    ensures Halves(sim.memory, z, 2 * l, x0 * y0, x1 * y1)
    ensures Val(sim.memory, t) == x0 * y1 + x1 * y0
    ensures sim.latency == old(sim.latency) + MulCycles(|x| - l + 1) + MulCycles(l) + MulCycles(|x| - l) + 40 * |t| + 2
    decreases |x|, 2
  {
    assert x0 >= 0 && x1 >= 0 && y0 >= 0 && y1 >= 0;
    hide Val, MulCells, MulCycles, Halves;
    Products(sim, inter, x, y, z, t, l, x0, x1, y0, y1);
    CrossTerm(x0, x1, y0, y1);
    SubtractEnds(sim, inter, z, t, zero, 2 * l, x0 * y0, x1 * y1);
  }

  /** Half sums, the three products and the cross term, which is left in freshly allocated cells. */
  method CrossTerms(sim: SerialSimulator, inter: IntermediateAllocator, x: seq<nat>, y: seq<nat>, z: seq<nat>,
                    zero: nat, l: nat, ghost x0: int, ghost x1: int, ghost y0: int, ghost y1: int)
    returns (t: seq<nat>)
    requires MulPre(sim, inter, x, y, z) && |x| > 20 && l == |x| / 2 && |inter.free| + 1 >= MulCells(|x|)
    requires Live(sim, inter, zero) && zero !in x && zero !in y && zero !in z && !sim.memory[zero]
    requires Halves(sim.memory, x, l, x0, x1) && Halves(sim.memory, y, l, y0, y1)
    modifies sim, inter
    ensures Ready(sim, inter) && |t| == 2 * (|x| - l + 1) && Distinct(t)
    ensures forall i | 0 <= i < |t| :: t[i] in old(inter.free) && t[i] !in inter.free && Pooled(inter.cells, t[i])
    ensures forall c: nat {:trigger c in inter.free} :: c in inter.free <==> c in old(inter.free) && c !in t
    ensures |inter.free| == |old(inter.free)| - |t|
    ensures Kept(old(sim.memory), sim.memory, old(inter.free), z)
    ensures Halves(sim.memory, z, 2 * l, x0 * y0, x1 * y1)
    ensures Val(sim.memory, t) == x0 * y1 + x1 * y0
    ensures sim.latency == old(sim.latency) + 116 * (|x| - l) + 84 + MulCycles(|x| - l + 1) + MulCycles(l) +
                           MulCycles(|x| - l)
    decreases |x|, 3
  {
    hide Val, MulCells, MulCycles, Halves;
    MulCellsStep(|x|, l);
    ghost var m := sim.memory;
    HalfSums(sim, inter, x, y, z, zero, l, x0, x1, y0, y1);
    KeptHalves(m, sim.memory, inter.free, z, x, l, x0, x1);
    KeptHalves(m, sim.memory, inter.free, z, y, l, y0, y1);
    t := inter.Malloc(2 * (|x| - l + 1));
    Terms(sim, inter, x, y, z, t, zero, l, x0, x1, y0, y1);
  }

  /** Karatsuba's identity, and that the product fits in the cells of `z`. */
  lemma KaratsubaValue(m: seq<bool>, x: seq<nat>, y: seq<nat>, l: nat, x0: int, x1: int, y0: int, y1: int)
    requires |x| == |y| && Halves(m, x, l, x0, x1) && Halves(m, y, l, y0, y1)
    ensures Val(m, x) * Val(m, y) == x0 * y0 + Pow2(2 * l) * (x1 * y1) + Pow2(l) * (x0 * y1 + x1 * y0)
    ensures Val(m, x) * Val(m, y) < Pow2(2 * |x|)
  {
    hide ValN, Val, Pow2;
    ValAppend(m, x[..l], x[l..]);
    ValAppend(m, y[..l], y[l..]);
    assert x[..l] + x[l..] == x && y[..l] + y[l..] == y;
    Pow2Add(l, l);
    KaratsubaIdentity(Pow2(l), Pow2(2 * l), x0, x1, y0, y1);
    Pow2Add(|x|, |x|);
    ProductBound(Val(m, x), Val(m, y), Pow2(|x|));
  }

  lemma KaratsubaIdentity(p: int, pp: int, x0: int, x1: int, y0: int, y1: int)
    requires pp == p * p
    ensures (x0 + p * x1) * (y0 + p * y1) == x0 * y0 + pp * (x1 * y1) + p * (x0 * y1 + x1 * y0)
  {
  }

  lemma ProductBound(a: nat, b: nat, p: nat)
    requires a < p && b < p
    ensures 0 <= a * b < p * p
  {
    MulMono(a, b, p);
    MulLess(p, a, p);
  }

  /** The merge with its carry cell, which leaves the product in `z` and the pool as before the cross term. */
  method MergeCross(sim: SerialSimulator, inter: IntermediateAllocator, z: seq<nat>, t: seq<nat>, l: nat)
    requires Ready(sim, inter) && |inter.free| >= 6 && 0 < |t| && l + |t| < |z|
    requires LiveReg(sim, inter, z) && LiveReg(sim, inter, t) && Distinct(z) && Distinct(t) && Apart(z, t)
    requires forall i | 0 <= i < |t| :: Pooled(inter.cells, t[i])
    requires Val(sim.memory, z) + Pow2(l) * Val(sim.memory, t) < Pow2(|z|)
    modifies sim, inter
    ensures Ready(sim, inter)
    ensures forall c: nat {:trigger c in inter.free} :: c in inter.free <==> c in old(inter.free) || c in t
    ensures Kept(old(sim.memory), sim.memory, inter.free, z)
    ensures Val(sim.memory, z) == old(Val(sim.memory, z) + Pow2(l) * Val(sim.memory, t))
    ensures sim.latency == old(sim.latency) + 18 * |t| + 1 + 10 * (|z| - l - |t|)
  {
    hide Val, Pow2;
    var c := inter.MallocCell();
    Merge(sim, inter, z, t, l, c);
    inter.FreeCell(c);
  }

  /** fixedMultiplication for N > 20. */
  method Karatsuba(sim: SerialSimulator, inter: IntermediateAllocator, x: seq<nat>, y: seq<nat>, z: seq<nat>,
                   l: nat, ghost x0: int, ghost x1: int, ghost y0: int, ghost y1: int)
    requires MulPre(sim, inter, x, y, z) && |x| > 20 && l == |x| / 2 && |inter.free| >= MulCells(|x|)
    requires Halves(sim.memory, x, l, x0, x1) && Halves(sim.memory, y, l, y0, y1)
    modifies sim, inter
    ensures Ready(sim, inter) && inter.free == old(inter.free)
    ensures Kept(old(sim.memory), sim.memory, inter.free, z)
    ensures Val(sim.memory, z) == old(Val(sim.memory, x) * Val(sim.memory, y))
    ensures sim.latency == old(sim.latency) + 142 * (|x| - l) + 10 * |x| + 102 + MulCycles(|x| - l + 1) +
                           MulCycles(|x| - l) + MulCycles(l)
    decreases |x|, 4
  {
    hide Val, MulCells, MulCycles, Halves, Pow2, Tracks;
    MulCellsStep(|x|, l);
    ghost var m := sim.memory;
    KaratsubaValue(m, x, y, l, x0, x1, y0, y1);
    var zero := inter.MallocCell();
    sim.Init0(zero);
    KeptHalves(m, sim.memory, {}, [zero], x, l, x0, x1);
    KeptHalves(m, sim.memory, {}, [zero], y, l, y0, y1);
    var t := CrossTerms(sim, inter, x, y, z, zero, l, x0, x1, y0, y1);
    inter.FreeCell(zero);
    HalvesVal(sim.memory, z, 2 * l, x0 * y0, x1 * y1);
    MergeCross(sim, inter, z, t, l);
  }

  lemma HalvesVal(m: seq<bool>, z: seq<nat>, k: nat, z0: int, z1: int)
    requires Halves(m, z, k, z0, z1)
    ensures Val(m, z) == z0 + Pow2(k) * z1
  {
    hide Val, Pow2;
    ValAppend(m, z[..k], z[k..]);
    assert z[..k] + z[k..] == z;
  }

  /** fixedMultiplication: the full 2N-bit product, for every N >= 2, across the switch. */
  method FixedMultiplication(sim: SerialSimulator, inter: IntermediateAllocator, x: seq<nat>, y: seq<nat>, z: seq<nat>)
    requires MulPre(sim, inter, x, y, z) && |inter.free| >= MulCells(|x|)
    modifies sim, inter
    ensures Ready(sim, inter) && inter.free == old(inter.free)
    ensures Kept(old(sim.memory), sim.memory, inter.free, z)
    ensures Val(sim.memory, z) == old(Val(sim.memory, x) * Val(sim.memory, y))
    ensures sim.latency == old(sim.latency) + MulCycles(|x|)
    decreases |x|, 5
  {
    hide Val, MulCells, MulCycles;
    if |x| <= 20 {
      MulCyclesSmall(|x|);
      Schoolbook(sim, inter, x, y, z);
    } else {
      var l := |x| / 2;
      MulCyclesStep(|x|);
      ghost var m := sim.memory;
      Karatsuba(sim, inter, x, y, z, l, Val(m, x[..l]), Val(m, x[l..]), Val(m, y[..l]), Val(m, y[l..]));
    }
  }
}
