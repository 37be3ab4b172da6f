/** fixedMultiplication of parallel/AritPIM.py: a carry-save multiplier with one bit in each partition. */
module ParallelMultiply {
  import opened Numbers
  import opened Simulator
  import opened Allocator
  import opened Words
  import opened ParallelSim
  import opened ParallelGates
  import opened Prefix
  import opened ParallelAdd
  import opened CarrySave

  /** While a bit `v` spreads to all multiples of `2^i`: those hold it, the rest are still 1; `t` holds complements. */
  ghost predicate Spread(w: Word, t: Word, v: bool, i: nat) {
    && |w| == |t|
    && (forall j {:trigger w[j]} | 0 <= j < |w| :: w[j] == (Mult(i, j) ==> v))
    && (forall j {:trigger t[j]} | 0 < j < |t| :: t[j] == !(Mult(i, j) && v))
  }

  lemma SpreadStart(w: Word, t: Word, v: bool, i: nat)
    requires |w| == |t| && 1 <= |w| <= Pow2(i) && w[0] == v
    requires forall j {:trigger w[j]} {:trigger t[j]} | 0 < j < |w| :: w[j] && t[j]
    ensures Spread(w, t, v, i)
  {
    MultZero(i);
    forall j | 0 < j < |w|
      ensures !Mult(i, j)
    {
      if Mult(i, j) {
        HalfBelow(i, j);
      }
    }
  }

  lemma SpreadStep(w: Word, t: Word, w': Word, t': Word, v: bool, i: nat)
    requires Spread(w, t, v, i + 1) && |w'| == |t'| == |w|
    requires forall j {:trigger t'[j]} | 0 <= j < |w| ::
               t'[j] == if Pow2(i) <= j && j in Arange(Pow2(i), |w|, 2 * Pow2(i)) then t[j] && !w[j - Pow2(i)] else t[j]
    requires forall j {:trigger w'[j]} | 0 <= j < |w| ::
               w'[j] == if j in Arange(Pow2(i), |w|, 2 * Pow2(i)) then w[j] && !t'[j] else w[j]
    ensures Spread(w', t', v, i)
  {
    Pow2Next(i);
    hide Pow2, Arange, Mult;
    forall j | 0 <= j < |w|
      ensures w'[j] == (Mult(i, j) ==> v) && (j > 0 ==> t'[j] == !(Mult(i, j) && v))
    {
      DownMembers(i, |w|, j);
      if Mult(i + 1, j) {
        MultDown(i, j);
      } else if Mult(i, j) {
        DownRuns(i, i, j);
      }
    }
  }

  /** At the end every partition holds the bit. */
  lemma SpreadDone(w: Word, t: Word, v: bool)
    requires Spread(w, t, v, 0)
    ensures w == Fill(v, |w|) && forall j {:trigger t[j]} | 0 < j < |t| :: t[j] == !v
  {
    assert forall j | 0 <= j < |w| :: Mult(0, j);
  }

  /** One level of the broadcast: copies over the distance `2^i`. */
  method BroadcastStep(sim: ParallelSimulator, w: nat, t: nat, i: nat, ghost v: bool)
    requires sim.Valid() && w < |sim.memory| && t < |sim.memory| && w != t && Pow2(i) < sim.n
    requires Spread(sim.memory[w], sim.memory[t], v, i + 1)
    modifies sim
    ensures sim.Valid() && |sim.memory| == |old(sim.memory)|
    ensures forall a {:trigger sim.memory[a]} | 0 <= a < |sim.memory| && a != w && a != t ::
              sim.memory[a] == old(sim.memory)[a]
    ensures Spread(sim.memory[w], sim.memory[t], v, i) && sim.memory[t][0] == old(sim.memory)[t][0]
    ensures sim.latency == old(sim.latency) + 2
  {
    hide Spread, Window, Pow2, Arange;
    ghost var m := sim.memory;
    NotBelow(sim, w, t, Pow2(i), Pow2(i));
    NotSame(sim, t, w, Pow2(i), Pow2(i));
    SpreadStep(m[w], m[t], sim.memory[w], sim.memory[t], v, i);
  }

  /** The broadcast technique: the bit in partition 0 of `w` reaches all partitions in log N steps. */
  method Broadcast(sim: ParallelSimulator, w: nat, t: nat, ghost v: bool)
    requires sim.Valid() && sim.n >= 3 && w < |sim.memory| && t < |sim.memory| && w != t && sim.memory[w][0] == v
    requires forall j {:trigger sim.memory[w][j]} {:trigger sim.memory[t][j]} | 0 < j < sim.n ::
              sim.memory[w][j] && sim.memory[t][j]
    modifies sim
    ensures sim.Valid() && |sim.memory| == |old(sim.memory)|
    ensures forall a {:trigger sim.memory[a]} | 0 <= a < |sim.memory| && a != w && a != t ::
              sim.memory[a] == old(sim.memory)[a]
    ensures sim.memory[w] == Fill(v, sim.n)
    ensures sim.memory[t][0] == old(sim.memory)[t][0]
    ensures forall j {:trigger sim.memory[t][j]} | 0 < j < sim.n :: sim.memory[t][j] == !v
    ensures sim.latency == old(sim.latency) + 2 * CeilLog2(sim.n)
  {
    hide Spread, Window, Pow2;
    var l := CeilLog2(sim.n);
    SpreadStart(sim.memory[w], sim.memory[t], v, l);
    for i := 0 to l
      invariant sim.Valid() && |sim.memory| == |old(sim.memory)|
      invariant forall a {:trigger sim.memory[a]} | 0 <= a < |sim.memory| && a != w && a != t ::
                sim.memory[a] == old(sim.memory)[a]
      invariant Spread(sim.memory[w], sim.memory[t], v, l - i)
      invariant sim.memory[t][0] == old(sim.memory)[t][0]
      invariant sim.latency == old(sim.latency) + 2 * i
    {
      Pow2Mono(l - i - 1, l - 1);
      BroadcastStep(sim, w, t, l - i - 1, v);
    }
    SpreadDone(sim.memory[w], sim.memory[t], v);
  }

  /** pbit = y[k] in all partitions. */
  method SpreadBit(sim: ParallelSimulator, y: nat, k: nat, pbit: nat, temp: nat)
    requires sim.Valid() && sim.n >= 3 && k < sim.n && y < |sim.memory| && pbit < |sim.memory| && temp < |sim.memory|
    requires y != pbit && y != temp && pbit != temp
    modifies sim
    ensures sim.Valid() && |sim.memory| == |old(sim.memory)|
    ensures forall a {:trigger sim.memory[a]} | 0 <= a < |sim.memory| && a != pbit && a != temp ::
              sim.memory[a] == old(sim.memory)[a]
    ensures sim.memory[pbit] == Fill(old(sim.memory)[y][k], sim.n)
    ensures sim.memory[temp] == Fill(!old(sim.memory)[y][k], sim.n)
    ensures sim.latency == old(sim.latency) + 4 + 2 * CeilLog2(sim.n)
  {
    ghost var v := sim.memory[y][k];
    Init(sim, true, temp);
    Init(sim, true, pbit);
    NotAt(sim, y, k, temp, 0);
    NotAt(sim, temp, 0, pbit, 0);
    Broadcast(sim, pbit, temp, v);
    assert sim.memory[temp] == Fill(!v, sim.n);
  }

  /** The partial product of `x` and bit `k` of `y`. */
  method PartialProduct(sim: ParallelSimulator, inter: IntermediateAllocator, xnot: nat, y: nat, k: nat, pbit: nat)
    requires Ready(sim, inter) && |inter.free| >= 1 && Live(sim, inter, xnot) && Live(sim, inter, y)
    requires Live(sim, inter, pbit)
    requires k < sim.n && pbit != xnot && pbit != y
    modifies sim, inter
    ensures Ready(sim, inter) && inter.free == old(inter.free) && Kept1(old(sim.memory), sim.memory, inter.free, pbit)
    ensures sim.memory[pbit] == AndNotW(Fill(old(sim.memory)[y][k], sim.n), old(sim.memory)[xnot])
    ensures sim.latency == old(sim.latency) + 5 + 2 * CeilLog2(sim.n)
  {
    var temp := inter.MallocCell();
    SpreadBit(sim, y, k, pbit, temp);
    inter.FreeCell(temp);
    NotInto(sim, xnot, pbit);
  }

  /** Carry word into `c`; the sum word is left as NOR(t0, t2). */
  method SaveWords(sim: ParallelSimulator, s: nat, c: nat, p: nat, t0: nat, t1: nat, t2: nat, t3: nat)
    requires Temps(sim, s, c, p, t0, t1, t2, t3)
    modifies sim
    ensures Temps(sim, s, c, p, t0, t1, t2, t3) && |sim.memory| == |old(sim.memory)|
    ensures forall a {:trigger sim.memory[a]} | 0 <= a < |sim.memory| && a != c && a != t0 && a != t1 && a != t2 &&
            a != t3 ::
              sim.memory[a] == old(sim.memory)[a]
    ensures var sw, cw, pw := old(sim.memory)[s], old(sim.memory)[c], old(sim.memory)[p];
            sim.memory[c] == MajW(sw, cw, pw) && NorW(sim.memory[t0], sim.memory[t2]) == Xor3W(sw, cw, pw)
    ensures sim.latency == old(sim.latency) + 16
  {
    hide Window;
    ghost var m := sim.memory;
    SaveCarry(sim, s, c, p, t0, t1, t2, t3);
    Nor(sim, t0, t1, c);
    SaveSum(sim, p, t0, t1, t2, t3, m[s], m[c]);
  }

  /** NOR(t0, t2): its low bit into partition `k` of `z`, the others one partition down into `s`. */
  method ShiftSum(sim: ParallelSimulator, s: nat, z: nat, k: nat, t0: nat, t2: nat)
    requires sim.Valid() && sim.n >= 3 && k < sim.n && s < |sim.memory| && z < |sim.memory| && t0 < |sim.memory|
    requires t2 < |sim.memory|
    requires t0 != t2 && s != t0 && s != t2 && z != t0 && z != t2 && z != s && !sim.memory[s][sim.n - 1]
    modifies sim
    ensures sim.Valid() && |sim.memory| == |old(sim.memory)|
    ensures forall a {:trigger sim.memory[a]} | 0 <= a < |sim.memory| && a != s && a != z ::
              sim.memory[a] == old(sim.memory)[a]
    ensures var sum := NorW(old(sim.memory)[t0], old(sim.memory)[t2]);
            sim.memory[s] == DownW(sum) && sim.memory[z] == old(sim.memory)[z][k := sum[0]]
    ensures sim.latency == old(sim.latency) + 5
  {
    hide Window;
    ghost var sum := NorW(sim.memory[t0], sim.memory[t2]);
    InitAt(sim, true, z, k);
    InitSpan(sim, true, s, 0, sim.n - 1);
    NorAt(sim, t0, t2, 0, z, k);
    NorShiftDown(sim, t0, t2, s);
    assert sim.memory[s] == DownW(sum);
    assert sim.memory[z] == old(sim.memory)[z][k := sum[0]];
  }

  /** Carry-save addition of the partial product, the sum moving down and its lowest bit leaving into `z[k]`. */
  method SaveShift(sim: ParallelSimulator, s: nat, c: nat, p: nat, z: nat, k: nat, t0: nat, t1: nat, t2: nat, t3: nat)
    requires Temps(sim, s, c, p, t0, t1, t2, t3) && sim.n >= 3 && k < sim.n && z < |sim.memory|
    requires !sim.memory[s][sim.n - 1]
    requires z != s && z != c && z != p && z != t0 && z != t1 && z != t2 && z != t3
    modifies sim
    ensures sim.Valid() && |sim.memory| == |old(sim.memory)|
    ensures forall a {:trigger sim.memory[a]} | 0 <= a < |sim.memory| && a != s && a != c && a != z && a != t0 &&
            a != t1 && a != t2 && a != t3 ::
              sim.memory[a] == old(sim.memory)[a]
    ensures var sw, cw, pw := old(sim.memory)[s], old(sim.memory)[c], old(sim.memory)[p];
            && sim.memory[c] == MajW(sw, cw, pw) && sim.memory[s] == DownW(Xor3W(sw, cw, pw))
            && sim.memory[z] == old(sim.memory)[z][k := Xor3W(sw, cw, pw)[0]]
    ensures sim.latency == old(sim.latency) + 21
  {
    hide Window;
    SaveWords(sim, s, c, p, t0, t1, t2, t3);
    ShiftSum(sim, s, z, k, t0, t2);
  }

  /** After `k` rounds: x * (y mod 2^k) = Z_k + 2^k * (S + C). */
  ghost predicate MulInv(x: Word, y: Word, z: Word, s: Word, c: Word, k: nat) {
    && |x| == |y| == |z| == |s| == |c| >= 1 && k <= |x| && !s[|s| - 1]
    && Num(x) * NumN(y, k) == NumN(z, k) + Pow2(k) * (Num(s) + Num(c))
  }

  lemma {:induction false} PartialNum(x: Word, v: bool, k: nat)
    requires k <= |x|
    ensures NumN(AndNotW(Fill(v, |x|), NotW(x)), k) == if v then NumN(x, k) else 0
  {
    if k > 0 {
      PartialNum(x, v, k - 1);
    }
  }

  lemma {:induction false} NumSame(a: Word, b: Word, k: nat)
    requires k <= |a| && k <= |b| && forall j | 0 <= j < k :: a[j] == b[j]
    ensures NumN(a, k) == NumN(b, k)
  {
    if k > 0 {
      NumSame(a, b, k - 1);
    }
  }

  lemma MulStep(x: Word, y: Word, z: Word, s: Word, c: Word, p: Word, k: nat)
    requires MulInv(x, y, z, s, c, k) && k < |x| && p == AndNotW(Fill(y[k], |x|), NotW(x))
    ensures var sum := Xor3W(s, c, p); MulInv(x, y, z[k := sum[0]], DownW(sum), MajW(s, c, p), k + 1)
  {
    var n, sum, maj := |x|, Xor3W(s, c, p), MajW(s, c, p);
    var z' := z[k := sum[0]];
    NumSame(z', z, k);
    assert NumN(z', k + 1) == NumN(z, k) + if sum[0] then Pow2(k) else 0;
    assert NumN(y, k + 1) == NumN(y, k) + if y[k] then Pow2(k) else 0;
    Pow2Next(k);
    hide NumN, Pow2;
    SaveNum(s, c, p, n);
    PartialNum(x, y[k], n);
    DownWhole(sum);
    MulArith(Num(x), NumN(y, k), NumN(z, k), Num(s), Num(c), Num(p), BitOf(sum[0]), Num(DownW(sum)), Num(maj),
             Pow2(k), y[k]);
  }

  lemma MulArith(x: int, y: int, z: int, s: int, c: int, p: int, z0: int, s': int, c': int, q: int, b: bool)
    requires x * y == z + q * (s + c) && p == (if b then x else 0) && z0 + 2 * s' + 2 * c' == s + c + p && 0 <= z0 <= 1
    ensures x * (y + if b then q else 0) == z + (if z0 == 1 then q else 0) + 2 * q * (s' + c')
  {
    MulAdd(q, s + c, p);
    MulAdd(q, z0, 2 * s' + 2 * c');
    assert q * (2 * s' + 2 * c') == 2 * q * (s' + c');
    if b {
      MulAdd(x, y, q);
    } else {
      assert q * p == 0;
    }
    if z0 == 1 {
      assert q * z0 == q;
    } else {
      assert q * z0 == 0;
    }
  }

  /** The addresses of a multiplication are apart. */
  ghost predicate MulPre(sim: ParallelSimulator, inter: IntermediateAllocator, xnot: nat, y: nat, z: nat, s: nat,
                         c: nat)
    reads sim, inter
  {
    && Ready(sim, inter) && Live(sim, inter, xnot) && Live(sim, inter, y) && Live(sim, inter, z)
    && Live(sim, inter, s) && Live(sim, inter, c)
    && xnot != z && xnot != s && xnot != c && y != z && y != s && y != c && z != s && z != c && s != c
  }

  /** The four scratch words around the carry-save addition. */
  method SaveRound(sim: ParallelSimulator, inter: IntermediateAllocator, s: nat, c: nat, p: nat, z: nat, k: nat)
    requires Ready(sim, inter) && |inter.free| >= 4 && Live(sim, inter, s) && Live(sim, inter, c)
    requires Live(sim, inter, p) && Live(sim, inter, z)
    requires s != c && s != p && c != p && z != s && z != c && z != p && k < sim.n && !sim.memory[s][sim.n - 1]
    modifies sim, inter
    ensures Ready(sim, inter) && inter.free == old(inter.free)
    ensures Kept3(old(sim.memory), sim.memory, inter.free, s, c, z)
    ensures var sw, cw, pw := old(sim.memory)[s], old(sim.memory)[c], old(sim.memory)[p];
            && sim.memory[c] == MajW(sw, cw, pw) && sim.memory[s] == DownW(Xor3W(sw, cw, pw))
            && sim.memory[z] == old(sim.memory)[z][k := Xor3W(sw, cw, pw)[0]]
    ensures sim.latency == old(sim.latency) + 21
  {
    var t := inter.Malloc(4);
    SaveShift(sim, s, c, p, z, k, t[0], t[1], t[2], t[3]);
    inter.Free(t);
  }

  /** One round of the multiplier. */
  method MulRound(sim: ParallelSimulator, inter: IntermediateAllocator, xnot: nat, y: nat, z: nat, s: nat, c: nat,
                  k: nat, ghost x: Word)
    requires MulPre(sim, inter, xnot, y, z, s, c) && |inter.free| >= 5 && k < sim.n && |x| == sim.n
    requires sim.memory[xnot] == NotW(x)
    requires MulInv(x, sim.memory[y], sim.memory[z], sim.memory[s], sim.memory[c], k)
    modifies sim, inter
    ensures Ready(sim, inter) && inter.free == old(inter.free)
    ensures Kept3(old(sim.memory), sim.memory, inter.free, s, c, z)
    ensures MulInv(x, sim.memory[y], sim.memory[z], sim.memory[s], sim.memory[c], k + 1)
    ensures sim.latency == old(sim.latency) + 26 + 2 * CeilLog2(sim.n)
  {
    assert !sim.memory[s][sim.n - 1];
    hide MulInv;
    ghost var m := sim.memory;
    var pbit := inter.MallocCell();
    PartialProduct(sim, inter, xnot, y, k, pbit);
    ghost var p := sim.memory[pbit];
    SaveRound(sim, inter, s, c, pbit, z, k);
    MulStep(x, m[y], m[z], m[s], m[c], p, k);
    inter.FreeCell(pbit);
  }

  method MulRounds(sim: ParallelSimulator, inter: IntermediateAllocator, xnot: nat, y: nat, z: nat, s: nat, c: nat,
                   ghost x: Word)
    requires MulPre(sim, inter, xnot, y, z, s, c) && |inter.free| >= 5 && |x| == sim.n && sim.memory[xnot] == NotW(x)
    requires MulInv(x, sim.memory[y], sim.memory[z], sim.memory[s], sim.memory[c], 0)
    modifies sim, inter
    ensures Ready(sim, inter) && inter.free == old(inter.free)
    ensures Kept3(old(sim.memory), sim.memory, inter.free, s, c, z)
    ensures MulInv(x, old(sim.memory)[y], sim.memory[z], sim.memory[s], sim.memory[c], sim.n)
    ensures sim.latency == old(sim.latency) + sim.n * (26 + 2 * CeilLog2(sim.n))
  {
    hide MulInv, Window;
    for k := 0 to sim.n
      invariant MulPre(sim, inter, xnot, y, z, s, c) && inter.free == old(inter.free)
      invariant Kept3(old(sim.memory), sim.memory, inter.free, s, c, z)
      invariant MulInv(x, sim.memory[y], sim.memory[z], sim.memory[s], sim.memory[c], k)
      invariant sim.latency == old(sim.latency) + k * (26 + 2 * CeilLog2(sim.n))
    {
      MulRound(sim, inter, xnot, y, z, s, c, k, x);
    }
  }

  lemma MulBegins(x: Word, y: Word, z: Word, n: nat)
    requires |x| == |y| == |z| == n >= 1
    ensures MulInv(x, y, z, Fill(false, n), Fill(false, n), 0)
  {
    FillNum(false, n, n);
    assert Pow2(0) * 0 == 0;
    assert Num(x) * 0 == 0;
  }

  /** The upper half is the sum S + C, which fits in N bits because the product fits in 2N bits. */
  lemma MulFinishes(x: Word, y: Word, z: Word, s: Word, c: Word, w: nat)
    requires MulInv(x, y, z, s, c, |x|) && w < Pow2(|x|) && (w == Num(s) + Num(c) || w + Pow2(|x|) == Num(s) + Num(c))
    ensures Num(z) + Pow2(|x|) * w == Num(x) * Num(y)
  {
    var n := |x|;
    hide NumN, Pow2;
    assert Num(x) < Pow2(n) && Num(y) < Pow2(n);
    Fits(Num(x), Num(y), Num(z), Pow2(n), Num(s) + Num(c));
  }

  lemma Fits(x: nat, y: nat, z: nat, q: nat, t: nat)
    requires x < q && y < q && x * y == z + q * t
    ensures t < q
  {
    MulMono(x, y, q);
    MulLess(q, x, q);
    if t >= q {
      MulMono(q, q, t);
    }
  }

  /** Initialisation and rounds. */
  method MulPartial(sim: ParallelSimulator, inter: IntermediateAllocator, x: nat, y: nat, z: nat, w: nat, xnot: nat,
                    c: nat)
    requires MulPre(sim, inter, xnot, y, z, w, c) && |inter.free| >= 5 && Live(sim, inter, x) && x != xnot && x != c
    requires y != xnot
    modifies sim, inter
    ensures Ready(sim, inter) && inter.free == old(inter.free)
    ensures Kept4(old(sim.memory), sim.memory, inter.free, z, w, xnot, c)
    ensures MulInv(old(sim.memory)[x], old(sim.memory)[y], sim.memory[z], sim.memory[w], sim.memory[c], sim.n)
    ensures sim.latency == old(sim.latency) + 4 + sim.n * (26 + 2 * CeilLog2(sim.n))
  {
    hide MulInv;
    ghost var m := sim.memory;
    Not(sim, x, xnot);
    Init(sim, false, w);
    Init(sim, false, c);
    MulBegins(m[x], m[y], m[z], sim.n);
    MulRounds(sim, inter, xnot, y, z, w, c, m[x]);
  }

  /** The rounds and the final addition, with the complement of `x` and the carry word given. */
  method MulBody(sim: ParallelSimulator, inter: IntermediateAllocator, x: nat, y: nat, z: nat, w: nat, xnot: nat,
                 c: nat)
    requires MulPre(sim, inter, xnot, y, z, w, c) && |inter.free| >= 7 && Live(sim, inter, x) && x != xnot && x != c
    requires y != xnot
    modifies sim, inter
    ensures Ready(sim, inter) && inter.free == old(inter.free)
    ensures Kept4(old(sim.memory), sim.memory, inter.free, z, w, xnot, c)
    ensures Num(sim.memory[z]) + Pow2(sim.n) * Num(sim.memory[w]) == Num(old(sim.memory)[x]) * Num(old(sim.memory)[y])
    ensures sim.latency == old(sim.latency) + 29 + 14 * CeilLog2(sim.n) + sim.n * (26 + 2 * CeilLog2(sim.n))
  {
    hide MulInv, Num, NumN, Pow2;
    ghost var m := sim.memory;
    MulPartial(sim, inter, x, y, z, w, xnot, c);
    ghost var m1 := sim.memory;
    FixedAddition(sim, inter, c, w, w, NoCarry, NoOutput);
    MulFinishes(m[x], m[y], m1[z], m1[w], m1[c], Num(sim.memory[w]));
  }

  /** fixedMultiplication: `w` and `z` become the upper and lower half of the exact product, for every N >= 3. */
  method FixedMultiplication(sim: ParallelSimulator, inter: IntermediateAllocator, x: nat, y: nat, z: nat, w: nat)
    requires Ready(sim, inter) && |inter.free| >= 9 && Live(sim, inter, x) && Live(sim, inter, y)
    requires Live(sim, inter, z) && Live(sim, inter, w)
    requires y != z && y != w && z != w
    modifies sim, inter
    ensures Ready(sim, inter) && inter.free == old(inter.free) && Kept2(old(sim.memory), sim.memory, inter.free, z, w)
    ensures Num(sim.memory[z]) + Pow2(sim.n) * Num(sim.memory[w]) == Num(old(sim.memory)[x]) * Num(old(sim.memory)[y])
    ensures sim.latency == old(sim.latency) + 29 + 14 * CeilLog2(sim.n) + sim.n * (26 + 2 * CeilLog2(sim.n))
  {
    hide Num, Pow2;
    var xnot, c := inter.Malloc2();
    MulBody(sim, inter, x, y, z, w, xnot, c);
    inter.Free2(xnot, c);
  }
}
