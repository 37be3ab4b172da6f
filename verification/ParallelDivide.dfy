/** fixedDivision of parallel/AritPIM.py: carry-save non-restoring division with one bit in each partition. */
module ParallelDivide {
  import opened Numbers
  import opened Simulator
  import opened Allocator
  import opened Words
  import opened ParallelSim
  import opened ParallelGates
  import opened Prefix
  import opened ParallelAdd
  import opened CarrySave
  import opened ParallelMultiply
  import opened DivideSteps

  lemma LevelZero(ng: Word, np: Word, pb: Word, x: Word, y: Word)
    requires |ng| == |np| == |pb| == |x| == |y| && np == NorW(x, y) && pb == NotW(np) && ng == NandW(x, y)
    ensures TopInv(ng, np, pb, GenWord(x, y, false), PropWord(x, y), 0)
  {
    TopBegins(ng, np, pb, GenWord(x, y, false), PropWord(x, y));
  }

  /** The reduction towards the top partition. */
  method Reduce(sim: ParallelSimulator, pb: nat, np: nat, ng: nat, ghost g: Word, ghost p: Word)
    requires Three(sim, pb, np, ng) && sim.n >= 3 && |g| == |p| == sim.n
    requires TopInv(sim.memory[ng], sim.memory[np], sim.memory[pb], g, p, 0)
    modifies sim
    ensures Three(sim, pb, np, ng) && |sim.memory| == |old(sim.memory)|
    ensures forall a {:trigger sim.memory[a]} | 0 <= a < |sim.memory| && a != pb && a != np && a != ng ::
              sim.memory[a] == old(sim.memory)[a]
    ensures sim.memory[ng][sim.n - 1] == !Gen(g, p, 0, sim.n - 1)
    ensures sim.latency == old(sim.latency) + 7 * CeilLog2(sim.n)
  {
    var l := CeilLog2(sim.n);
    for i := 0 to l
      invariant Three(sim, pb, np, ng) && |sim.memory| == |old(sim.memory)|
      invariant forall a {:trigger sim.memory[a]} | 0 <= a < |sim.memory| && a != pb && a != np && a != ng ::
                sim.memory[a] == old(sim.memory)[a]
      invariant TopInv(sim.memory[ng], sim.memory[np], sim.memory[pb], g, p, i)
      invariant sim.latency == old(sim.latency) + 7 * i
    {
      hide TopInv, Combined;
      Pow2Mono(i, l - 1);
      ghost var m := sim.memory;
      Combine(sim, pb, np, ng, TopBase(sim.n, Pow2(i)), Pow2(i));
      TopStep(m[ng], m[np], m[pb], sim.memory[ng], sim.memory[np], sim.memory[pb], g, p, i);
    }
    TopDone(sim.memory[ng], sim.memory[np], sim.memory[pb], g, p, l);
  }

  /** Carry lookahead of S + C: its carry out, complemented, in the top partition of `ng`. */
  method LookaheadCells(sim: ParallelSimulator, inter: IntermediateAllocator, s: nat, c: nat, pb: nat, np: nat, ng: nat)
    requires Ready(sim, inter) && |inter.free| >= 2 && Live(sim, inter, s) && Live(sim, inter, c) && s != c
    requires Live(sim, inter, pb) && Live(sim, inter, np) && Live(sim, inter, ng) && pb != np && pb != ng && np != ng
    requires s != pb && s != np && s != ng && c != pb && c != np && c != ng
    modifies sim, inter
    ensures Ready(sim, inter) && inter.free == old(inter.free)
    ensures Kept3(old(sim.memory), sim.memory, inter.free, pb, np, ng)
    ensures sim.memory[ng][sim.n - 1] == !CarryInto(old(sim.memory)[s], old(sim.memory)[c], false, sim.n)
    ensures sim.latency == old(sim.latency) + 12 + 7 * CeilLog2(sim.n)
  {
    hide TopInv, CarryInto;
    ghost var m := sim.memory;
    OrAndNot(sim, s, c, pb, np);
    Nand(sim, inter, s, c, ng);
    ghost var g, p := GenWord(m[s], m[c], false), PropWord(m[s], m[c]);
    LevelZero(sim.memory[ng], sim.memory[np], sim.memory[pb], m[s], m[c]);
    Reduce(sim, pb, np, ng, g, p);
    GenIsCarry(m[s], m[c], false, g, p, sim.n - 1);
  }

  method Lookahead(sim: ParallelSimulator, inter: IntermediateAllocator, s: nat, c: nat, ng: nat)
    requires Ready(sim, inter) && |inter.free| >= 4 && Live(sim, inter, s) && Live(sim, inter, c)
    requires Live(sim, inter, ng)
    requires s != c && s != ng && c != ng
    modifies sim, inter
    ensures Ready(sim, inter) && inter.free == old(inter.free) && Kept1(old(sim.memory), sim.memory, inter.free, ng)
    ensures sim.memory[ng][sim.n - 1] == !CarryInto(old(sim.memory)[s], old(sim.memory)[c], false, sim.n)
    ensures sim.latency == old(sim.latency) + 12 + 7 * CeilLog2(sim.n)
  {
    hide CarryInto;
    var pb, np := inter.Malloc2();
    LookaheadCells(sim, inter, s, c, pb, np, ng);
    inter.Free2(pb, np);
  }

  /** Full adder over sum, carry and divisor words; the carries move up, the one that leaves goes to `partial`. */
  method SaveDivide(sim: ParallelSimulator, s: nat, c: nat, x: nat, partial: nat, t0: nat, t1: nat, t2: nat, t3: nat)
    requires Temps(sim, s, c, x, t0, t1, t2, t3) && sim.n >= 3 && partial < |sim.memory|
    requires partial != s && partial != c && partial != x && partial != t0 && partial != t1 && partial != t2
    requires partial != t3
    modifies sim
    ensures sim.Valid() && |sim.memory| == |old(sim.memory)|
    ensures forall a {:trigger sim.memory[a]} | 0 <= a < |sim.memory| && a != s && a != c && a != partial && a != t0 &&
            a != t1 && a != t2 && a != t3 ::
              sim.memory[a] == old(sim.memory)[a]
    ensures var sw, cw, xw := old(sim.memory)[s], old(sim.memory)[c], old(sim.memory)[x];
            && sim.memory[s] == Xor3W(sw, cw, xw) && sim.memory[c] == UpW(MajW(sw, cw, xw), false)
            && sim.memory[partial][sim.n - 1] == MajW(sw, cw, xw)[sim.n - 1]
    ensures sim.latency == old(sim.latency) + 22
  {
    ghost var m := sim.memory;
    ghost var maj := MajW(m[s], m[c], m[x]);
    SaveCarry(sim, s, c, x, t0, t1, t2, t3);
    ghost var m1 := sim.memory;
    assert forall j | 0 <= j < sim.n :: NorW(m1[t0], m1[t1])[j] == maj[j];
    MoveCarries(sim, c, partial, t0, t1, maj);
    SaveSum(sim, x, t0, t1, t2, t3, m[s], m[c]);
    Nor(sim, t0, t2, s);
  }

  method MoveCarries(sim: ParallelSimulator, c: nat, partial: nat, t0: nat, t1: nat, ghost maj: Word)
    requires sim.Valid() && sim.n >= 3 && c < |sim.memory| && partial < |sim.memory| && t0 < |sim.memory|
    requires t1 < |sim.memory|
    requires c != partial && c != t0 && c != t1 && partial != t0 && partial != t1 && t0 != t1
    requires |maj| == sim.n && NorW(sim.memory[t0], sim.memory[t1]) == maj
    modifies sim
    ensures sim.Valid() && |sim.memory| == |old(sim.memory)|
    ensures forall a {:trigger sim.memory[a]} | 0 <= a < |sim.memory| && a != c && a != partial ::
              sim.memory[a] == old(sim.memory)[a]
    ensures sim.memory[c] == UpW(maj, false) && sim.memory[partial][sim.n - 1] == maj[sim.n - 1]
    ensures sim.latency == old(sim.latency) + 6
  {
    ghost var m := sim.memory;
    assert forall j | 0 <= j < sim.n :: NorW(m[t0], m[t1])[j] == maj[j];
    InitSpan(sim, true, c, 1, sim.n);
    InitAt(sim, false, c, 0);
    InitAt(sim, true, partial, sim.n - 1);
    NorAt(sim, t0, t1, sim.n - 1, partial, sim.n - 1);
    NorShiftUp(sim, t0, t1, c);
    assert sim.memory[c] == UpW(maj, false);
  }

  /** The complement of the top bit of `lo` into the third partition from the top of `x`, the second set to one. */
  method GatherLow(sim: ParallelSimulator, lo: nat, x: nat)
    requires sim.Valid() && sim.n >= 3 && lo < |sim.memory| && x < |sim.memory| && x != lo
    modifies sim
    ensures sim.Valid() && Only(old(sim.memory), sim.memory, x)
    ensures var n, m := sim.n, old(sim.memory);
            sim.memory[x][n - 1] == m[x][n - 1] && sim.memory[x][n - 2] && sim.memory[x][n - 3] == !m[lo][n - 1]
    ensures sim.latency == old(sim.latency) + 2
  {
    hide Window;
    InitSpan(sim, true, x, sim.n - 3, sim.n - 1);
    NotAt(sim, lo, sim.n - 1, x, sim.n - 3);
  }

  /** The three pairs of bits that the quotient bit and the next top bit depend on, side by side in the three top
      partitions of `xa` (which holds the separate top bit) and `xb` (which holds the previous quotient bit). */
  method GatherTop(sim: ParallelSimulator, s: nat, c: nat, ng: nat, partial: nat, xa: nat, xb: nat)
    requires sim.Valid() && sim.n >= 3 && s < |sim.memory| && c < |sim.memory| && ng < |sim.memory|
    requires partial < |sim.memory|
    requires xa < |sim.memory| && xb < |sim.memory| && xa != xb && xa != s && xa != c && xa != ng && xa != partial
    requires xb != s && xb != c && xb != ng && xb != partial
    modifies sim
    ensures sim.Valid() && |sim.memory| == |old(sim.memory)|
    ensures forall a {:trigger sim.memory[a]} | 0 <= a < |sim.memory| && a != xa && a != xb ::
              sim.memory[a] == old(sim.memory)[a]
    ensures var n, m := sim.n, old(sim.memory);
            && sim.memory[xa][n - 1] == m[xa][n - 1] && sim.memory[xb][n - 1] == m[xb][n - 1]
            && sim.memory[xa][n - 2] == !m[s][n - 1] && sim.memory[xb][n - 2] == !m[c][n - 1]
            && sim.memory[xa][n - 3] == !m[ng][n - 1] && sim.memory[xb][n - 3] == !m[partial][n - 1]
    ensures sim.latency == old(sim.latency) + 6
  {
    hide Window;
    var n := sim.n;
    GatherLow(sim, ng, xa);
    GatherLow(sim, partial, xb);
    NotAt(sim, s, n - 1, xa, n - 2);
    NotAt(sim, c, n - 1, xb, n - 2);
  }

  /** INIT1 and NOR within one partition. */
  method NorBit(sim: ParallelSimulator, a: nat, b: nat, o: nat, p: nat)
    requires sim.Valid() && a < |sim.memory| && b < |sim.memory| && o < |sim.memory| && p < sim.n && a != o && b != o
    requires a != b
    modifies sim
    ensures sim.Valid() && Only(old(sim.memory), sim.memory, o)
    ensures sim.memory[o][p] == !(old(sim.memory)[a][p] || old(sim.memory)[b][p])
    ensures sim.latency == old(sim.latency) + 2
  {
    InitAt(sim, true, o, p);
    NorAt(sim, a, b, p, o, p);
  }

  /** The gates of an XNOR in the top partition, written to partition `j` of `q` over a one. */
  method WriteGates(sim: ParallelSimulator, xa: nat, xb: nat, q: nat, j: nat, t0: nat, t1: nat, t2: nat)
    requires sim.Valid() && j < sim.n && xa < |sim.memory| && xb < |sim.memory| && q < |sim.memory| && xa != xb
    requires q != xa && q != xb
    requires t0 < |sim.memory| && t1 < |sim.memory| && t2 < |sim.memory| && t0 != t1 && t0 != t2 && t1 != t2
    requires sim.memory[q][j]
    requires t0 != xa && t0 != xb && t0 != q && t1 != xa && t1 != xb && t1 != q && t2 != xa && t2 != xb && t2 != q
    modifies sim
    ensures sim.Valid() && Kept1(old(sim.memory), sim.memory, {t0, t1, t2}, q)
    ensures sim.memory[q] == old(sim.memory)[q][j := old(sim.memory)[xa][sim.n - 1] == old(sim.memory)[xb][sim.n - 1]]
    ensures sim.latency == old(sim.latency) + 7
  {
    hide Window;
    var l := sim.n - 1;
    NorBit(sim, xa, xb, t0, l);
    NorBit(sim, xa, t0, t1, l);
    NorBit(sim, xb, t0, t2, l);
    NorAt(sim, t1, t2, l, q, j);
  }

  /** The quotient bit from the XNORs in the top partitions, written (by X-MAGIC over a 1) to partition `j` of `q`. */
  method WriteBit(sim: ParallelSimulator, inter: IntermediateAllocator, xa: nat, xb: nat, q: nat, j: nat)
    requires Ready(sim, inter) && |inter.free| >= 3 && Live(sim, inter, xa) && Live(sim, inter, xb)
    requires Live(sim, inter, q)
    requires xa != xb && q != xa && q != xb && j < sim.n && sim.memory[q][j]
    modifies sim, inter
    ensures Ready(sim, inter) && inter.free == old(inter.free) && Kept1(old(sim.memory), sim.memory, inter.free, q)
    ensures sim.memory[q] == old(sim.memory)[q][j := old(sim.memory)[xa][sim.n - 1] == old(sim.memory)[xb][sim.n - 1]]
    ensures sim.latency == old(sim.latency) + 7
  {
    hide Window, Tracks;
    var t0, t1, t2 := inter.Malloc3();
    WriteGates(sim, xa, xb, q, j, t0, t1, t2);
    inter.Free3(t0, t1, t2);
  }

  /** One bit of `xb` complemented into the top partition of `xa`. */
  method CopyTop(sim: ParallelSimulator, xb: nat, p: nat, xa: nat)
    requires sim.Valid() && xa < |sim.memory| && xb < |sim.memory| && xa != xb && p < sim.n
    modifies sim
    ensures sim.Valid()
    ensures sim.memory == old(sim.memory)[xa := old(sim.memory)[xa][sim.n - 1 := !old(sim.memory)[xb][p]]]
    ensures sim.latency == old(sim.latency) + 2
  {
    hide Window;
    InitAt(sim, true, xa, sim.n - 1);
    NotAt(sim, xb, p, xa, sim.n - 1);
    assert sim.memory[xa] == old(sim.memory)[xa][sim.n - 1 := !old(sim.memory)[xb][p]];
  }

  /** The three aligned XNORs, and the first of them moved to the top of `xa`. */
  method AlignedXnors(sim: ParallelSimulator, inter: IntermediateAllocator, s: nat, c: nat, ng: nat, partial: nat,
                      xa: nat, xb: nat)
    requires Ready(sim, inter) && |inter.free| >= 3
    requires Live(sim, inter, s) && Live(sim, inter, c) && Live(sim, inter, ng) && Live(sim, inter, partial)
    requires Live(sim, inter, xa) && Live(sim, inter, xb)
    requires xa != xb && xa != s && xa != c && xa != ng && xa != partial && xb != s && xb != c && xb != ng
    requires xb != partial
    modifies sim, inter
    ensures Ready(sim, inter) && inter.free == old(inter.free) && Kept2(old(sim.memory), sim.memory, inter.free, xa, xb)
    ensures var n, m := sim.n, old(sim.memory);
            && sim.memory[xa][n - 1] == (!m[ng][n - 1] == m[partial][n - 1])
            && sim.memory[xb][n - 1] == (m[xa][n - 1] == m[xb][n - 1])
            && sim.memory[xb][n - 2] == (m[s][n - 1] == m[c][n - 1])
    ensures sim.latency == old(sim.latency) + 16
  {
    hide Window, Tracks;
    GatherTop(sim, s, c, ng, partial, xa, xb);
    XnorSpan(sim, inter, xa, xb, xb, sim.n - 3, sim.n);
    CopyTop(sim, xb, sim.n - 3, xa);
  }

  /** The quotient bit, NOT of the XOR of lookahead carry, full-adder carry, separate top bit and previous quotient bit,
      and the next separate top bit. */
  method QuotientBit(sim: ParallelSimulator, inter: IntermediateAllocator, s: nat, c: nat, ng: nat, partial: nat,
                     xa: nat, xb: nat, q: nat, j: nat)
    requires Ready(sim, inter) && |inter.free| >= 3 && j < sim.n
    requires Live(sim, inter, s) && Live(sim, inter, c) && Live(sim, inter, ng) && Live(sim, inter, partial)
    requires Live(sim, inter, xa) && Live(sim, inter, xb) && Live(sim, inter, q) && sim.memory[q][j]
    requires xa != xb && xa != s && xa != c && xa != ng && xa != partial && xb != s && xb != c && xb != ng
    requires xb != partial && q != xa && q != xb
    modifies sim, inter
    ensures Ready(sim, inter) && inter.free == old(inter.free)
    ensures Kept3(old(sim.memory), sim.memory, inter.free, xa, xb, q)
    ensures var n, m := sim.n, old(sim.memory);
            && sim.memory[xa][n - 1] == (m[s][n - 1] != m[c][n - 1])
            && (q != s && q != c && q != ng && q != partial ==>
                  sim.memory[q] == m[q][j := NotXor(!m[ng][n - 1], m[partial][n - 1], m[xa][n - 1], m[xb][n - 1])])
    ensures sim.latency == old(sim.latency) + 25
  {
    hide Window, Tracks;
    AlignedXnors(sim, inter, s, c, ng, partial, xa, xb);
    WriteBit(sim, inter, xa, xb, q, j);
    CopyTop(sim, xb, sim.n - 2, xa);
  }

  /** The previous quotient bit into `qtag` and the low partition of `c`, and from there to all partitions. */
  method SpreadBit(sim: ParallelSimulator, q: nat, c: nat, qtag: nat, nq: nat, j: nat)
    requires sim.Valid() && sim.n >= 3 && j < sim.n && q < |sim.memory| && c < |sim.memory| && qtag < |sim.memory|
    requires nq < |sim.memory|
    requires q != c && q != qtag && q != nq && c != qtag && c != nq && qtag != nq && sim.memory[c][0]
    requires sim.memory[qtag] == Fill(true, sim.n)
    modifies sim
    ensures sim.Valid() && |sim.memory| == |old(sim.memory)|
    ensures forall a {:trigger sim.memory[a]} | 0 <= a < |sim.memory| && a != qtag && a != nq && a != c ::
              sim.memory[a] == old(sim.memory)[a]
    ensures var b := old(sim.memory)[q][j];
            && sim.memory[qtag] == Fill(b, sim.n) && sim.memory[c] == old(sim.memory)[c][0 := b]
            && sim.memory[nq] == NotW(sim.memory[qtag])
    ensures sim.latency == old(sim.latency) + 4 + 2 * CeilLog2(sim.n)
  {
    hide Window;
    ghost var b := sim.memory[q][j];
    Init(sim, true, nq);
    NotAt(sim, q, j, nq, 0);
    NotAt(sim, nq, 0, qtag, 0);
    NotAt(sim, nq, 0, c, 0);
    Broadcast(sim, qtag, nq, b);
    assert sim.memory[nq] == NotW(Fill(b, sim.n));
  }

  /** The previous quotient bit (1 at the start) in all partitions of `qtag`, its complement in `nq`, and the bit itself
      as carry in. */
  method SpreadQuotient(sim: ParallelSimulator, q: nat, c: nat, qtag: nat, nq: nat, j: nat)
    requires sim.Valid() && sim.n >= 3 && j < sim.n && q < |sim.memory| && c < |sim.memory| && qtag < |sim.memory|
    requires nq < |sim.memory|
    requires q != c && q != qtag && q != nq && c != qtag && c != nq && qtag != nq
    requires (j + 1 < sim.n ==> sim.memory[c][0])
    modifies sim
    ensures sim.Valid() && |sim.memory| == |old(sim.memory)|
    ensures forall a {:trigger sim.memory[a]} | 0 <= a < |sim.memory| && a != qtag && a != nq && a != c ::
              sim.memory[a] == old(sim.memory)[a]
    ensures var b := Subtracts(old(sim.memory)[q], j);
            && sim.memory[qtag] == Fill(b, sim.n) && sim.memory[nq] == NotW(sim.memory[qtag])
            && sim.memory[c] == old(sim.memory)[c][0 := b]
    ensures sim.latency == old(sim.latency) + if j + 1 < sim.n then 5 + 2 * CeilLog2(sim.n) else 3
  {
    hide Window;
    Init(sim, true, qtag);
    if j + 1 < sim.n {
      SpreadBit(sim, q, c, qtag, nq, j + 1);
    } else {
      Init(sim, false, nq);
      InitAt(sim, true, c, 0);
      assert sim.memory[nq] == NotW(Fill(true, sim.n));
    }
  }

  /** Full adder with the divisor, complemented when the step subtracts; `x` first holds the complement of `qtag`. */
  method AddDivisor(sim: ParallelSimulator, inter: IntermediateAllocator, s: nat, c: nat, d: nat, qtag: nat, x: nat,
                    partial: nat)
    requires Ready(sim, inter) && |inter.free| >= 4 && Live(sim, inter, s) && Live(sim, inter, c) && Live(sim, inter, d)
    requires Live(sim, inter, qtag) && Live(sim, inter, x) && Live(sim, inter, partial)
    requires s != c && s != x && c != x && partial != s && partial != c && partial != x && qtag != d && x != d
    requires x != qtag
    requires s != qtag && s != d && c != qtag && c != d && partial != qtag && partial != d
    requires sim.memory[x] == NotW(sim.memory[qtag])
    modifies sim, inter
    ensures Ready(sim, inter) && inter.free == old(inter.free)
    ensures Kept4(old(sim.memory), sim.memory, inter.free, s, c, x, partial)
    ensures var sw, cw, xw := old(sim.memory)[s], old(sim.memory)[c], XorW(old(sim.memory)[qtag], old(sim.memory)[d]);
            && sim.memory[s] == Xor3W(sw, cw, xw) && sim.memory[c] == UpW(MajW(sw, cw, xw), false)
            && sim.memory[partial][sim.n - 1] == MajW(sw, cw, xw)[sim.n - 1]
    ensures sim.latency == old(sim.latency) + 30
  {
    XorGiven(sim, inter, qtag, d, x, x);
    var t := inter.Malloc(4);
    SaveDivide(sim, s, c, x, partial, t[0], t[1], t[2], t[3]);
    inter.Free(t);
  }

  /** The words of a division apart from scratch. */
  ghost predicate DivWords(sim: ParallelSimulator, inter: IntermediateAllocator, d: nat, q: nat, s: nat, c: nat,
                           prev: nat)
    reads sim, inter
  {
    && Ready(sim, inter) && Live(sim, inter, d) && Live(sim, inter, q) && Live(sim, inter, s) && Live(sim, inter, c)
    && Live(sim, inter, prev)
    && d != q && d != s && d != c && d != prev && q != s && q != c && q != prev && s != c && s != prev && c != prev
  }

  /** The quotient tag and its complement, apart from the words of the division; first fit would return `nq` next. */
  ghost predicate TagCells(sim: ParallelSimulator, inter: IntermediateAllocator, d: nat, q: nat, s: nat, c: nat,
                           prev: nat, qtag: nat, nq: nat)
    reads sim, inter
  {
    && Live(sim, inter, qtag) && Live(sim, inter, nq) && qtag != nq
    && Pooled(inter.cells, nq) && Settled(inter.cells, inter.used, nq)
    && qtag != d && qtag != q && qtag != s && qtag != c && qtag != prev
    && nq != d && nq != q && nq != s && nq != c && nq != prev
  }

  /** Addition or subtraction of the divisor, with the scratch words given. */
  method DivideAdd(sim: ParallelSimulator, inter: IntermediateAllocator, d: nat, q: nat, s: nat, c: nat, prev: nat,
                   j: nat, qtag: nat, nq: nat)
    returns (x: nat, partial: nat)
    requires DivWords(sim, inter, d, q, s, c, prev) && |inter.free| >= 5 && j < sim.n
    requires (j + 1 < sim.n ==> sim.memory[c][0])
    requires TagCells(sim, inter, d, q, s, c, prev, qtag, nq)
    modifies sim, inter
    ensures Ready(sim, inter) && x == nq && partial in old(inter.free) && Pooled(inter.cells, partial)
    ensures inter.free == old(inter.free) - {partial}
    ensures Kept4(old(sim.memory), sim.memory, old(inter.free), s, c, qtag, nq)
    ensures var sw, cw, dw := old(sim.memory)[s], old(sim.memory)[c], old(sim.memory)[d];
            var b := Subtracts(old(sim.memory)[q], j);
            && sim.memory[s] == StepSum(sw, cw, dw, b) && sim.memory[c] == UpW(StepMaj(sw, cw, dw, b), false)
            && sim.memory[partial][sim.n - 1] == StepMaj(sw, cw, dw, b)[sim.n - 1] && sim.memory[qtag] == Fill(b, sim.n)
    ensures sim.latency == old(sim.latency) + if j + 1 < sim.n then 35 + 2 * CeilLog2(sim.n) else 33
  {
    SpreadQuotient(sim, q, c, qtag, nq, j);
    x := inter.Recycle(nq);
    partial := inter.MallocCell();
    AddDivisor(sim, inter, s, c, d, qtag, x, partial);
  }

  /** `DivideAdd`, after which the divisor word is free again. */
  method DivideFirst(sim: ParallelSimulator, inter: IntermediateAllocator, d: nat, q: nat, s: nat, c: nat, prev: nat,
                     j: nat, qtag: nat, nq: nat)
    returns (partial: nat)
    requires DivWords(sim, inter, d, q, s, c, prev) && |inter.free| >= 6 && j < sim.n
    requires (j + 1 < sim.n ==> sim.memory[c][0])
    requires TagCells(sim, inter, d, q, s, c, prev, qtag, nq)
    modifies sim, inter
    ensures DivWords(sim, inter, d, q, s, c, prev) && partial in old(inter.free) && Pooled(inter.cells, partial)
    ensures |inter.free| >= 5
    ensures inter.free == old(inter.free) + {nq} - {partial}
    ensures |sim.memory| == |old(sim.memory)| && Kept3(old(sim.memory), sim.memory, old(inter.free) + {nq}, s, c, qtag)
    ensures sim.memory[q] == old(sim.memory)[q] && sim.memory[prev] == old(sim.memory)[prev]
    ensures sim.memory[d] == old(sim.memory)[d]
    ensures var sw, cw, dw := old(sim.memory)[s], old(sim.memory)[c], old(sim.memory)[d];
            var b := Subtracts(old(sim.memory)[q], j);
            && sim.memory[s] == StepSum(sw, cw, dw, b) && sim.memory[c] == UpW(StepMaj(sw, cw, dw, b), false)
            && sim.memory[partial][sim.n - 1] == StepMaj(sw, cw, dw, b)[sim.n - 1] && sim.memory[qtag] == Fill(b, sim.n)
    ensures sim.latency == old(sim.latency) + if j + 1 < sim.n then 35 + 2 * CeilLog2(sim.n) else 33
  {
    hide StepSum, StepMaj, Window;
    var x: nat;
    x, partial := DivideAdd(sim, inter, d, q, s, c, prev, j, qtag, nq);
    inter.FreeCell(x);
    SubsetSize(old(inter.free) - {partial}, inter.free);
  }

  /** The quotient bit and the next top bit, with the lookahead word allocated around them. */
  method DivideSign(sim: ParallelSimulator, inter: IntermediateAllocator, q: nat, s: nat, c: nat, prev: nat, j: nat,
                    qtag: nat, partial: nat)
    requires Ready(sim, inter) && |inter.free| >= 5 && j < sim.n
    requires Live(sim, inter, s) && Live(sim, inter, c) && Live(sim, inter, partial) && Live(sim, inter, prev)
    requires Live(sim, inter, qtag) && Live(sim, inter, q)
    requires prev != qtag && prev != s && prev != c && prev != partial && qtag != s && qtag != c && qtag != partial
    requires q != prev && q != qtag && q != s && q != c && q != partial && s != c && sim.memory[q][j]
    modifies sim, inter
    ensures Ready(sim, inter) && inter.free == old(inter.free)
    ensures Kept3(old(sim.memory), sim.memory, inter.free, prev, qtag, q)
    ensures var n, m := sim.n, old(sim.memory);
            && sim.memory[prev][n - 1] == (m[s][n - 1] != m[c][n - 1])
            && sim.memory[q] == m[q][j := NotXor(CarryInto(m[s], m[c], false, n), m[partial][n - 1], m[prev][n - 1],
                                                 m[qtag][n - 1])]
    ensures sim.latency == old(sim.latency) + 37 + 7 * CeilLog2(sim.n)
  {
    hide CarryInto, NotXor;
    var ng := inter.MallocCell();
    Lookahead(sim, inter, s, c, ng);
    QuotientBit(sim, inter, s, c, ng, partial, prev, qtag, q, j);
    inter.FreeCell(ng);
  }

  /** The quotient bit after the addition: `sw` and `cw` are the words it started from. */
  method DivideLast(sim: ParallelSimulator, inter: IntermediateAllocator, d: nat, q: nat, s: nat, c: nat, prev: nat,
                    j: nat, qtag: nat, partial: nat, ghost w: Word, ghost z: Word, ghost sw: Word, ghost cw: Word)
    requires DivWords(sim, inter, d, q, s, c, prev) && |inter.free| >= 5 && j < sim.n && |sw| == |cw| == sim.n
    requires Live(sim, inter, qtag) && Live(sim, inter, partial) && qtag != partial && sim.memory[q][j]
    requires qtag != d && qtag != q && qtag != s && qtag != c && qtag != prev
    requires partial != d && partial != q && partial != s && partial != c && partial != prev
    requires DivInv(w, z, sim.memory[d], sim.memory[q], sw, cw, sim.memory[prev][sim.n - 1], j)
    requires var dw, b := sim.memory[d], Subtracts(sim.memory[q], j);
             && sim.memory[s] == StepSum(sw, cw, dw, b) && sim.memory[c] == UpW(StepMaj(sw, cw, dw, b), false)
             && sim.memory[partial][sim.n - 1] == StepMaj(sw, cw, dw, b)[sim.n - 1]
             && sim.memory[qtag] == Fill(b, sim.n)
    modifies sim, inter
    ensures Ready(sim, inter) && inter.free == old(inter.free)
    ensures Kept3(old(sim.memory), sim.memory, inter.free, prev, qtag, q)
    ensures DivDone(w, z, sim.memory[d], sim.memory[q], sim.memory[s], sim.memory[c], j)
    ensures sim.memory[prev][sim.n - 1] == (sim.memory[s][sim.n - 1] != sim.memory[c][sim.n - 1]) && !sim.memory[c][0]
    ensures sim.latency == old(sim.latency) + 37 + 7 * CeilLog2(sim.n)
  {
    hide DivInv, DivDone, CarryInto, StepSum, StepMaj, NotXor, Subtracts;
    ghost var m := sim.memory;
    DivideSign(sim, inter, q, s, c, prev, j, qtag, partial);
    InvDone(w, z, m[d], m[q], sw, cw, m[prev][sim.n - 1], j, sim.memory[q][j]);
  }

  /** The step for quotient bit `j`. */
  method DivideBit(sim: ParallelSimulator, inter: IntermediateAllocator, d: nat, q: nat, s: nat, c: nat, prev: nat,
                   j: nat, qtag: nat, nq: nat, ghost w: Word, ghost z: Word)
    requires DivWords(sim, inter, d, q, s, c, prev) && |inter.free| >= 6 && j < sim.n
    requires (j + 1 < sim.n ==> sim.memory[c][0])
    requires TagCells(sim, inter, d, q, s, c, prev, qtag, nq)
    requires DivInv(w, z, sim.memory[d], sim.memory[q], sim.memory[s], sim.memory[c], sim.memory[prev][sim.n - 1], j)
    modifies sim, inter
    ensures Ready(sim, inter) && inter.free == old(inter.free) + {nq}
    ensures Kept5(old(sim.memory), sim.memory, inter.free, s, c, q, prev, qtag)
    ensures DivDone(w, z, sim.memory[d], sim.memory[q], sim.memory[s], sim.memory[c], j)
    ensures sim.memory[prev][sim.n - 1] == (sim.memory[s][sim.n - 1] != sim.memory[c][sim.n - 1]) && !sim.memory[c][0]
    ensures sim.latency == old(sim.latency) + 7 * CeilLog2(sim.n) +
              if j + 1 < sim.n then 72 + 2 * CeilLog2(sim.n) else 70
  {
    assert sim.memory[q][j];
    hide DivInv, DivDone, StepSum, StepMaj, Subtracts;
    ghost var sw, cw := sim.memory[s], sim.memory[c];
    var partial := DivideFirst(sim, inter, d, q, s, c, prev, j, qtag, nq);
    DivideLast(sim, inter, d, q, s, c, prev, j, qtag, partial, w, z, sw, cw);
    inter.FreeCell(partial);
  }

  /** The carries one partition up, with a 1 at the bottom for the next carry in. */
  method MoveCarryUp(sim: ParallelSimulator, c: nat, temp: nat)
    requires sim.Valid() && sim.n >= 3 && c < |sim.memory| && temp < |sim.memory| && c != temp
    modifies sim
    ensures sim.Valid() && |sim.memory| == |old(sim.memory)|
    ensures forall a {:trigger sim.memory[a]} | 0 <= a < |sim.memory| && a != c && a != temp ::
              sim.memory[a] == old(sim.memory)[a]
    ensures sim.memory[c] == UpW(old(sim.memory)[c], true)
    ensures sim.latency == old(sim.latency) + 5
  {
    Init(sim, true, temp);
    NotShiftUp(sim, c, temp);
    Init(sim, true, c);
    NotSpan(sim, temp, c, 1, sim.n);
    assert sim.memory[c] == UpW(old(sim.memory)[c], true);
  }

  /** The sums one partition up, with bit `k` of the dividend at the bottom. */
  method MoveSumUp(sim: ParallelSimulator, s: nat, z: nat, k: nat, temp: nat)
    requires sim.Valid() && sim.n >= 3 && k < sim.n && s < |sim.memory| && z < |sim.memory| && temp < |sim.memory|
    requires s != temp && z != temp && z != s
    modifies sim
    ensures sim.Valid() && |sim.memory| == |old(sim.memory)|
    ensures forall a {:trigger sim.memory[a]} | 0 <= a < |sim.memory| && a != s && a != temp ::
              sim.memory[a] == old(sim.memory)[a]
    ensures sim.memory[s] == UpW(old(sim.memory)[s], old(sim.memory)[z][k])
    ensures sim.latency == old(sim.latency) + 6
  {
    Init(sim, true, temp);
    NotShiftUp(sim, s, temp);
    NotAt(sim, z, k, temp, 0);
    Init(sim, true, s);
    NotInto(sim, temp, s);
    assert sim.memory[s] == UpW(old(sim.memory)[s], old(sim.memory)[z][k]);
  }

  /** Both words one partition up for the next step. */
  method MoveUp(sim: ParallelSimulator, inter: IntermediateAllocator, s: nat, c: nat, z: nat, k: nat)
    requires Ready(sim, inter) && |inter.free| >= 1 && Live(sim, inter, s) && Live(sim, inter, c) && Live(sim, inter, z)
    requires s != c && z != s && z != c && k < sim.n
    modifies sim, inter
    ensures Ready(sim, inter) && inter.free == old(inter.free) && Kept2(old(sim.memory), sim.memory, inter.free, s, c)
    ensures sim.memory[c] == UpW(old(sim.memory)[c], true)
    ensures sim.memory[s] == UpW(old(sim.memory)[s], old(sim.memory)[z][k])
    ensures sim.latency == old(sim.latency) + 11
  {
    var temp := inter.MallocCell();
    MoveCarryUp(sim, c, temp);
    MoveSumUp(sim, s, z, k, temp);
    inter.FreeCell(temp);
  }

  lemma UpLow(c: Word)
    requires |c| >= 1
    ensures UpW(c, true)[0 := false] == UpW(c, false)
  {
  }

  /** Cycles of the step for quotient bit `j`. */
  function BitCycles(n: nat, j: nat): nat
    requires n >= 1
  {
    7 * CeilLog2(n) + if j + 1 < n then 72 + 2 * CeilLog2(n) else 70
  }

  /** The scratch words for the broadcast around `DivideBit`. */
  method DivideRound(sim: ParallelSimulator, inter: IntermediateAllocator, d: nat, q: nat, s: nat, c: nat, prev: nat,
                     j: nat, ghost w: Word, ghost z: Word)
    requires DivWords(sim, inter, d, q, s, c, prev) && |inter.free| >= 8 && j < sim.n
    requires (j + 1 < sim.n ==> sim.memory[c][0])
    requires DivInv(w, z, sim.memory[d], sim.memory[q], sim.memory[s], sim.memory[c], sim.memory[prev][sim.n - 1], j)
    modifies sim, inter
    ensures Ready(sim, inter) && inter.free == old(inter.free)
    ensures Kept4(old(sim.memory), sim.memory, inter.free, s, c, q, prev)
    ensures DivDone(w, z, sim.memory[d], sim.memory[q], sim.memory[s], sim.memory[c], j)
    ensures sim.memory[prev][sim.n - 1] == (sim.memory[s][sim.n - 1] != sim.memory[c][sim.n - 1]) && !sim.memory[c][0]
    ensures sim.latency == old(sim.latency) + BitCycles(sim.n, j)
  {
    hide DivInv, DivDone;
    var qtag := inter.MallocCell();
    var nq := inter.MallocFirst();
    DivideBit(sim, inter, d, q, s, c, prev, j, qtag, nq, w, z);
    inter.FreeCell(qtag);
  }

  /** What the loop keeps after `i` quotient bits. */
  ghost predicate LoopInv(w: Word, z: Word, d: Word, q: Word, s: Word, c: Word, top: bool, i: nat) {
    if i < |z| then DivInv(w, z, d, q, s, c, top, |z| - 1 - i) && (i > 0 ==> c[0]) else DivDone(w, z, d, q, s, c, 0)
  }

  /** One iteration of the loop. */
  method DivideIteration(sim: ParallelSimulator, inter: IntermediateAllocator, z: nat, d: nat, q: nat, s: nat, c: nat,
                         prev: nat, i: nat, ghost w: Word)
    requires DivWords(sim, inter, d, q, s, c, prev) && |inter.free| >= 8 && i < sim.n && |w| == sim.n
    requires Live(sim, inter, z) && z != q && z != s && z != c && z != prev
    requires LoopInv(w, sim.memory[z], sim.memory[d], sim.memory[q], sim.memory[s], sim.memory[c],
                     sim.memory[prev][sim.n - 1], i)
    modifies sim, inter
    ensures DivWords(sim, inter, d, q, s, c, prev) && inter.free == old(inter.free)
    ensures Kept4(old(sim.memory), sim.memory, inter.free, s, c, q, prev)
    ensures LoopInv(w, sim.memory[z], sim.memory[d], sim.memory[q], sim.memory[s], sim.memory[c],
                    sim.memory[prev][sim.n - 1], i + 1)
    ensures sim.latency == old(sim.latency) + BitCycles(sim.n, sim.n - 1 - i) + if i + 1 < sim.n then 11 else 0
  {
    hide DivInv, DivDone, BitCycles;
    var j := sim.n - 1 - i;
    ghost var zw := sim.memory[z];
    DivideRound(sim, inter, d, q, s, c, prev, j, w, zw);
    ghost var m := sim.memory;
    if i < sim.n - 1 {
      MoveUp(sim, inter, s, c, z, j - 1);
      UpLow(m[c]);
      DoneInv(w, zw, m[d], m[q], m[s], m[c], sim.memory[c], j);
    }
  }

  /** All quotient bits, from the top. */
  method DivideLoop(sim: ParallelSimulator, inter: IntermediateAllocator, z: nat, d: nat, q: nat, s: nat, c: nat,
                    prev: nat, ghost w: Word)
    requires DivWords(sim, inter, d, q, s, c, prev) && |inter.free| >= 8 && |w| == sim.n
    requires Live(sim, inter, z) && z != q && z != s && z != c && z != prev
    requires LoopInv(w, sim.memory[z], sim.memory[d], sim.memory[q], sim.memory[s], sim.memory[c],
                     sim.memory[prev][sim.n - 1], 0)
    modifies sim, inter
    ensures DivWords(sim, inter, d, q, s, c, prev) && inter.free == old(inter.free)
    ensures Kept4(old(sim.memory), sim.memory, inter.free, s, c, q, prev)
    ensures DivDone(w, sim.memory[z], sim.memory[d], sim.memory[q], sim.memory[s], sim.memory[c], 0)
    ensures sim.latency == old(sim.latency) + LoopCycles(sim.n, sim.n)
  {
    hide LoopInv, BitCycles;
    for i := 0 to sim.n
      invariant DivWords(sim, inter, d, q, s, c, prev) && inter.free == old(inter.free)
      invariant Kept4(old(sim.memory), sim.memory, inter.free, s, c, q, prev)
      invariant LoopInv(w, sim.memory[z], sim.memory[d], sim.memory[q], sim.memory[s], sim.memory[c],
                        sim.memory[prev][sim.n - 1], i)
      invariant sim.latency == old(sim.latency) + LoopCycles(sim.n, i)
    {
      DivideIteration(sim, inter, z, d, q, s, c, prev, i, w);
    }
    LoopEnds(w, sim.memory[z], sim.memory[d], sim.memory[q], sim.memory[s], sim.memory[c],
             sim.memory[prev][sim.n - 1], sim.n);
  }

  lemma LoopEnds(w: Word, z: Word, d: Word, q: Word, s: Word, c: Word, top: bool, i: nat)
    requires LoopInv(w, z, d, q, s, c, top, i) && i == |z|
    ensures DivDone(w, z, d, q, s, c, 0)
  {
  }

  /** Cycles of the first `i` iterations. */
  function LoopCycles(n: nat, i: nat): nat
    requires n >= 1 && i <= n
  {
    if i == 0 then 0 else LoopCycles(n, i - 1) + BitCycles(n, n - i) + if i < n then 11 else 0
  }

  lemma {:induction false} LoopCyclesClosed(n: nat, i: nat, l: nat, k: nat)
    requires 1 <= i < n && l == CeilLog2(n) && k == 83 + 9 * l
    ensures LoopCycles(n, i) == 81 + 7 * l + (i - 1) * k
  {
    hide CeilLog2;
    if i > 1 {
      LoopCyclesClosed(n, i - 1, l, k);
      LoopCyclesNext(n, i, l);
      OneMore(i, k);
    } else {
      assert LoopCycles(n, 0) == 0;
      assert (i - 1) * k == 0;
    }
  }

  lemma LoopCyclesNext(n: nat, i: nat, l: nat)
    requires 1 < i < n && l == CeilLog2(n)
    ensures LoopCycles(n, i) == LoopCycles(n, i - 1) + 83 + 9 * l
  {
    hide CeilLog2;
  }

  lemma OneMore(i: int, k: int)
    ensures (i - 1) * k == (i - 2) * k + k
  {
    MulSub(i - 1, 1, k);
  }

  /** S = 2W plus the top bit of Z, without the bit that leaves. */
  method StartSum(sim: ParallelSimulator, inter: IntermediateAllocator, w: nat, z: nat, s: nat)
    requires Ready(sim, inter) && |inter.free| >= 1 && Live(sim, inter, w) && Live(sim, inter, z)
    requires Live(sim, inter, s) && s != w && s != z
    modifies sim, inter
    ensures Ready(sim, inter) && inter.free == old(inter.free) && Kept1(old(sim.memory), sim.memory, inter.free, s)
    ensures sim.memory[s] == UpW(old(sim.memory)[w], old(sim.memory)[z][sim.n - 1])
    ensures sim.latency == old(sim.latency) + 6
  {
    hide Window;
    var temp := inter.MallocCell();
    Init(sim, true, temp);
    Init(sim, true, s);
    NotAt(sim, z, sim.n - 1, temp, 0);
    NotShiftUp(sim, w, temp);
    NotInto(sim, temp, s);
    inter.FreeCell(temp);
    assert sim.memory[s] == UpW(old(sim.memory)[w], old(sim.memory)[z][sim.n - 1]);
  }

  /** The separate top bit. */
  method StartTop(sim: ParallelSimulator, inter: IntermediateAllocator, w: nat, prev: nat)
    requires Ready(sim, inter) && |inter.free| >= 1 && Live(sim, inter, w) && Live(sim, inter, prev) && prev != w
    modifies sim, inter
    ensures Ready(sim, inter) && inter.free == old(inter.free) && Kept1(old(sim.memory), sim.memory, inter.free, prev)
    ensures sim.memory[prev][sim.n - 1] == old(sim.memory)[w][sim.n - 1]
    ensures sim.latency == old(sim.latency) + 4
  {
    var temp := inter.MallocCell();
    var l := sim.n - 1;
    InitAt(sim, true, prev, l);
    InitAt(sim, true, temp, l);
    NotAt(sim, w, l, temp, l);
    NotAt(sim, temp, l, prev, l);
    inter.FreeCell(temp);
  }

  /** Initialisation up to the first iteration. */
  method DivideStart(sim: ParallelSimulator, inter: IntermediateAllocator, w: nat, z: nat, d: nat, q: nat, s: nat,
                     c: nat, prev: nat)
    requires DivWords(sim, inter, d, q, s, c, prev) && |inter.free| >= 1 && Live(sim, inter, w) && Live(sim, inter, z)
    requires w != q && w != s && w != c && w != prev && z != q && z != s && z != c && z != prev
    modifies sim, inter
    ensures DivWords(sim, inter, d, q, s, c, prev) && inter.free == old(inter.free)
    ensures Kept4(old(sim.memory), sim.memory, inter.free, s, c, q, prev)
    ensures LoopInv(sim.memory[w], sim.memory[z], sim.memory[d], sim.memory[q], sim.memory[s], sim.memory[c],
                    sim.memory[prev][sim.n - 1], 0)
    ensures sim.latency == old(sim.latency) + 12
  {
    hide DivInv;
    StartSum(sim, inter, w, z, s);
    InitSpan(sim, false, c, 1, sim.n);
    StartTop(sim, inter, w, prev);
    Init(sim, true, q);
    assert sim.memory[c][0 := false] == Fill(false, sim.n);
    Begins(sim.memory[w], sim.memory[z], sim.memory[d], sim.memory[q], sim.memory[c]);
  }

  /** The complement of the last quotient bit in all partitions of `s`. */
  method SpreadNot(sim: ParallelSimulator, q: nat, s: nat, temp: nat)
    requires sim.Valid() && sim.n >= 3 && q < |sim.memory| && s < |sim.memory| && temp < |sim.memory| && q != s
    requires q != temp && s != temp
    modifies sim
    ensures sim.Valid() && |sim.memory| == |old(sim.memory)|
    ensures forall a {:trigger sim.memory[a]} | 0 <= a < |sim.memory| && a != s && a != temp ::
              sim.memory[a] == old(sim.memory)[a]
    ensures sim.memory[s] == Fill(!old(sim.memory)[q][0], sim.n)
    ensures sim.latency == old(sim.latency) + 3 + 2 * CeilLog2(sim.n)
  {
    ghost var v := !sim.memory[q][0];
    Init(sim, true, s);
    Init(sim, true, temp);
    NotAt(sim, q, 0, s, 0);
    Broadcast(sim, s, temp, v);
  }

  /** The divisor where the last quotient bit is 0, else zero. */
  method Correction(sim: ParallelSimulator, inter: IntermediateAllocator, d: nat, q: nat, s: nat)
    requires Ready(sim, inter) && |inter.free| >= 1 && Live(sim, inter, d) && Live(sim, inter, q)
    requires Live(sim, inter, s) && s != d && s != q
    modifies sim, inter
    ensures Ready(sim, inter) && inter.free == old(inter.free) && Kept1(old(sim.memory), sim.memory, inter.free, s)
    ensures sim.memory[s] == if old(sim.memory)[q][0] then Fill(false, sim.n) else old(sim.memory)[d]
    ensures sim.latency == old(sim.latency) + 6 + 2 * CeilLog2(sim.n)
  {
    ghost var m := sim.memory;
    var temp := inter.MallocCell();
    SpreadNot(sim, q, s, temp);
    Not(sim, d, temp);
    NotInto(sim, temp, s);
    inter.FreeCell(temp);
    assert sim.memory[s] == if m[q][0] then Fill(false, sim.n) else m[d];
  }

  /** R = S + C, plus the divisor if the last remainder was negative. */
  method DivideEnd(sim: ParallelSimulator, inter: IntermediateAllocator, d: nat, q: nat, s: nat, c: nat)
    returns (ghost r1: nat)
    requires Ready(sim, inter) && |inter.free| >= 7 && Live(sim, inter, d) && Live(sim, inter, q)
    requires Live(sim, inter, s) && Live(sim, inter, c)
    requires d != s && d != c && q != s && q != c && s != c
    modifies sim, inter
    ensures Ready(sim, inter) && inter.free == old(inter.free) && Kept2(old(sim.memory), sim.memory, inter.free, s, c)
    ensures r1 < Pow2(sim.n) && Num(sim.memory[c]) < Pow2(sim.n)
    ensures var t := Num(old(sim.memory)[s]) + Num(old(sim.memory)[c]); t == r1 || t == r1 + Pow2(sim.n)
    ensures var t := r1 + if old(sim.memory)[q][0] then 0 else Num(old(sim.memory)[d]);
            t == Num(sim.memory[c]) || t == Num(sim.memory[c]) + Pow2(sim.n)
    ensures sim.latency == old(sim.latency) + 56 + 30 * CeilLog2(sim.n)
  {
    hide NumN, Pow2;
    FixedAddition(sim, inter, s, c, c, NoCarry, NoOutput);
    ghost var m1 := sim.memory;
    r1 := Num(m1[c]);
    Correction(sim, inter, d, q, s);
    ghost var m2 := sim.memory;
    FillNum(false, sim.n, sim.n);
    FixedAddition(sim, inter, s, c, c, NoCarry, NoOutput);
  }

  /** Quotient and remainder, if the dividend's upper half is below the divisor. */
  ghost predicate Quotient(w: Word, z: Word, d: Word, q: Word, r: Word) {
    Num(w) < Num(d) ==>
      Num(q) == (Num(z) + Pow2(|z|) * Num(w)) / Num(d) && Num(r) == (Num(z) + Pow2(|z|) * Num(w)) % Num(d)
  }

  lemma QuotientIs(w: Word, z: Word, d: Word, q: Word, r: Word, n: nat)
    requires Quotient(w, z, d, q, r) && |z| == n
    ensures var total := Num(z) + Pow2(n) * Num(w);
            Num(w) < Num(d) ==> Num(q) == total / Num(d) && Num(r) == total % Num(d)
  {
  }

  lemma QuotientOf(w: Word, z: Word, d: Word, q: Word, s: Word, c: Word, r: Word, r1: nat)
    requires DivDone(w, z, d, q, s, c, 0) && |r| == |s| && r1 < Pow2(|s|)
    requires Num(s) + Num(c) == r1 || Num(s) + Num(c) == r1 + Pow2(|s|)
    requires var t := r1 + if q[0] then 0 else Num(d); t == Num(r) || t == Num(r) + Pow2(|s|)
    ensures Quotient(w, z, d, q, r)
  {
    if Num(w) < Num(d) {
      hide NumN, Pow2, DivDone;
      Finishes(w, z, d, q, s, c, r1, Num(r));
      DivModUnique(Num(z) + Pow2(|z|) * Num(w), Num(d), Num(q), Num(r));
    }
  }

  /** The division with the sum word and the separate top bit given. */
  method DivideCells(sim: ParallelSimulator, inter: IntermediateAllocator, w: nat, z: nat, d: nat, q: nat, r: nat,
                     s: nat, prev: nat)
    requires DivWords(sim, inter, d, q, s, r, prev) && |inter.free| >= 8 && Live(sim, inter, w) && Live(sim, inter, z)
    requires w != q && w != s && w != r && w != prev && z != q && z != s && z != r && z != prev
    modifies sim, inter
    ensures Ready(sim, inter) && inter.free == old(inter.free)
    ensures Kept4(old(sim.memory), sim.memory, inter.free, s, r, q, prev)
    ensures Quotient(old(sim.memory)[w], old(sim.memory)[z], old(sim.memory)[d], sim.memory[q], sim.memory[r])
    ensures sim.latency == old(sim.latency) + 68 + 30 * CeilLog2(sim.n) + LoopCycles(sim.n, sim.n)
  {
    hide Quotient, LoopInv, DivDone, LoopCycles, Num, Pow2;
    ghost var m := sim.memory;
    DivideStart(sim, inter, w, z, d, q, s, r, prev);
    DivideLoop(sim, inter, z, d, q, s, r, prev, sim.memory[w]);
    ghost var m2 := sim.memory;
    ghost var r1 := DivideEnd(sim, inter, d, q, s, r);
    QuotientOf(m[w], m[z], m[d], m2[q], m2[s], m2[r], sim.memory[r], r1);
  }

  /** fixedDivision: for every N >= 3 and every dividend whose upper half `w` is below the divisor, `q` and `r` become
      quotient and remainder. The carry word is kept in the cells of `r`. */
  method FixedDivision(sim: ParallelSimulator, inter: IntermediateAllocator, w: nat, z: nat, d: nat, q: nat, r: nat)
    requires Ready(sim, inter) && |inter.free| >= 10 && Live(sim, inter, w) && Live(sim, inter, z)
    requires Live(sim, inter, d)
    requires Live(sim, inter, q) && Live(sim, inter, r) && d != q && d != r && q != r && w != q && w != r && z != q
    requires z != r
    modifies sim, inter
    ensures Ready(sim, inter) && inter.free == old(inter.free) && Kept2(old(sim.memory), sim.memory, inter.free, q, r)
    ensures var n, m := sim.n, old(sim.memory);
            var total := Num(m[z]) + Pow2(n) * Num(m[w]);
            Num(m[w]) < Num(m[d]) ==>
              Num(sim.memory[q]) == total / Num(m[d]) && Num(sim.memory[r]) == total % Num(m[d])
    ensures sim.latency ==
            old(sim.latency) + 138 + 37 * CeilLog2(sim.n) + (sim.n - 1) * (83 + 9 * CeilLog2(sim.n))
  {
    hide Quotient, LoopCycles, Num, Pow2, Window, Tracks;
    ghost var m := sim.memory;
    var s, prev := inter.Malloc2();
    DivideCells(sim, inter, w, z, d, q, r, s, prev);
    QuotientIs(m[w], m[z], m[d], sim.memory[q], sim.memory[r], sim.n);
    DivisionCycles(sim.n);
    inter.Free2(s, prev);
  }

  /** The closed form of the cycles of fixedDivision. */
  lemma DivisionCycles(n: nat)
    requires n >= 2
    ensures 68 + 30 * CeilLog2(n) + LoopCycles(n, n) == 138 + 37 * CeilLog2(n) + (n - 1) * (83 + 9 * CeilLog2(n))
  {
    hide CeilLog2;
    var k := 83 + 9 * CeilLog2(n);
    LoopCyclesClosed(n, n - 1, CeilLog2(n), k);
    OneMore(n, k);
  }
}
