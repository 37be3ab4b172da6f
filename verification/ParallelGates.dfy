/** The gate patterns of parallel/AritPIM.py, each one cycle of the partitioned simulator. */
module ParallelGates {
  import opened Numbers
  import opened Simulator
  import opened Allocator
  import opened Words
  import opened ParallelSim

  /** Only the word at `o` may differ. */
  ghost predicate Only(m: seq<Word>, m': seq<Word>, o: nat) {
    |m| == |m'| && forall a {:trigger m'[a]} | 0 <= a < |m| && a != o :: m'[a] == m[a]
  }

  /** NOT from partitions `ins` to `outs`, which lie `d` above them. */
  method NotOn(sim: ParallelSimulator, a: nat, o: nat, ins: seq<nat>, outs: seq<nat>)
    requires sim.Valid() && a < |sim.memory| && o < |sim.memory| && Legal([a], o, ins, outs)
    requires forall k {:trigger ins[k]} {:trigger outs[k]} | 0 <= k < |outs| :: ins[k] < sim.n && outs[k] < sim.n
    modifies sim
    ensures sim.Valid() && Only(old(sim.memory), sim.memory, o)
    ensures forall p {:trigger sim.memory[o][p]} | 0 <= p < sim.n && p !in outs ::
              sim.memory[o][p] == old(sim.memory)[o][p]
    ensures forall k {:trigger outs[k]} | 0 <= k < |outs| ::
              sim.memory[o][outs[k]] == (old(sim.memory)[o][outs[k]] && !old(sim.memory)[a][ins[k]])
    ensures sim.latency == old(sim.latency) + 1
  {
    sim.Gate(NOT, [a], o, ins, outs);
  }

  method NorOn(sim: ParallelSimulator, a: nat, b: nat, o: nat, ins: seq<nat>, outs: seq<nat>)
    requires sim.Valid() && a < |sim.memory| && b < |sim.memory| && o < |sim.memory| && Legal([a, b], o, ins, outs)
    requires forall k {:trigger ins[k]} {:trigger outs[k]} | 0 <= k < |outs| :: ins[k] < sim.n && outs[k] < sim.n
    modifies sim
    ensures sim.Valid() && Only(old(sim.memory), sim.memory, o)
    ensures forall p {:trigger sim.memory[o][p]} | 0 <= p < sim.n && p !in outs ::
              sim.memory[o][p] == old(sim.memory)[o][p]
    ensures forall k {:trigger outs[k]} | 0 <= k < |outs| ::
              sim.memory[o][outs[k]] == (old(sim.memory)[o][outs[k]] &&
                                         !(old(sim.memory)[a][ins[k]] || old(sim.memory)[b][ins[k]]))
    ensures sim.latency == old(sim.latency) + 1
  {
    sim.Gate(NOR, [a, b], o, ins, outs);
  }

  method InitOn(sim: ParallelSimulator, v: bool, o: nat, outs: seq<nat>)
    requires sim.Valid() && o < |sim.memory| && |outs| >= 1
    requires forall k {:trigger outs[k]} | 0 <= k < |outs| :: outs[k] < sim.n
    modifies sim
    ensures sim.Valid() && Only(old(sim.memory), sim.memory, o)
    ensures forall p {:trigger sim.memory[o][p]} | 0 <= p < sim.n ::
              sim.memory[o][p] == if p in outs then v else old(sim.memory)[o][p]
    ensures sim.latency == old(sim.latency) + 1
  {
    if v {
      sim.Gate(INIT1, [], o, outs, outs);
    } else {
      sim.Gate(INIT0, [], o, outs, outs);
    }
  }

  /** All partitions. */
  function All(n: nat): (r: seq<nat>)
    ensures |r| == n && forall k {:trigger r[k]} | 0 <= k < n :: r[k] == k
  {
    ArangeAll(0, n);
    Arange(0, n, 1)
  }

  lemma AllLegal(inputs: seq<nat>, o: nat, n: nat)
    requires n >= 1 && o !in inputs && forall i, j | 0 <= i < j < |inputs| :: inputs[i] != inputs[j]
    ensures Legal(inputs, o, All(n), All(n))
  {
    ArangeAll(0, n);
    ArangeLegal(inputs, o, 0, n, 0, n, 1);
  }

  lemma AllHas(n: nat, p: nat)
    requires p < n
    ensures p in All(n)
  {
    assert All(n)[p] == p;
  }

  method Init(sim: ParallelSimulator, v: bool, o: nat)
    requires sim.Valid() && sim.n >= 1 && o < |sim.memory|
    modifies sim
    ensures sim.Valid() && sim.memory == old(sim.memory)[o := Fill(v, sim.n)]
    ensures sim.latency == old(sim.latency) + 1
  {
    InitOn(sim, v, o, All(sim.n));
    forall p | 0 <= p < sim.n
      ensures sim.memory[o][p] == v
    {
      AllHas(sim.n, p);
    }
    assert sim.memory[o] == Fill(v, sim.n);
  }

  /** NOT without initialisation, in all partitions. */
  method NotInto(sim: ParallelSimulator, a: nat, o: nat)
    requires sim.Valid() && sim.n >= 1 && a < |sim.memory| && o < |sim.memory| && a != o
    modifies sim
    ensures sim.Valid() && sim.memory == old(sim.memory)[o := AndNotW(old(sim.memory)[o], old(sim.memory)[a])]
    ensures sim.latency == old(sim.latency) + 1
  {
    AllLegal([a], o, sim.n);
    NotOn(sim, a, o, All(sim.n), All(sim.n));
    assert forall p | 0 <= p < sim.n ::
             sim.memory[o][All(sim.n)[p]] == AndNotW(old(sim.memory)[o], old(sim.memory)[a])[p];
    assert sim.memory[o] == AndNotW(old(sim.memory)[o], old(sim.memory)[a]);
  }

  /** INIT1 and NOT in all partitions. */
  method Not(sim: ParallelSimulator, a: nat, o: nat)
    requires sim.Valid() && sim.n >= 1 && a < |sim.memory| && o < |sim.memory| && a != o
    modifies sim
    ensures sim.Valid() && sim.memory == old(sim.memory)[o := NotW(old(sim.memory)[a])]
    ensures sim.latency == old(sim.latency) + 2
  {
    Init(sim, true, o);
    NotInto(sim, a, o);
    assert sim.memory[o] == NotW(old(sim.memory)[a]);
  }

  /** INIT1 and NOR in all partitions. */
  method Nor(sim: ParallelSimulator, a: nat, b: nat, o: nat)
    requires sim.Valid() && sim.n >= 1 && a < |sim.memory| && b < |sim.memory| && o < |sim.memory| && a != o && b != o
    requires a != b
    modifies sim
    ensures sim.Valid() && sim.memory == old(sim.memory)[o := NorW(old(sim.memory)[a], old(sim.memory)[b])]
    ensures sim.latency == old(sim.latency) + 2
  {
    Init(sim, true, o);
    AllLegal([a, b], o, sim.n);
    NorOn(sim, a, b, o, All(sim.n), All(sim.n));
    assert forall p | 0 <= p < sim.n :: sim.memory[o][All(sim.n)[p]] == NorW(old(sim.memory)[a], old(sim.memory)[b])[p];
    assert sim.memory[o] == NorW(old(sim.memory)[a], old(sim.memory)[b]);
  }

  /** NOT from partition `p` to partition `q`. */
  method NotAt(sim: ParallelSimulator, a: nat, p: nat, o: nat, q: nat)
    requires sim.Valid() && a < |sim.memory| && o < |sim.memory| && p < sim.n && q < sim.n && (p != q || a != o)
    modifies sim
    ensures sim.Valid()
    ensures sim.memory == old(sim.memory)[o := old(sim.memory)[o][q := old(sim.memory)[o][q] && !old(sim.memory)[a][p]]]
    ensures sim.latency == old(sim.latency) + 1
  {
    NotOn(sim, a, o, [p], [q]);
    assert [q][0] == q;
    assert sim.memory[o] == old(sim.memory)[o][q := old(sim.memory)[o][q] && !old(sim.memory)[a][p]];
  }

  method NorAt(sim: ParallelSimulator, a: nat, b: nat, p: nat, o: nat, q: nat)
    requires sim.Valid() && a < |sim.memory| && b < |sim.memory| && o < |sim.memory| && p < sim.n && q < sim.n
    requires p != q || (a != o && b != o && a != b)
    modifies sim
    ensures sim.Valid()
    ensures sim.memory == old(sim.memory)[o := old(sim.memory)[o][q := old(sim.memory)[o][q] &&
                                                                  !(old(sim.memory)[a][p] || old(sim.memory)[b][p])]]
    ensures sim.latency == old(sim.latency) + 1
  {
    NorOn(sim, a, b, o, [p], [q]);
    assert [q][0] == q;
    assert sim.memory[o] == old(sim.memory)[o][q := old(sim.memory)[o][q] &&
                                               !(old(sim.memory)[a][p] || old(sim.memory)[b][p])];
  }

  method InitAt(sim: ParallelSimulator, v: bool, o: nat, q: nat)
    requires sim.Valid() && o < |sim.memory| && q < sim.n
    modifies sim
    ensures sim.Valid() && sim.memory == old(sim.memory)[o := old(sim.memory)[o][q := v]]
    ensures sim.latency == old(sim.latency) + 1
  {
    InitOn(sim, v, o, [q]);
    assert [q][0] == q;
    assert sim.memory[o] == old(sim.memory)[o][q := v];
  }

  /** The partitions `lo..hi`. */
  function Span(lo: nat, hi: nat): (r: seq<nat>)
    requires lo <= hi
    ensures |r| == hi - lo && forall k {:trigger r[k]} | 0 <= k < hi - lo :: r[k] == lo + k
  {
    ArangeAll(lo, hi);
    Arange(lo, hi, 1)
  }

  method InitSpan(sim: ParallelSimulator, v: bool, o: nat, lo: nat, hi: nat)
    requires sim.Valid() && o < |sim.memory| && lo < hi <= sim.n
    modifies sim
    ensures sim.Valid() && Only(old(sim.memory), sim.memory, o)
    ensures forall p {:trigger sim.memory[o][p]} | 0 <= p < sim.n ::
              sim.memory[o][p] == if lo <= p < hi then v else old(sim.memory)[o][p]
    ensures sim.latency == old(sim.latency) + 1
  {
    InitOn(sim, v, o, Span(lo, hi));
    forall p | lo <= p < hi
      ensures p in Span(lo, hi)
    {
      assert Span(lo, hi)[p - lo] == p;
    }
  }

  /** Every second number from `start` on. */
  lemma SecondListed(start: nat, n: nat, p: nat)
    requires p < n
    ensures p in Arange(start, n, 2) <==> start <= p && (p - start) % 2 == 0
  {
    if start <= p && (p - start) % 2 == 0 {
      ArangeListed(start, n, 2, (p - start) / 2, p);
    }
    if p in Arange(start, n, 2) {
      var k := ArangeIndex(start, n, 2, p);
    }
  }

  /** Which partitions every second gate upwards writes. */
  lemma SecondUp(i: nat, n: nat)
    requires i <= 1 && i + 1 < n
    ensures var ins, outs := Arange(i, n - 1, 2), Arange(i + 1, n, 2);
            && |ins| >= 1 && |outs| >= 1 && Distance(ins[0], outs[0]) == 1
            && forall p {:trigger p in outs} | 0 <= p < n :: p in outs <==> p > 0 && (p + i) % 2 == 1
  {
    forall p {:trigger p in Arange(i + 1, n, 2)} | 0 <= p < n
      ensures p in Arange(i + 1, n, 2) <==> p > 0 && (p + i) % 2 == 1
    {
      SecondListed(i + 1, n, p);
    }
  }

  lemma SecondDown(i: nat, n: nat)
    requires i <= 1 && i + 1 < n
    ensures var ins, outs := Arange(i + 1, n, 2), Arange(i, n - 1, 2);
            && |ins| >= 1 && |outs| >= 1 && Distance(ins[0], outs[0]) == -1
            && forall p {:trigger p in outs} | 0 <= p < n :: p in outs <==> p + 1 < n && (p + i) % 2 == 0
  {
    forall p {:trigger p in Arange(i, n - 1, 2)} | 0 <= p < n
      ensures p in Arange(i, n - 1, 2) <==> p + 1 < n && (p + i) % 2 == 0
    {
      if p + 1 < n {
        SecondListed(i, n - 1, p);
      }
    }
  }

  /** NOT from every second partition starting at `i` to the next one. */
  method NotUp(sim: ParallelSimulator, a: nat, o: nat, i: nat)
    requires sim.Valid() && a < |sim.memory| && o < |sim.memory| && i <= 1 && i + 1 < sim.n
    modifies sim
    ensures sim.Valid() && Only(old(sim.memory), sim.memory, o)
    ensures forall p {:trigger sim.memory[o][p]} | 0 < p < sim.n ::
              sim.memory[o][p] == if (p + i) % 2 == 1 then old(sim.memory)[o][p] && !old(sim.memory)[a][p - 1]
                                  else old(sim.memory)[o][p]
    ensures sim.memory[o][0] == old(sim.memory)[o][0]
    ensures sim.latency == old(sim.latency) + 1
  {
    hide Window, Arange, Legal;
    var ins, outs := Arange(i, sim.n - 1, 2), Arange(i + 1, sim.n, 2);
    ArangeLegal([a], o, i, sim.n - 1, i + 1, sim.n, 2);
    SecondUp(i, sim.n);
    sim.Gate(NOT, [a], o, ins, outs);
  }

  /** The complement of `a`, one partition up, into `o`. */
  method NotShiftUp(sim: ParallelSimulator, a: nat, o: nat)
    requires sim.Valid() && a < |sim.memory| && o < |sim.memory| && a != o && sim.n >= 3
    modifies sim
    ensures sim.Valid() && Only(old(sim.memory), sim.memory, o)
    ensures forall p {:trigger sim.memory[o][p]} | 0 < p < sim.n ::
              sim.memory[o][p] == (old(sim.memory)[o][p] && !old(sim.memory)[a][p - 1])
    ensures sim.memory[o][0] == old(sim.memory)[o][0]
    ensures sim.latency == old(sim.latency) + 2
  {
    NotUp(sim, a, o, 0);
    NotUp(sim, a, o, 1);
  }

  /** NOR from every second partition starting at `i + 1` to the one before it. */
  method NorDown(sim: ParallelSimulator, a: nat, b: nat, o: nat, i: nat)
    requires sim.Valid() && a < |sim.memory| && b < |sim.memory| && o < |sim.memory| && i <= 1 && i + 1 < sim.n
    modifies sim
    ensures sim.Valid() && Only(old(sim.memory), sim.memory, o)
    ensures forall p {:trigger sim.memory[o][p]} | 0 <= p && p + 1 < sim.n ::
              sim.memory[o][p] ==
              if (p + i) % 2 != 0 then old(sim.memory)[o][p]
              else old(sim.memory)[o][p] && !(old(sim.memory)[a][p + 1] || old(sim.memory)[b][p + 1])
    ensures sim.memory[o][sim.n - 1] == old(sim.memory)[o][sim.n - 1]
    ensures sim.latency == old(sim.latency) + 1
  {
    hide Window, Arange, Legal;
    var ins, outs := Arange(i + 1, sim.n, 2), Arange(i, sim.n - 1, 2);
    ArangeLegal([a, b], o, i + 1, sim.n, i, sim.n - 1, 2);
    SecondDown(i, sim.n);
    sim.Gate(NOR, [a, b], o, ins, outs);
  }

  /** NOR(a, b), one partition down, into `o`; the top partition of `o` keeps its bit. */
  method NorShiftDown(sim: ParallelSimulator, a: nat, b: nat, o: nat)
    requires sim.Valid() && a < |sim.memory| && b < |sim.memory| && o < |sim.memory| && a != o && b != o && sim.n >= 3
    modifies sim
    ensures sim.Valid() && Only(old(sim.memory), sim.memory, o)
    ensures forall p {:trigger sim.memory[o][p]} | 0 <= p && p + 1 < sim.n ::
              sim.memory[o][p] == (old(sim.memory)[o][p] && !(old(sim.memory)[a][p + 1] || old(sim.memory)[b][p + 1]))
    ensures sim.memory[o][sim.n - 1] == old(sim.memory)[o][sim.n - 1]
    ensures sim.latency == old(sim.latency) + 2
  {
    NorDown(sim, a, b, o, 0);
    NorDown(sim, a, b, o, 1);
  }

  /** NOR from every second partition starting at `i` to the next one. */
  method NorUp(sim: ParallelSimulator, a: nat, b: nat, o: nat, i: nat)
    requires sim.Valid() && a < |sim.memory| && b < |sim.memory| && o < |sim.memory| && i <= 1 && i + 1 < sim.n
    modifies sim
    ensures sim.Valid() && Only(old(sim.memory), sim.memory, o)
    ensures forall p {:trigger sim.memory[o][p]} | 0 < p < sim.n ::
              sim.memory[o][p] ==
              if (p + i) % 2 != 1 then old(sim.memory)[o][p]
              else old(sim.memory)[o][p] && !(old(sim.memory)[a][p - 1] || old(sim.memory)[b][p - 1])
    ensures sim.memory[o][0] == old(sim.memory)[o][0]
    ensures sim.latency == old(sim.latency) + 1
  {
    hide Window, Arange, Legal;
    var ins, outs := Arange(i, sim.n - 1, 2), Arange(i + 1, sim.n, 2);
    ArangeLegal([a, b], o, i, sim.n - 1, i + 1, sim.n, 2);
    SecondUp(i, sim.n);
    sim.Gate(NOR, [a, b], o, ins, outs);
  }

  /** NOR(a, b), one partition up, into `o`. */
  method NorShiftUp(sim: ParallelSimulator, a: nat, b: nat, o: nat)
    requires sim.Valid() && a < |sim.memory| && b < |sim.memory| && o < |sim.memory| && a != o && b != o && sim.n >= 3
    modifies sim
    ensures sim.Valid() && Only(old(sim.memory), sim.memory, o)
    ensures forall p {:trigger sim.memory[o][p]} | 0 < p < sim.n ::
              sim.memory[o][p] == (old(sim.memory)[o][p] && !(old(sim.memory)[a][p - 1] || old(sim.memory)[b][p - 1]))
    ensures sim.memory[o][0] == old(sim.memory)[o][0]
    ensures sim.latency == old(sim.latency) + 2
  {
    NorUp(sim, a, b, o, 0);
    NorUp(sim, a, b, o, 1);
  }

  lemma SpanLegal(inputs: seq<nat>, o: nat, lo: nat, hi: nat)
    requires lo < hi && o !in inputs && forall i, j | 0 <= i < j < |inputs| :: inputs[i] != inputs[j]
    ensures Legal(inputs, o, Span(lo, hi), Span(lo, hi))
  {
    ArangeAll(lo, hi);
    ArangeLegal(inputs, o, lo, hi, lo, hi, 1);
  }

  /** NOT within the partitions `lo..hi`. */
  method NotSpan(sim: ParallelSimulator, a: nat, o: nat, lo: nat, hi: nat)
    requires sim.Valid() && a < |sim.memory| && o < |sim.memory| && a != o && lo < hi <= sim.n
    modifies sim
    ensures sim.Valid() && Only(old(sim.memory), sim.memory, o)
    ensures forall p {:trigger sim.memory[o][p]} | 0 <= p < sim.n :: sim.memory[o][p] ==
              if lo <= p < hi then old(sim.memory)[o][p] && !old(sim.memory)[a][p] else old(sim.memory)[o][p]
    ensures sim.latency == old(sim.latency) + 1
  {
    var r := Span(lo, hi);
    SpanLegal([a], o, lo, hi);
    NotOn(sim, a, o, r, r);
    forall p | lo <= p < hi
      ensures sim.memory[o][p] == (old(sim.memory)[o][p] && !old(sim.memory)[a][p])
    {
      assert r[p - lo] == p;
    }
  }

  /** INIT1 and NOR within the partitions `lo..hi`. */
  method NorSpan(sim: ParallelSimulator, a: nat, b: nat, o: nat, lo: nat, hi: nat)
    requires sim.Valid() && a < |sim.memory| && b < |sim.memory| && o < |sim.memory| && a != o && b != o && a != b
    requires lo < hi <= sim.n
    modifies sim
    ensures sim.Valid() && Only(old(sim.memory), sim.memory, o)
    ensures forall p {:trigger sim.memory[o][p]} | 0 <= p < sim.n :: sim.memory[o][p] ==
              if lo <= p < hi then !(old(sim.memory)[a][p] || old(sim.memory)[b][p]) else old(sim.memory)[o][p]
    ensures sim.latency == old(sim.latency) + 2
  {
    var r := Span(lo, hi);
    InitSpan(sim, true, o, lo, hi);
    SpanLegal([a, b], o, lo, hi);
    NorOn(sim, a, b, o, r, r);
    forall p | lo <= p < hi
      ensures sim.memory[o][p] == !(old(sim.memory)[a][p] || old(sim.memory)[b][p])
    {
      assert r[p - lo] == p;
    }
  }

  /** The scratch pool is consistent and inside the memory. */
  ghost predicate Ready(sim: ParallelSimulator, inter: IntermediateAllocator)
    reads sim, inter
  {
    sim.Valid() && inter.Valid() && sim.n >= 3 && forall c: nat | c in inter.free :: c < |sim.memory|
  }

  /** An address that the pool will not hand out. */
  ghost predicate Live(sim: ParallelSimulator, inter: IntermediateAllocator, c: nat)
    reads sim, inter
  {
    c < |sim.memory| && c !in inter.free
  }

  /** Only scratch words and the words `o`, `p` may differ. */
  ghost predicate Kept2(m: seq<Word>, m': seq<Word>, f: set<nat>, o: nat, p: nat) {
    |m| == |m'| && forall c: nat | c !in f && c != o && c != p && c < |m| :: m'[c] == m[c]
  }

  ghost predicate Kept3(m: seq<Word>, m': seq<Word>, f: set<nat>, o: nat, p: nat, q: nat) {
    |m| == |m'| && forall c: nat | c !in f && c != o && c != p && c != q && c < |m| :: m'[c] == m[c]
  }

  ghost predicate Kept4(m: seq<Word>, m': seq<Word>, f: set<nat>, o: nat, p: nat, q: nat, r: nat) {
    |m| == |m'| && forall c: nat | c !in f && c != o && c != p && c != q && c != r && c < |m| :: m'[c] == m[c]
  }

  ghost predicate Kept5(m: seq<Word>, m': seq<Word>, f: set<nat>, o: nat, p: nat, q: nat, r: nat, s: nat) {
    |m| == |m'| && forall c: nat | c !in f && c != o && c != p && c != q && c != r && c != s && c < |m| :: m'[c] == m[c]
  }

  ghost predicate Kept1(m: seq<Word>, m': seq<Word>, f: set<nat>, o: nat) {
    |m| == |m'| && forall c: nat | c !in f && c != o && c < |m| :: m'[c] == m[c]
  }

  ghost predicate Kept(m: seq<Word>, m': seq<Word>, f: set<nat>, z: seq<nat>) {
    |m| == |m'| && forall c: nat | c !in f && c !in z && c < |m| :: m'[c] == m[c]
  }

  /** The four-NOR block behind XNOR: `t0` is left as NOR(a, b). */
  method XnorGates(sim: ParallelSimulator, a: nat, b: nat, t0: nat, t1: nat, t2: nat, z: nat)
    requires sim.Valid() && sim.n >= 1
    requires a < |sim.memory| && b < |sim.memory| && t0 < |sim.memory| && t1 < |sim.memory| && t2 < |sim.memory|
    requires z < |sim.memory|
    requires a != b && t0 != a && t0 != b && t1 != a && t1 != b && t2 != a && t2 != b && t0 != t1 && t0 != t2
    requires t1 != t2
    requires z != t0 && z != t1 && z != t2
    modifies sim
    ensures sim.Valid() && |sim.memory| == |old(sim.memory)|
    ensures sim.memory[z] == NotW(XorW(old(sim.memory)[a], old(sim.memory)[b]))
    ensures sim.memory[t0] == NorW(old(sim.memory)[a], old(sim.memory)[b])
    ensures forall c {:trigger sim.memory[c]} | 0 <= c < |sim.memory| && c != t0 && c != t1 && c != t2 && c != z ::
              sim.memory[c] == old(sim.memory)[c]
    ensures sim.latency == old(sim.latency) + 8
  {
    Nor(sim, a, b, t0);
    Nor(sim, t0, a, t1);
    Nor(sim, t0, b, t2);
    Nor(sim, t1, t2, z);
    assert sim.memory[z] == NotW(XorW(old(sim.memory)[a], old(sim.memory)[b]));
  }

  /** z = XNOR(a, b) in all partitions. */
  method Xnor(sim: ParallelSimulator, inter: IntermediateAllocator, a: nat, b: nat, z: nat)
    requires Ready(sim, inter) && |inter.free| >= 3 && Live(sim, inter, a) && Live(sim, inter, b)
    requires Live(sim, inter, z) && a != b
    modifies sim, inter
    ensures Ready(sim, inter) && inter.free == old(inter.free)
    ensures Kept1(old(sim.memory), sim.memory, inter.free, z)
    ensures sim.memory[z] == NotW(XorW(old(sim.memory)[a], old(sim.memory)[b]))
    ensures sim.latency == old(sim.latency) + 8
  {
    var t0, t1, t2 := inter.Malloc3();
    XnorGates(sim, a, b, t0, t1, t2, z);
    inter.Free3(t0, t1, t2);
  }

  /** z = OR(a, b) with its complement, in all partitions. */
  method OrAndNot(sim: ParallelSimulator, a: nat, b: nat, z: nat, notz: nat)
    requires sim.Valid() && sim.n >= 1
    requires a < |sim.memory| && b < |sim.memory| && z < |sim.memory| && notz < |sim.memory|
    requires a != b && z != notz && notz != a && notz != b
    modifies sim
    ensures sim.Valid() && |sim.memory| == |old(sim.memory)|
    ensures var nor := NorW(old(sim.memory)[a], old(sim.memory)[b]);
            sim.memory == old(sim.memory)[notz := nor][z := NotW(nor)]
    ensures sim.latency == old(sim.latency) + 4
  {
    Nor(sim, a, b, notz);
    Not(sim, notz, z);
  }

  /** The four gates of a NAND, through the cells `notb` and `notz`. */
  method NandGates(sim: ParallelSimulator, a: nat, b: nat, z: nat, notb: nat, notz: nat)
    requires sim.Valid() && sim.n >= 1 && a < |sim.memory| && b < |sim.memory| && z < |sim.memory| && z != a && z != b
    requires notb < |sim.memory| && notz < |sim.memory| && notb != notz && notb != a && notb != b && notb != z
    requires notz != a && notz != b && notz != z
    modifies sim
    ensures sim.Valid() && Kept1(old(sim.memory), sim.memory, {notb, notz}, z)
    ensures sim.memory[z] == NandW(old(sim.memory)[a], old(sim.memory)[b])
    ensures sim.latency == old(sim.latency) + 8
  {
    hide Window;
    Not(sim, a, z);
    Not(sim, b, notb);
    Nor(sim, z, notb, notz);
    Not(sim, notz, z);
    assert sim.memory[z] == NandW(old(sim.memory)[a], old(sim.memory)[b]);
  }

  /** z = NAND(a, b) in all partitions; the output cell first holds the complement of `a`. */
  method Nand(sim: ParallelSimulator, inter: IntermediateAllocator, a: nat, b: nat, z: nat)
    requires Ready(sim, inter) && |inter.free| >= 2 && Live(sim, inter, a) && Live(sim, inter, b) && Live(sim, inter, z)
    requires z != a && z != b
    modifies sim, inter
    ensures Ready(sim, inter) && inter.free == old(inter.free)
    ensures Kept1(old(sim.memory), sim.memory, inter.free, z)
    ensures sim.memory[z] == NandW(old(sim.memory)[a], old(sim.memory)[b])
    ensures sim.latency == old(sim.latency) + 8
  {
    hide Window, Tracks;
    var notb, notz := inter.Malloc2();
    NandGates(sim, a, b, z, notb, notz);
    inter.Free2(notb, notz);
  }

  function NandW(a: Word, b: Word): (r: Word)
    requires |a| == |b|
    ensures |r| == |a| && forall p {:trigger r[p]} | 0 <= p < |a| :: r[p] == !(a[p] && b[p])
  {
    seq(|a|, p requires 0 <= p < |a| => !(a[p] && b[p]))
  }

  /** The four gates of an XNOR within `lo..hi`, through the cells `t0`, `t1` and `t2`. */
  method XnorSpanGates(sim: ParallelSimulator, a: nat, b: nat, z: nat, t0: nat, t1: nat, t2: nat, lo: nat, hi: nat)
    requires sim.Valid() && lo < hi <= sim.n && a < |sim.memory| && b < |sim.memory| && z < |sim.memory| && a != b
    requires t0 < |sim.memory| && t1 < |sim.memory| && t2 < |sim.memory| && t0 != t1 && t0 != t2 && t1 != t2
    requires t0 != a && t0 != b && t1 != a && t1 != b && t2 != a && t2 != b && z != t0 && z != t1 && z != t2
    modifies sim
    ensures sim.Valid() && Kept1(old(sim.memory), sim.memory, {t0, t1, t2}, z)
    ensures forall p {:trigger sim.memory[z][p]} | 0 <= p < sim.n :: sim.memory[z][p] ==
              if lo <= p < hi then old(sim.memory)[a][p] == old(sim.memory)[b][p] else old(sim.memory)[z][p]
    ensures sim.latency == old(sim.latency) + 8
  {
    hide Window;
    NorSpan(sim, a, b, t0, lo, hi);
    NorSpan(sim, t0, a, t1, lo, hi);
    NorSpan(sim, t0, b, t2, lo, hi);
    NorSpan(sim, t1, t2, z, lo, hi);
  }

  /** z = XNOR(a, b) within the partitions `lo..hi`. */
  method XnorSpan(sim: ParallelSimulator, inter: IntermediateAllocator, a: nat, b: nat, z: nat, lo: nat, hi: nat)
    requires Ready(sim, inter) && |inter.free| >= 3 && Live(sim, inter, a) && Live(sim, inter, b)
    requires Live(sim, inter, z) && a != b
    requires lo < hi <= sim.n
    modifies sim, inter
    ensures Ready(sim, inter) && inter.free == old(inter.free) && Kept1(old(sim.memory), sim.memory, inter.free, z)
    ensures forall p {:trigger sim.memory[z][p]} | 0 <= p < sim.n :: sim.memory[z][p] ==
              if lo <= p < hi then old(sim.memory)[a][p] == old(sim.memory)[b][p] else old(sim.memory)[z][p]
    ensures sim.latency == old(sim.latency) + 8
  {
    hide Window, Tracks;
    var t0, t1, t2 := inter.Malloc3();
    XnorSpanGates(sim, a, b, z, t0, t1, t2, lo, hi);
    inter.Free3(t0, t1, t2);
  }

  /** The four gates of an XOR, through the cells `notb`, `t0` and `t1`. */
  method XorGates(sim: ParallelSimulator, a: nat, b: nat, z: nat, nota: nat, notb: nat, t0: nat, t1: nat)
    requires sim.Valid() && sim.n >= 1 && a < |sim.memory| && b < |sim.memory| && z < |sim.memory|
    requires nota < |sim.memory|
    requires notb < |sim.memory| && t0 < |sim.memory| && t1 < |sim.memory| && notb != t0 && notb != t1 && t0 != t1
    requires a != b && nota != b && sim.memory[nota] == NotW(sim.memory[a])
    requires notb != a && notb != b && notb != nota && t0 != a && t0 != b && t0 != nota && t1 != a && t1 != b
    requires t1 != nota
    requires z != notb && z != t0 && z != t1
    modifies sim
    ensures sim.Valid() && Kept1(old(sim.memory), sim.memory, {notb, t0, t1}, z)
    ensures sim.memory[z] == XorW(old(sim.memory)[a], old(sim.memory)[b])
    ensures sim.latency == old(sim.latency) + 8
  {
    hide Window;
    Not(sim, b, notb);
    Nor(sim, a, b, t0);
    Nor(sim, nota, notb, t1);
    Nor(sim, t0, t1, z);
    assert sim.memory[z] == XorW(old(sim.memory)[a], old(sim.memory)[b]);
  }

  /** z = XOR(a, b) in all partitions, with the complement of `a` given; `z` may be the cell of that complement. */
  method XorGiven(sim: ParallelSimulator, inter: IntermediateAllocator, a: nat, b: nat, z: nat, nota: nat)
    requires Ready(sim, inter) && |inter.free| >= 3 && Live(sim, inter, a) && Live(sim, inter, b)
    requires Live(sim, inter, z) && Live(sim, inter, nota)
    requires a != b && nota != b && sim.memory[nota] == NotW(sim.memory[a])
    modifies sim, inter
    ensures Ready(sim, inter) && inter.free == old(inter.free) && Kept1(old(sim.memory), sim.memory, inter.free, z)
    ensures sim.memory[z] == XorW(old(sim.memory)[a], old(sim.memory)[b])
    ensures sim.latency == old(sim.latency) + 8
  {
    hide Window, Tracks;
    var notb, t0, t1 := inter.Malloc3();
    XorGates(sim, a, b, z, nota, notb, t0, t1);
    inter.Free3(notb, t0, t1);
  }
}
