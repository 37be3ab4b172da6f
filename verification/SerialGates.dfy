/** The one-bit blocks of serial/AritPIM.py, each a short NOT/NOR program over scratch cells. */
module SerialGates {
  import opened Simulator
  import opened Allocator
  import opened Cells

  /** The four-NOR exclusive-nor that both halves of the full adder share;
      `v` may be the cell of `a`, which is read for the last time before `v` is written. */
  method XnorBlock(sim: SerialSimulator, a: nat, b: nat, n: nat, u: nat, v: nat, o: nat)
    requires a < |sim.memory| && b < |sim.memory| && n < |sim.memory|
    requires u < |sim.memory| && v < |sim.memory| && o < |sim.memory|
    requires a != b && n != a && n != b && n != u && n != v && n != o
    requires u != a && u != b && u != v && u != o && v != b && v != o
    modifies sim
    ensures |sim.memory| == |old(sim.memory)|
    ensures sim.memory[n] == !old(sim.memory[a] || sim.memory[b])
    ensures sim.memory[o] == old(sim.memory[a] == sim.memory[b])
    ensures forall c: nat | c < |sim.memory| && c != n && c != u && c != v && c != o ::
              sim.memory[c] == old(sim.memory)[c]
    ensures sim.latency == old(sim.latency) + 8
  {
    sim.Nor(a, b, n);
    sim.Nor(a, n, u);
    sim.Nor(b, n, v);
    sim.Nor(u, v, o);
  }

  /** serial/AritPIM.py, __fullAdder: nine NOR gates, 18 cycles. The outputs may be input cells. */
  method FullAdder(sim: SerialSimulator, inter: IntermediateAllocator, a: nat, b: nat, c: nat, s: nat, cout: nat)
    requires Ready(sim, inter) && |inter.free| >= 4
    requires Live(sim, inter, a) && Live(sim, inter, b) && Live(sim, inter, c)
    requires Live(sim, inter, s) && Live(sim, inter, cout)
    requires a != b && s != cout
    modifies sim, inter
    ensures Ready(sim, inter) && inter.free == old(inter.free)
    ensures Kept2(old(sim.memory), sim.memory, inter.free, s, cout)
    ensures Bit(sim.memory, s) + 2 * Bit(sim.memory, cout) ==
            old(Bit(sim.memory, a) + Bit(sim.memory, b) + Bit(sim.memory, c))
    ensures sim.latency == old(sim.latency) + 18
  {
    var t := inter.Malloc(4);
    var t0, t1, t2, t3 := t[0], t[1], t[2], t[3];
    XnorBlock(sim, a, b, t0, t1, t2, t3);
    XnorBlock(sim, t3, c, t1, t2, t3, s);
    sim.Nor(t0, t1, cout);
    inter.Free(t);
  }

  /** __fullSubtractor: the full adder on the complement of `b`; `a` and `b` may be one cell. */
  method FullSubtractor(sim: SerialSimulator, inter: IntermediateAllocator, a: nat, b: nat, c: nat, s: nat, cout: nat)
    requires Ready(sim, inter) && |inter.free| >= 5
    requires Live(sim, inter, a) && Live(sim, inter, b) && Live(sim, inter, c)
    requires Live(sim, inter, s) && Live(sim, inter, cout)
    requires s != cout
    modifies sim, inter
    ensures Ready(sim, inter) && inter.free == old(inter.free)
    ensures Kept2(old(sim.memory), sim.memory, inter.free, s, cout)
    ensures Bit(sim.memory, s) + 2 * Bit(sim.memory, cout) ==
            old(Bit(sim.memory, a) + 1 - Bit(sim.memory, b) + Bit(sim.memory, c))
    ensures sim.latency == old(sim.latency) + 20
  {
    var notb := inter.MallocCell();
    sim.Not(b, notb);
    FullAdder(sim, inter, a, notb, c, s, cout);
    inter.FreeCell(notb);
  }

  /** The five gates of __halfAdder; the carry is written before the sum, which reads only it and scratch. */
  method HalfAdderGates(sim: SerialSimulator, a: nat, b: nat, s: nat, cout: nat, t0: nat, t1: nat, t2: nat)
    requires a < |sim.memory| && b < |sim.memory| && s < |sim.memory| && cout < |sim.memory|
    requires t0 < |sim.memory| && t1 < |sim.memory| && t2 < |sim.memory|
    requires a != b && s != cout && t0 != t1 && t0 != t2 && t1 != t2
    requires a != t0 && a != t1 && a != t2 && b != t0 && b != t1 && b != t2
    requires s != t0 && s != t1 && s != t2 && cout != t0 && cout != t1 && cout != t2
    modifies sim
    ensures |sim.memory| == |old(sim.memory)|
    ensures sim.memory[s] == old(sim.memory[a] != sim.memory[b])
    ensures sim.memory[cout] == old(sim.memory[a] && sim.memory[b])
    ensures forall c: nat | c < |sim.memory| && c != t0 && c != t1 && c != t2 && c != s && c != cout ::
              sim.memory[c] == old(sim.memory)[c]
    ensures sim.latency == old(sim.latency) + 10
  {
    ghost var va, vb := sim.memory[a], sim.memory[b];
    sim.Nor(a, b, t0);
    sim.Not(a, t1);
    sim.Not(b, t2);
    assert sim.memory[t0] == !(va || vb) && sim.memory[t1] == !va && sim.memory[t2] == !vb;
    sim.Nor(t1, t2, cout);
    sim.Nor(t0, cout, s);
  }

  /** __halfAdder: ten cycles. */
  method HalfAdder(sim: SerialSimulator, inter: IntermediateAllocator, a: nat, b: nat, s: nat, cout: nat)
    requires Ready(sim, inter) && |inter.free| >= 3
    requires Live(sim, inter, a) && Live(sim, inter, b) && Live(sim, inter, s) && Live(sim, inter, cout)
    requires a != b && s != cout
    modifies sim, inter
    ensures Ready(sim, inter) && inter.free == old(inter.free)
    ensures Kept2(old(sim.memory), sim.memory, inter.free, s, cout)
    ensures Bit(sim.memory, s) + 2 * Bit(sim.memory, cout) == old(Bit(sim.memory, a) + Bit(sim.memory, b))
    ensures sim.latency == old(sim.latency) + 10
  {
    var t0, t1, t2 := inter.Malloc3();
    HalfAdderGates(sim, a, b, s, cout, t0, t1, t2);
    inter.Free3(t0, t1, t2);
  }

  /** __id, through a scratch complement. */
  method Id(sim: SerialSimulator, inter: IntermediateAllocator, a: nat, z: nat)
    requires Ready(sim, inter) && |inter.free| >= 1
    requires Live(sim, inter, a) && Live(sim, inter, z)
    modifies sim, inter
    ensures Ready(sim, inter) && inter.free == old(inter.free)
    ensures Kept1(old(sim.memory), sim.memory, inter.free, z)
    ensures sim.memory[z] == old(sim.memory[a])
    ensures sim.latency == old(sim.latency) + 4
  {
    var notz := inter.MallocCell();
    sim.Not(a, notz);
    sim.Not(notz, z);
    inter.FreeCell(notz);
  }

  /** __or; the output may be an input cell. */
  method Or(sim: SerialSimulator, inter: IntermediateAllocator, a: nat, b: nat, z: nat)
    requires Ready(sim, inter) && |inter.free| >= 1
    requires Live(sim, inter, a) && Live(sim, inter, b) && Live(sim, inter, z) && a != b
    modifies sim, inter
    ensures Ready(sim, inter) && inter.free == old(inter.free)
    ensures Kept1(old(sim.memory), sim.memory, inter.free, z)
    ensures sim.memory[z] == old(sim.memory[a] || sim.memory[b])
    ensures sim.latency == old(sim.latency) + 4
  {
    var notz := inter.MallocCell();
    sim.Nor(a, b, notz);
    sim.Not(notz, z);
    inter.FreeCell(notz);
  }

  /** The NOR gates of __xor once both complements are at hand. */
  method XorGates(sim: SerialSimulator, inter: IntermediateAllocator, a: nat, b: nat, nota: nat, notb: nat, z: nat)
    requires Ready(sim, inter) && |inter.free| >= 2
    requires Live(sim, inter, a) && Live(sim, inter, b) && Live(sim, inter, z)
    requires Live(sim, inter, nota) && Live(sim, inter, notb)
    requires a != b && nota != notb
    requires sim.memory[nota] == !sim.memory[a] && sim.memory[notb] == !sim.memory[b]
    modifies sim, inter
    ensures Ready(sim, inter) && inter.free == old(inter.free)
    ensures Kept1(old(sim.memory), sim.memory, inter.free, z)
    ensures sim.memory[z] == old(sim.memory[a] != sim.memory[b])
    ensures sim.latency == old(sim.latency) + 6
  {
    var t0, t1 := inter.Malloc2();
    sim.Nor(a, b, t0);
    sim.Nor(nota, notb, t1);
    sim.Nor(t0, t1, z);
    inter.Free2(t0, t1);
  }

  /** __xor given the complement of `b`: eight cycles. The output may be an input cell. */
  method XorGiven(sim: SerialSimulator, inter: IntermediateAllocator, a: nat, b: nat, z: nat, notb: nat)
    requires Ready(sim, inter) && |inter.free| >= 3
    requires Live(sim, inter, a) && Live(sim, inter, b) && Live(sim, inter, z) && a != b
    requires Live(sim, inter, notb) && sim.memory[notb] == !sim.memory[b]
    modifies sim, inter
    ensures Ready(sim, inter) && inter.free == old(inter.free)
    ensures Kept1(old(sim.memory), sim.memory, inter.free, z)
    ensures sim.memory[z] == old(sim.memory[a] != sim.memory[b])
    ensures sim.latency == old(sim.latency) + 8
  {
    var nota := inter.MallocCell();
    sim.Not(a, nota);
    XorGates(sim, inter, a, b, nota, notb, z);
    inter.FreeCell(nota);
  }

  /** __xor without complements at hand: ten cycles. */
  method Xor(sim: SerialSimulator, inter: IntermediateAllocator, a: nat, b: nat, z: nat)
    requires Ready(sim, inter) && |inter.free| >= 4
    requires Live(sim, inter, a) && Live(sim, inter, b) && Live(sim, inter, z) && a != b
    modifies sim, inter
    ensures Ready(sim, inter) && inter.free == old(inter.free)
    ensures Kept1(old(sim.memory), sim.memory, inter.free, z)
    ensures sim.memory[z] == old(sim.memory[a] != sim.memory[b])
    ensures sim.latency == old(sim.latency) + 10
  {
    var notb := inter.MallocCell();
    sim.Not(b, notb);
    XorGiven(sim, inter, a, b, z, notb);
    inter.FreeCell(notb);
  }

  /** __xor with the complement of the output wanted as well. */
  method XorAndNot(sim: SerialSimulator, inter: IntermediateAllocator, a: nat, b: nat, z: nat, notz: nat)
    requires Ready(sim, inter) && |inter.free| >= 4
    requires Live(sim, inter, a) && Live(sim, inter, b) && Live(sim, inter, z) && a != b
    requires Live(sim, inter, notz) && notz != z
    modifies sim, inter
    ensures Ready(sim, inter) && inter.free == old(inter.free)
    ensures Kept2(old(sim.memory), sim.memory, inter.free, z, notz)
    ensures sim.memory[z] == old(sim.memory[a] != sim.memory[b])
    ensures sim.memory[notz] == !sim.memory[z]
    ensures sim.latency == old(sim.latency) + 12
  {
    Xor(sim, inter, a, b, z);
    sim.Not(z, notz);
  }

  /** __mux with the complement of the condition given: six cycles. The output may be a data input. */
  method MuxGiven(sim: SerialSimulator, inter: IntermediateAllocator, a: nat, b: nat, c: nat, z: nat, nota: nat)
    requires Ready(sim, inter) && |inter.free| >= 2
    requires Live(sim, inter, a) && Live(sim, inter, b) && Live(sim, inter, c) && Live(sim, inter, z)
    requires Live(sim, inter, nota) && sim.memory[nota] == !sim.memory[a]
    requires b != nota && c != a
    modifies sim, inter
    ensures Ready(sim, inter) && inter.free == old(inter.free)
    ensures Kept1(old(sim.memory), sim.memory, inter.free, z)
    ensures sim.memory[z] == old(if sim.memory[a] then sim.memory[b] else sim.memory[c])
    ensures sim.latency == old(sim.latency) + 6
  {
    var t0, t1 := inter.Malloc2();
    sim.Nor(b, nota, t0);
    sim.Nor(c, a, t1);
    sim.Nor(t0, t1, z);
    inter.Free2(t0, t1);
  }

  /** __mux without the complement of the condition at hand: eight cycles. */
  method Mux(sim: SerialSimulator, inter: IntermediateAllocator, a: nat, b: nat, c: nat, z: nat)
    requires Ready(sim, inter) && |inter.free| >= 3
    requires Live(sim, inter, a) && Live(sim, inter, b) && Live(sim, inter, c) && Live(sim, inter, z) && c != a
    modifies sim, inter
    ensures Ready(sim, inter) && inter.free == old(inter.free)
    ensures Kept1(old(sim.memory), sim.memory, inter.free, z)
    ensures sim.memory[z] == old(if sim.memory[a] then sim.memory[b] else sim.memory[c])
    ensures sim.latency == old(sim.latency) + 8
  {
    var nota := inter.MallocCell();
    sim.Not(a, nota);
    MuxGiven(sim, inter, a, b, c, z, nota);
    inter.FreeCell(nota);
  }

  /** The De Morgan core of __reduceOR: `notz` collects the complements by X-MAGIC, `z` inverts it. */
  method ReduceOrInto(sim: SerialSimulator, x: seq<nat>, z: nat, notz: nat)
    requires z < |sim.memory| && notz < |sim.memory| && z != notz
    requires forall i | 0 <= i < |x| :: x[i] < |sim.memory| && x[i] != notz
    modifies sim
    ensures |sim.memory| == |old(sim.memory)|
    ensures forall c: nat | c < |sim.memory| && c != z && c != notz :: sim.memory[c] == old(sim.memory)[c]
    ensures sim.memory[z] == (Val(old(sim.memory), x) != 0)
    ensures sim.memory[notz] == (Val(old(sim.memory), x) == 0)
    ensures sim.latency == old(sim.latency) + 3 + |x|
  {
    ghost var m := sim.memory;
    sim.Init1(notz);
    for i := 0 to |x|
      invariant |sim.memory| == |m| && sim.latency == old(sim.latency) + 1 + i
      invariant forall c: nat | c < |m| && c != notz :: sim.memory[c] == m[c]
      invariant sim.memory[notz] == (ValN(m, x, i) == 0)
    {
      sim.NotInto(x[i], notz);
    }
    sim.Not(notz, z);
  }

  /** __reduceOR with its complement in scratch. */
  method ReduceOr(sim: SerialSimulator, inter: IntermediateAllocator, x: seq<nat>, z: nat)
    requires Ready(sim, inter) && |inter.free| >= 1
    requires LiveReg(sim, inter, x) && Live(sim, inter, z)
    modifies sim, inter
    ensures Ready(sim, inter) && inter.free == old(inter.free)
    ensures Kept1(old(sim.memory), sim.memory, inter.free, z)
    ensures sim.memory[z] == (Val(old(sim.memory), x) != 0)
    ensures sim.latency == old(sim.latency) + 3 + |x|
  {
    var notz := inter.MallocCell();
    ghost var m := sim.memory;
    ReduceOrInto(sim, x, z, notz);
    inter.FreeCell(notz);
  }
}
