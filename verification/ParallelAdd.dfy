/** fixedAddition and fixedSubtraction of parallel/AritPIM.py: a parallel-prefix adder with one bit in each
    partition. */
module ParallelAdd {
  import opened Numbers
  import opened Simulator
  import opened Allocator
  import opened Words
  import opened ParallelSim
  import opened ParallelGates
  import opened Prefix

  /** The optional input carry: absent, the constant 1, or a cell of some partition. */
  datatype CarryIn = NoCarry | OneCarry | CarryAt(cell: nat, partition: nat)

  /** Cycles that an input carry costs. */
  function InputCycles(cin: CarryIn): nat {
    match cin
    case NoCarry => 0
    case OneCarry => 1
    case CarryAt(_, _) => 5
  }

  /** The optional output carry. */
  datatype CarryOut = NoOutput | OutputAt(cell: nat, partition: nat)

  predicate CarryBit(m: seq<Word>, cin: CarryIn) {
    match cin
    case NoCarry => false
    case OneCarry => true
    case CarryAt(c, p) => c < |m| && p < |m[c]| && m[c][p]
  }

  /** The three words of the prefix network are distinct addresses. */
  ghost predicate Three(sim: ParallelSimulator, pb: nat, np: nat, ng: nat)
    reads sim
  {
    sim.Valid() && pb < |sim.memory| && np < |sim.memory| && ng < |sim.memory| && pb != np && pb != ng && np != ng
  }

  lemma SameLegal(a: nat, o: nat, start: nat, stop: nat, stride: nat)
    requires stride >= 1 && start < stop && a != o
    ensures Legal([a], o, Arange(start, stop, stride), Arange(start, stop, stride))
  {
    ArangeLegal([a], o, start, stop, start, stop, stride);
  }

  /** NOT within the partitions of a level. */
  method NotSame(sim: ParallelSimulator, a: nat, o: nat, b: nat, h: nat)
    requires sim.Valid() && a < |sim.memory| && o < |sim.memory| && a != o && 1 <= h <= b < sim.n
    modifies sim
    ensures sim.Valid() && Only(old(sim.memory), sim.memory, o)
    ensures forall p {:trigger sim.memory[o][p]} | 0 <= p < sim.n :: sim.memory[o][p] ==
              if p in Arange(b, sim.n, 2 * h) then old(sim.memory)[o][p] && !old(sim.memory)[a][p]
              else old(sim.memory)[o][p]
    ensures sim.latency == old(sim.latency) + 1
  {
    var outs := Arange(b, sim.n, 2 * h);
    SameLegal(a, o, b, sim.n, 2 * h);
    NotOn(sim, a, o, outs, outs);
  }

  /** The partitions that gates of reach `h` write. */
  lemma LeapsUp(b: nat, h: nat, n: nat)
    requires 1 <= h <= b < n
    ensures var ins, outs := Arange(b - h, n - h, 2 * h), Arange(b, n, 2 * h);
            && |ins| >= 1 && |outs| >= 1 && Distance(ins[0], outs[0]) == h
            && forall p {:trigger p in outs} :: p in outs ==> h <= p < n
  {
    forall p {:trigger p in Arange(b, n, 2 * h)} | p in Arange(b, n, 2 * h)
      ensures h <= p < n
    {
      var k := ArangeIndex(b, n, 2 * h, p);
    }
  }

  /** NOT from the partitions `h` below those of a level. */
  method NotBelow(sim: ParallelSimulator, a: nat, o: nat, b: nat, h: nat)
    requires sim.Valid() && a < |sim.memory| && o < |sim.memory| && 1 <= h <= b < sim.n
    modifies sim
    ensures sim.Valid() && Only(old(sim.memory), sim.memory, o)
    ensures forall p {:trigger sim.memory[o][p]} | 0 <= p < sim.n :: sim.memory[o][p] ==
              if h <= p && p in Arange(b, sim.n, 2 * h) then old(sim.memory)[o][p] && !old(sim.memory)[a][p - h]
              else old(sim.memory)[o][p]
    ensures sim.latency == old(sim.latency) + 1
  {
    hide Window, Arange, Legal;
    var ins, outs := Arange(b - h, sim.n - h, 2 * h), Arange(b, sim.n, 2 * h);
    ArangeLegal([a], o, b - h, sim.n - h, b, sim.n, 2 * h);
    LeapsUp(b, h, sim.n);
    sim.Gate(NOT, [a], o, ins, outs);
  }

  /** The generate half of a level. */
  method CombineGen(sim: ParallelSimulator, pb: nat, np: nat, ng: nat, b: nat, h: nat)
    requires Three(sim, pb, np, ng) && 1 <= h <= b < sim.n
    modifies sim
    ensures Three(sim, pb, np, ng) && |sim.memory| == |old(sim.memory)|
    ensures forall a {:trigger sim.memory[a]} | 0 <= a < |sim.memory| && a != pb && a != ng ::
              sim.memory[a] == old(sim.memory)[a]
    ensures forall p {:trigger sim.memory[ng][p]} {:trigger sim.memory[pb][p]} | 0 <= p < sim.n ::
              if h <= p && p in Arange(b, sim.n, 2 * h) then
                sim.memory[ng][p] == (old(sim.memory)[ng][p] &&
                                      !(old(sim.memory)[pb][p] && !old(sim.memory)[ng][p - h]))
              else sim.memory[ng][p] == old(sim.memory)[ng][p] && sim.memory[pb][p] == old(sim.memory)[pb][p]
    ensures sim.latency == old(sim.latency) + 2
  {
    NotBelow(sim, ng, pb, b, h);
    NotSame(sim, pb, ng, b, h);
    assert forall p | 0 <= p < sim.n && p in Arange(b, sim.n, 2 * h) :: h <= p;
  }

  /** The propagate half of a level. */
  method CombineProp(sim: ParallelSimulator, pb: nat, np: nat, ng: nat, b: nat, h: nat)
    requires Three(sim, pb, np, ng) && 1 <= h <= b < sim.n
    modifies sim
    ensures Three(sim, pb, np, ng) && |sim.memory| == |old(sim.memory)|
    ensures forall a {:trigger sim.memory[a]} | 0 <= a < |sim.memory| && a != pb && a != np ::
              sim.memory[a] == old(sim.memory)[a]
    ensures forall p {:trigger sim.memory[np][p]} {:trigger sim.memory[pb][p]} | 0 <= p < sim.n ::
              if h <= p && p in Arange(b, sim.n, 2 * h) then
                sim.memory[pb][p] == (!old(sim.memory)[np][p] && !old(sim.memory)[np][p - h]) &&
                sim.memory[np][p] == !sim.memory[pb][p]
              else sim.memory[np][p] == old(sim.memory)[np][p] && sim.memory[pb][p] == old(sim.memory)[pb][p]
    ensures sim.latency == old(sim.latency) + 5
  {
    InitOn(sim, true, pb, Arange(b, sim.n, 2 * h));
    NotSame(sim, np, pb, b, h);
    NotBelow(sim, np, pb, b, h);
    InitOn(sim, true, np, Arange(b, sim.n, 2 * h));
    NotSame(sim, pb, np, b, h);
    assert forall p | 0 <= p < sim.n && p in Arange(b, sim.n, 2 * h) :: h <= p;
  }

  /** One level of the prefix network, seven cycles. */
  method Combine(sim: ParallelSimulator, pb: nat, np: nat, ng: nat, b: nat, h: nat)
    requires Three(sim, pb, np, ng) && 1 <= h <= b < sim.n
    modifies sim
    ensures Three(sim, pb, np, ng) && |sim.memory| == |old(sim.memory)|
    ensures forall a {:trigger sim.memory[a]} | 0 <= a < |sim.memory| && a != pb && a != np && a != ng ::
              sim.memory[a] == old(sim.memory)[a]
    ensures var outs := Arange(b, sim.n, 2 * h);
            && (forall k {:trigger outs[k]} | 0 <= k < |outs| :: h <= outs[k] < sim.n)
            && Combined(old(sim.memory)[ng], old(sim.memory)[np], old(sim.memory)[pb], sim.memory[ng], sim.memory[np],
                        sim.memory[pb], outs, h)
    ensures sim.latency == old(sim.latency) + 7
  {
    CombineGen(sim, pb, np, ng, b, h);
    CombineProp(sim, pb, np, ng, b, h);
  }

  /** The upward sweep: position `j` comes to hold the run of the largest power of two that divides `j`. */
  method SweepUp(sim: ParallelSimulator, pb: nat, np: nat, ng: nat, ghost g: Word, ghost p: Word)
    requires Three(sim, pb, np, ng) && sim.n >= 3 && |g| == |p| == sim.n
    requires UpInv(sim.memory[ng], sim.memory[np], sim.memory[pb], g, p, 0)
    modifies sim
    ensures Three(sim, pb, np, ng) && |sim.memory| == |old(sim.memory)|
    ensures forall a {:trigger sim.memory[a]} | 0 <= a < |sim.memory| && a != pb && a != np && a != ng ::
              sim.memory[a] == old(sim.memory)[a]
    ensures CeilLog2(sim.n) >= 1 && UpInv(sim.memory[ng], sim.memory[np], sim.memory[pb], g, p, CeilLog2(sim.n) - 1)
    ensures sim.latency == old(sim.latency) + 7 * (CeilLog2(sim.n) - 1)
  {
    var l := CeilLog2(sim.n);
    for i := 0 to l - 1
      invariant Three(sim, pb, np, ng) && |sim.memory| == |old(sim.memory)|
      invariant forall a {:trigger sim.memory[a]} | 0 <= a < |sim.memory| && a != pb && a != np && a != ng ::
                sim.memory[a] == old(sim.memory)[a]
      invariant UpInv(sim.memory[ng], sim.memory[np], sim.memory[pb], g, p, i)
      invariant sim.latency == old(sim.latency) + 7 * i
    {
      hide UpInv, Combined;
      Pow2Mono(i + 1, l - 1);
      Pow2Next(i);
      ghost var m := sim.memory;
      Combine(sim, pb, np, ng, Pow2(i + 1), Pow2(i));
      UpStep(m[ng], m[np], m[pb], sim.memory[ng], sim.memory[np], sim.memory[pb], g, p, i);
    }
  }

  /** The downward sweep: afterwards every position holds the whole prefix. */
  method SweepDown(sim: ParallelSimulator, pb: nat, np: nat, ng: nat, ghost g: Word, ghost p: Word)
    requires Three(sim, pb, np, ng) && sim.n >= 3 && |g| == |p| == sim.n && CeilLog2(sim.n) >= 1
    requires UpInv(sim.memory[ng], sim.memory[np], sim.memory[pb], g, p, CeilLog2(sim.n) - 1)
    modifies sim
    ensures Three(sim, pb, np, ng) && |sim.memory| == |old(sim.memory)|
    ensures forall a {:trigger sim.memory[a]} | 0 <= a < |sim.memory| && a != pb && a != np && a != ng ::
              sim.memory[a] == old(sim.memory)[a]
    ensures forall j {:trigger sim.memory[ng][j]} | 0 <= j < sim.n :: sim.memory[ng][j] == !Gen(g, p, 0, j)
    ensures sim.latency == old(sim.latency) + 7 * CeilLog2(sim.n)
  {
    var l := CeilLog2(sim.n);
    DownBegins(sim.memory[ng], sim.memory[np], sim.memory[pb], g, p, l - 1);
    for i := 0 to l
      invariant Three(sim, pb, np, ng) && |sim.memory| == |old(sim.memory)|
      invariant forall a {:trigger sim.memory[a]} | 0 <= a < |sim.memory| && a != pb && a != np && a != ng ::
                sim.memory[a] == old(sim.memory)[a]
      invariant DownInv(sim.memory[ng], sim.memory[np], sim.memory[pb], g, p, l - 1, l - i)
      invariant sim.latency == old(sim.latency) + 7 * i
    {
      hide DownInv, Combined;
      var k := l - i - 1;
      Pow2Mono(k, l - 1);
      Pow2Next(k);
      ghost var m := sim.memory;
      Combine(sim, pb, np, ng, Pow2(k), Pow2(k));
      DownStep(m[ng], m[np], m[pb], sim.memory[ng], sim.memory[np], sim.memory[pb], g, p, l - 1, k);
    }
    forall j | 0 <= j < sim.n
      ensures sim.memory[ng][j] == !Gen(g, p, 0, j)
    {
      PrefixDone(sim.memory[ng], sim.memory[np], sim.memory[pb], g, p, l - 1, j);
    }
  }

  /** The five gates that fold an input carry into the first generate bit, through the cell `temp`. */
  method FoldGates(sim: ParallelSimulator, np: nat, ng: nat, cell: nat, partition: nat, notcin: nat, temp: nat)
    requires sim.Valid() && sim.n >= 1 && partition < sim.n && np < |sim.memory| && ng < |sim.memory|
    requires cell < |sim.memory|
    requires notcin < |sim.memory| && temp < |sim.memory| && np != ng && notcin != np && notcin != ng
    requires notcin != cell && ng != cell
    requires temp != np && temp != ng && temp != cell && temp != notcin
    modifies sim
    ensures sim.Valid() && Kept2(old(sim.memory), sim.memory, {temp}, ng, notcin)
    ensures sim.memory[notcin][0] == !old(sim.memory)[cell][partition]
    ensures sim.memory[ng] == old(sim.memory)[ng][0 := old(sim.memory)[ng][0] &&
                                                  !(!old(sim.memory)[np][0] && old(sim.memory)[cell][partition])]
    ensures sim.latency == old(sim.latency) + 5
  {
    hide Window;
    InitAt(sim, true, notcin, 0);
    NotAt(sim, cell, partition, notcin, 0);
    InitAt(sim, true, temp, 0);
    NorAt(sim, np, notcin, 0, temp, 0);
    NotAt(sim, temp, 0, ng, 0);
  }

  /** The complement of the input carry, and the carry folded into the first generate bit. */
  method FoldCell(sim: ParallelSimulator, inter: IntermediateAllocator, np: nat, ng: nat, cell: nat, partition: nat,
                  notcin: nat)
    requires Ready(sim, inter) && |inter.free| >= 1 && Live(sim, inter, np) && Live(sim, inter, ng)
    requires Live(sim, inter, notcin) && Live(sim, inter, cell)
    requires partition < sim.n && np != ng && notcin != np && notcin != ng && notcin != cell && ng != cell
    modifies sim, inter
    ensures Ready(sim, inter) && inter.free == old(inter.free)
    ensures Kept2(old(sim.memory), sim.memory, inter.free, ng, notcin)
    ensures sim.memory[notcin][0] == !old(sim.memory)[cell][partition]
    ensures sim.memory[ng] == old(sim.memory)[ng][0 := old(sim.memory)[ng][0] &&
                                                  !(!old(sim.memory)[np][0] && old(sim.memory)[cell][partition])]
    ensures sim.latency == old(sim.latency) + 5
  {
    hide Window, Tracks;
    var temp := inter.MallocCell();
    FoldGates(sim, np, ng, cell, partition, notcin, temp);
    inter.FreeCell(temp);
  }

  /** Carry in and propagate at the lowest partition set its generate bit. */
  method Fold(sim: ParallelSimulator, inter: IntermediateAllocator, pb: nat, np: nat, ng: nat, cin: CarryIn,
              notcin: nat)
    requires Ready(sim, inter) && |inter.free| >= 1 && Live(sim, inter, pb) && Live(sim, inter, np)
    requires Live(sim, inter, ng)
    requires pb != np && pb != ng && np != ng && sim.memory[pb] == NotW(sim.memory[np])
    requires cin.CarryAt? ==> Live(sim, inter, cin.cell) && cin.partition < sim.n && Live(sim, inter, notcin)
    requires cin.CarryAt? ==> notcin != pb && notcin != np && notcin != ng && notcin != cin.cell && ng != cin.cell
    modifies sim, inter
    ensures Ready(sim, inter) && inter.free == old(inter.free)
    ensures Kept2(old(sim.memory), sim.memory, inter.free, ng, if cin.CarryAt? then notcin else ng)
    ensures cin.CarryAt? ==> sim.memory[notcin][0] == !old(CarryBit(sim.memory, cin))
    ensures sim.memory[ng] == old(sim.memory)[ng][0 := old(sim.memory)[ng][0] &&
                                                  !(old(sim.memory)[pb][0] && old(CarryBit(sim.memory, cin)))]
    ensures sim.latency == old(sim.latency) + InputCycles(cin)
  {
    match cin {
      case NoCarry =>
      case OneCarry => NotAt(sim, pb, 0, ng, 0);
      case CarryAt(cell, partition) => FoldCell(sim, inter, np, ng, cell, partition, notcin);
    }
  }

  /** The propagate and generate words that the sweeps start from. */
  function PropWord(x: Word, y: Word): (r: Word)
    requires |x| == |y|
    ensures |r| == |x| && forall k {:trigger r[k]} | 0 <= k < |x| :: r[k] == (x[k] || y[k])
  {
    seq(|x|, k requires 0 <= k < |x| => x[k] || y[k])
  }

  function GenWord(x: Word, y: Word, cin: bool): (r: Word)
    requires |x| == |y|
    ensures |r| == |x|
    ensures forall k {:trigger r[k]} | 0 <= k < |x| :: r[k] == ((x[k] && y[k]) || (k == 0 && cin && (x[k] || y[k])))
  {
    seq(|x|, k requires 0 <= k < |x| => (x[k] && y[k]) || (k == 0 && cin && (x[k] || y[k])))
  }

  lemma SweepStart(ng: Word, np: Word, pb: Word, x: Word, y: Word, cin: bool)
    requires |ng| == |np| == |pb| == |x| == |y| >= 1 && np == NorW(x, y) && pb == NotW(np)
    requires ng == NandW(x, y)[0 := NandW(x, y)[0] && !(pb[0] && cin)]
    ensures UpInv(ng, np, pb, GenWord(x, y, cin), PropWord(x, y), 0)
  {
    var g, p := GenWord(x, y, cin), PropWord(x, y);
    forall j {:trigger Holds(ng, np, pb, g, p, j, RunStart(0, j))} | 0 <= j < |g|
      ensures Holds(ng, np, pb, g, p, j, RunStart(0, j))
    {
      assert RunStart(0, j) == j;
    }
  }

  /** Propagate and generate bits with the carry folded in. */
  method GenerateBits(sim: ParallelSimulator, inter: IntermediateAllocator, x: nat, y: nat, pb: nat, np: nat, ng: nat,
                      cin: CarryIn, notcin: nat)
    requires Ready(sim, inter) && |inter.free| >= 2 && Live(sim, inter, x) && Live(sim, inter, y) && x != y
    requires Live(sim, inter, pb) && Live(sim, inter, np) && Live(sim, inter, ng) && pb != np && pb != ng && np != ng
    requires x != pb && x != np && x != ng && y != pb && y != np && y != ng
    requires cin.CarryAt? ==> Live(sim, inter, cin.cell) && cin.partition < sim.n && Live(sim, inter, notcin)
    requires cin.CarryAt? ==> notcin != pb && notcin != np && notcin != ng && notcin != cin.cell && ng != cin.cell
    requires cin.CarryAt? ==> pb != cin.cell && np != cin.cell && notcin != x && notcin != y
    modifies sim, inter
    ensures Ready(sim, inter) && inter.free == old(inter.free)
    ensures Kept(old(sim.memory), sim.memory, inter.free, [pb, np, ng] + if cin.CarryAt? then [notcin] else [])
    ensures cin.CarryAt? ==> sim.memory[notcin][0] == !old(CarryBit(sim.memory, cin))
    ensures var xw, yw, c := old(sim.memory)[x], old(sim.memory)[y], old(CarryBit(sim.memory, cin));
            UpInv(sim.memory[ng], sim.memory[np], sim.memory[pb], GenWord(xw, yw, c), PropWord(xw, yw), 0)
    ensures sim.latency == old(sim.latency) + 12 + InputCycles(cin)
  {
    hide UpInv;
    ghost var m := sim.memory;
    OrAndNot(sim, x, y, pb, np);
    Nand(sim, inter, x, y, ng);
    ghost var m1 := sim.memory;
    assert CarryBit(m1, cin) == CarryBit(m, cin);
    Fold(sim, inter, pb, np, ng, cin, notcin);
    SweepStart(sim.memory[ng], sim.memory[np], sim.memory[pb], m[x], m[y], CarryBit(m, cin));
  }

  /** Complemented prefix generates are complemented carries. */
  lemma PrefixesCarry(xw: Word, yw: Word, c: bool, ng: Word)
    requires |xw| == |yw| == |ng|
    requires forall j {:trigger ng[j]} | 0 <= j < |ng| :: ng[j] == !Gen(GenWord(xw, yw, c), PropWord(xw, yw), 0, j)
    ensures forall j {:trigger ng[j]} | 0 <= j < |ng| :: ng[j] == !CarryInto(xw, yw, c, j + 1)
  {
    hide CarryInto;
    forall j {:trigger ng[j]} | 0 <= j < |ng|
      ensures ng[j] == !CarryInto(xw, yw, c, j + 1)
    {
      GenIsCarry(xw, yw, c, GenWord(xw, yw, c), PropWord(xw, yw), j);
    }
  }

  /** Propagate, generate and both sweeps, with the propagate cells given. */
  method Carries(sim: ParallelSimulator, inter: IntermediateAllocator, x: nat, y: nat, pb: nat, np: nat, ng: nat,
                 cin: CarryIn, notcin: nat)
    requires Ready(sim, inter) && |inter.free| >= 2 && Live(sim, inter, x) && Live(sim, inter, y) && x != y
    requires Live(sim, inter, pb) && Live(sim, inter, np) && Live(sim, inter, ng) && pb != np && pb != ng && np != ng
    requires x != pb && x != np && x != ng && y != pb && y != np && y != ng
    requires cin.CarryAt? ==> Live(sim, inter, cin.cell) && cin.partition < sim.n && Live(sim, inter, notcin)
    requires cin.CarryAt? ==> notcin != pb && notcin != np && notcin != ng && notcin != cin.cell && ng != cin.cell
    requires cin.CarryAt? ==> pb != cin.cell && np != cin.cell && notcin != x && notcin != y
    modifies sim, inter
    ensures Ready(sim, inter) && inter.free == old(inter.free)
    ensures Kept(old(sim.memory), sim.memory, inter.free, [pb, np, ng] + if cin.CarryAt? then [notcin] else [])
    ensures cin.CarryAt? ==> sim.memory[notcin][0] == !old(CarryBit(sim.memory, cin))
    ensures var xw, yw, c := old(sim.memory)[x], old(sim.memory)[y], old(CarryBit(sim.memory, cin));
            forall j {:trigger sim.memory[ng][j]} | 0 <= j < sim.n :: sim.memory[ng][j] == !CarryInto(xw, yw, c, j + 1)
    ensures sim.latency == old(sim.latency) + 14 * CeilLog2(sim.n) + 5 + InputCycles(cin)
  {
    hide UpInv, CarryInto, Window, Tracks, Gen, GenWord, PropWord;
    ghost var m := sim.memory;
    GenerateBits(sim, inter, x, y, pb, np, ng, cin, notcin);
    ghost var c := CarryBit(m, cin);
    ghost var g, p := GenWord(m[x], m[y], c), PropWord(m[x], m[y]);
    SweepUp(sim, pb, np, ng, g, p);
    SweepDown(sim, pb, np, ng, g, p);
    PrefixesCarry(m[x], m[y], c, sim.memory[ng]);
  }

  /** Cycles that the carry ports add. */
  function PortCycles(cin: CarryIn, cout: CarryOut): nat {
    InputCycles(cin) + if cout.NoOutput? then 0 else 2
  }

  /** The carries moved one partition up, the input carry at the bottom. */
  method ShiftCarries(sim: ParallelSimulator, ng: nat, carry: nat, cin: CarryIn, notcin: nat, ghost c: bool)
    requires sim.Valid() && sim.n >= 3 && ng < |sim.memory| && carry < |sim.memory| && ng != carry
    requires match cin case NoCarry => !c case OneCarry => c
                       case CarryAt(_, _) => notcin < |sim.memory| && notcin != carry && sim.memory[notcin][0] == !c
    modifies sim
    ensures sim.Valid() && Only(old(sim.memory), sim.memory, carry)
    ensures forall k {:trigger sim.memory[carry][k]} | 0 <= k < sim.n ::
              sim.memory[carry][k] == if k == 0 then c else !old(sim.memory)[ng][k - 1]
    ensures sim.latency == old(sim.latency) + 4
  {
    Init(sim, true, carry);
    match cin {
      case NoCarry => InitAt(sim, false, carry, 0);
      case OneCarry => InitAt(sim, true, carry, 0);
      case CarryAt(_, _) => NotAt(sim, notcin, 0, carry, 0);
    }
    NotShiftUp(sim, ng, carry);
  }

  method OutputCarry(sim: ParallelSimulator, ng: nat, cout: CarryOut)
    requires sim.Valid() && sim.n >= 3 && ng < |sim.memory|
    requires (cout.OutputAt? ==> cout.cell < |sim.memory| && cout.partition < sim.n && cout.cell != ng)
    modifies sim
    ensures sim.Valid() && |sim.memory| == |old(sim.memory)|
    ensures forall a {:trigger sim.memory[a]} | 0 <= a < |sim.memory| && (cout.NoOutput? || a != cout.cell) ::
              sim.memory[a] == old(sim.memory)[a]
    ensures cout.OutputAt? ==>
              sim.memory[cout.cell] == old(sim.memory)[cout.cell][cout.partition := !old(sim.memory)[ng][sim.n - 1]]
    ensures sim.latency == old(sim.latency) + if cout.NoOutput? then 0 else 2
  {
    if cout.OutputAt? {
      InitAt(sim, true, cout.cell, cout.partition);
      NotAt(sim, ng, sim.n - 1, cout.cell, cout.partition);
    }
  }

  /** z = x XOR y XOR carries. */
  method SumBits(sim: ParallelSimulator, inter: IntermediateAllocator, x: nat, y: nat, z: nat, carry: nat)
    requires Ready(sim, inter) && |inter.free| >= 3 && Live(sim, inter, x) && Live(sim, inter, y)
    requires Live(sim, inter, z) && Live(sim, inter, carry)
    requires x != y && z != carry
    modifies sim, inter
    ensures Ready(sim, inter) && inter.free == old(inter.free) && Kept1(old(sim.memory), sim.memory, inter.free, z)
    ensures forall k {:trigger sim.memory[z][k]} | 0 <= k < sim.n ::
              sim.memory[z][k] == ((old(sim.memory)[x][k] != old(sim.memory)[y][k]) != old(sim.memory)[carry][k])
    ensures sim.latency == old(sim.latency) + 16
  {
    Xnor(sim, inter, x, y, z);
    Xnor(sim, inter, z, carry, z);
  }

  /** The addresses of an addition. */
  ghost predicate AddPre(sim: ParallelSimulator, inter: IntermediateAllocator, x: nat, y: nat, z: nat, cin: CarryIn,
                         cout: CarryOut)
    reads sim, inter
  {
    && Ready(sim, inter) && Live(sim, inter, x) && Live(sim, inter, y) && Live(sim, inter, z) && x != y
    && (cin.CarryAt? ==> Live(sim, inter, cin.cell) && cin.partition < sim.n)
    && (cout.OutputAt? ==> Live(sim, inter, cout.cell) && cout.partition < sim.n)
    && (cout.OutputAt? ==> cout.cell != x && cout.cell != y && cout.cell != z)
  }

  function OutCells(z: nat, cout: CarryOut): seq<nat> {
    if cout.NoOutput? then [z] else [z, cout.cell]
  }

  /** What an addition leaves: sum and output carry. */
  ghost predicate Adds(m: seq<Word>, m': seq<Word>, x: nat, y: nat, z: nat, cin: CarryIn, cout: CarryOut, n: nat)
    requires x < |m| == |m'| && y < |m| && z < |m| && |m[x]| == |m[y]| == |m'[z]| == n
    requires cout.OutputAt? ==> cout.cell < |m| && cout.partition < |m'[cout.cell]| && cout.partition < |m[cout.cell]|
  {
    var c := CarryInto(m[x], m[y], CarryBit(m, cin), n);
    && Num(m'[z]) + (if c then Pow2(n) else 0) == Num(m[x]) + Num(m[y]) + BitOf(CarryBit(m, cin))
    && (cout.OutputAt? ==> m'[cout.cell] == m[cout.cell][cout.partition := c])
  }

  lemma AddsUp(m: seq<Word>, m': seq<Word>, x: nat, y: nat, z: nat, cin: CarryIn, cout: CarryOut, n: nat, carry: Word)
    requires x < |m| == |m'| && y < |m| && z < |m| && |m[x]| == |m[y]| == |m'[z]| == |carry| == n
    requires forall k {:trigger carry[k]} | 0 <= k < n :: carry[k] == CarryInto(m[x], m[y], CarryBit(m, cin), k)
    requires forall k {:trigger m'[z][k]} | 0 <= k < n :: m'[z][k] == ((m[x][k] != m[y][k]) != carry[k])
    requires cout.OutputAt? ==> cout.cell < |m| && cout.partition < |m'[cout.cell]| && cout.partition < |m[cout.cell]|
    requires cout.OutputAt? ==>
               m'[cout.cell] == m[cout.cell][cout.partition := CarryInto(m[x], m[y], CarryBit(m, cin), n)]
    ensures Adds(m, m', x, y, z, cin, cout, n)
  {
    hide NumN, Pow2, CarryInto;
    assert forall k {:trigger m'[z][k]} | 0 <= k < n ::
             m'[z][k] == ((m[x][k] != m[y][k]) != CarryInto(m[x], m[y], CarryBit(m, cin), k));
    RippleSum(m[x], m[y], m'[z], CarryBit(m, cin), n);
  }

  /** The propagate cells around `Carries`. */
  method PrefixCarries(sim: ParallelSimulator, inter: IntermediateAllocator, x: nat, y: nat, ng: nat, cin: CarryIn,
                       notcin: nat)
    requires Ready(sim, inter) && |inter.free| >= 4 && Live(sim, inter, x) && Live(sim, inter, y) && x != y
    requires Live(sim, inter, ng) && x != ng && y != ng
    requires cin.CarryAt? ==> Live(sim, inter, cin.cell) && cin.partition < sim.n && Live(sim, inter, notcin)
    requires cin.CarryAt? ==> notcin != ng && notcin != cin.cell && ng != cin.cell && notcin != x && notcin != y
    modifies sim, inter
    ensures Ready(sim, inter) && inter.free == old(inter.free)
    ensures Kept(old(sim.memory), sim.memory, inter.free, [ng] + if cin.CarryAt? then [notcin] else [])
    ensures cin.CarryAt? ==> sim.memory[notcin][0] == !old(CarryBit(sim.memory, cin))
    ensures var xw, yw, c := old(sim.memory)[x], old(sim.memory)[y], old(CarryBit(sim.memory, cin));
            forall j {:trigger sim.memory[ng][j]} | 0 <= j < sim.n :: sim.memory[ng][j] == !CarryInto(xw, yw, c, j + 1)
    ensures sim.latency == old(sim.latency) + 14 * CeilLog2(sim.n) + 5 + InputCycles(cin)
  {
    hide CarryInto;
    var pb, np := inter.Malloc2();
    Carries(sim, inter, x, y, pb, np, ng, cin, notcin);
    inter.Free2(pb, np);
  }

  /** The carry out of every partition in `ng`, complemented, and the carry into every partition in `carry`. */
  method CarryWords(sim: ParallelSimulator, inter: IntermediateAllocator, x: nat, y: nat, cin: CarryIn, notcin: nat,
                    ng: nat, carry: nat)
    requires Ready(sim, inter) && |inter.free| >= 4 && Live(sim, inter, x) && Live(sim, inter, y) && x != y
    requires Live(sim, inter, ng) && Live(sim, inter, carry) && ng != carry && ng != x && ng != y && carry != x
    requires carry != y
    requires cin.CarryAt? ==> Live(sim, inter, cin.cell) && cin.partition < sim.n && ng != cin.cell
    requires cin.CarryAt? ==> carry != cin.cell && Live(sim, inter, notcin) && notcin != ng && notcin != carry
    requires cin.CarryAt? ==> notcin != cin.cell && notcin != x && notcin != y
    modifies sim, inter
    ensures Ready(sim, inter) && inter.free == old(inter.free)
    ensures Kept(old(sim.memory), sim.memory, inter.free, [ng, carry] + if cin.CarryAt? then [notcin] else [])
    ensures var xw, yw, c := old(sim.memory)[x], old(sim.memory)[y], old(CarryBit(sim.memory, cin));
            && (forall j {:trigger sim.memory[ng][j]} | 0 <= j < sim.n ::
                  sim.memory[ng][j] == !CarryInto(xw, yw, c, j + 1))
            && (forall j {:trigger sim.memory[carry][j]} | 0 <= j < sim.n ::
                  sim.memory[carry][j] == CarryInto(xw, yw, c, j))
    ensures sim.latency == old(sim.latency) + 14 * CeilLog2(sim.n) + 9 + InputCycles(cin)
  {
    hide CarryInto;
    ghost var m := sim.memory;
    PrefixCarries(sim, inter, x, y, ng, cin, notcin);
    CarryZero(m[x], m[y], CarryBit(m, cin));
    ShiftCarries(sim, ng, carry, cin, notcin, CarryBit(m, cin));
  }

  /** The output carry and the sum bits, from the carry words. */
  method AddOutputs(sim: ParallelSimulator, inter: IntermediateAllocator, x: nat, y: nat, z: nat, cout: CarryOut,
                    ng: nat, carry: nat)
    requires Ready(sim, inter) && |inter.free| >= 3 && Live(sim, inter, x) && Live(sim, inter, y)
    requires Live(sim, inter, z) && x != y
    requires Live(sim, inter, ng) && Live(sim, inter, carry) && z != carry
    requires cout.OutputAt? ==> Live(sim, inter, cout.cell) && cout.partition < sim.n && cout.cell != x
    requires cout.OutputAt? ==> cout.cell != y && cout.cell != z && cout.cell != ng && cout.cell != carry
    modifies sim, inter
    ensures Ready(sim, inter) && inter.free == old(inter.free)
    ensures Kept(old(sim.memory), sim.memory, inter.free, OutCells(z, cout))
    ensures forall k {:trigger sim.memory[z][k]} | 0 <= k < sim.n ::
              sim.memory[z][k] == ((old(sim.memory)[x][k] != old(sim.memory)[y][k]) != old(sim.memory)[carry][k])
    ensures cout.OutputAt? ==>
              sim.memory[cout.cell] == old(sim.memory)[cout.cell][cout.partition := !old(sim.memory)[ng][sim.n - 1]]
    ensures sim.latency == old(sim.latency) + 16 + if cout.NoOutput? then 0 else 2
  {
    hide Window, Tracks;
    OutputCarry(sim, ng, cout);
    SumBits(sim, inter, x, y, z, carry);
  }

  /** Carries, output carry and sum, with the cells for the generate and carry words given. */
  method AddCells(sim: ParallelSimulator, inter: IntermediateAllocator, x: nat, y: nat, z: nat, cin: CarryIn,
                  cout: CarryOut, notcin: nat, ng: nat, carry: nat)
    requires AddPre(sim, inter, x, y, z, cin, cout) && |inter.free| >= 4
    requires Live(sim, inter, ng) && Live(sim, inter, carry) && ng != carry
    requires ng != x && ng != y && ng != z && carry != x && carry != y && carry != z
    requires cin.CarryAt? ==> ng != cin.cell && carry != cin.cell && Live(sim, inter, notcin) && notcin != ng
    requires cin.CarryAt? ==> notcin != carry && notcin != cin.cell && notcin != x && notcin != y && notcin != z
    requires cout.OutputAt? ==> ng != cout.cell && carry != cout.cell && (cin.CarryAt? ==> notcin != cout.cell)
    modifies sim, inter
    ensures Ready(sim, inter) && inter.free == old(inter.free)
    ensures Kept(old(sim.memory), sim.memory, inter.free,
                 OutCells(z, cout) + [ng, carry] + if cin.CarryAt? then [notcin] else [])
    ensures Adds(old(sim.memory), sim.memory, x, y, z, cin, cout, sim.n)
    ensures sim.latency == old(sim.latency) + 14 * CeilLog2(sim.n) + 25 + PortCycles(cin, cout)
  {
    hide CarryInto, Adds, Window, Tracks;
    ghost var m := sim.memory;
    CarryWords(sim, inter, x, y, cin, notcin, ng, carry);
    ghost var m2 := sim.memory;
    AddOutputs(sim, inter, x, y, z, cout, ng, carry);
    AddsUp(m, sim.memory, x, y, z, cin, cout, sim.n, m2[carry]);
  }

  lemma CarryZero(x: Word, y: Word, c: bool)
    requires |x| == |y|
    ensures CarryInto(x, y, c, 0) == c
  {
  }

  /** The generate and carry cells around `AddCells`. */
  method AddPorts(sim: ParallelSimulator, inter: IntermediateAllocator, x: nat, y: nat, z: nat, cin: CarryIn,
                  cout: CarryOut, notcin: nat)
    requires AddPre(sim, inter, x, y, z, cin, cout) && |inter.free| >= 6
    requires cin.CarryAt? ==>
              Live(sim, inter, notcin) && notcin != cin.cell && notcin != x && notcin != y && notcin != z
    requires cout.OutputAt? && cin.CarryAt? ==> notcin != cout.cell
    modifies sim, inter
    ensures Ready(sim, inter) && inter.free == old(inter.free)
    ensures Kept(old(sim.memory), sim.memory, inter.free, OutCells(z, cout) + if cin.CarryAt? then [notcin] else [])
    ensures Adds(old(sim.memory), sim.memory, x, y, z, cin, cout, sim.n)
    ensures sim.latency == old(sim.latency) + 14 * CeilLog2(sim.n) + 25 + PortCycles(cin, cout)
  {
    hide Adds, PortCycles;
    var ng, carry := inter.Malloc2();
    AddCells(sim, inter, x, y, z, cin, cout, notcin, ng, carry);
    inter.Free2(ng, carry);
  }

  /** The complement of a carry cell around the adder. */
  method AddWords(sim: ParallelSimulator, inter: IntermediateAllocator, x: nat, y: nat, z: nat, cin: CarryIn,
                  cout: CarryOut)
    requires AddPre(sim, inter, x, y, z, cin, cout) && |inter.free| >= 7
    modifies sim, inter
    ensures Ready(sim, inter) && inter.free == old(inter.free)
    ensures Kept(old(sim.memory), sim.memory, inter.free, OutCells(z, cout))
    ensures Adds(old(sim.memory), sim.memory, x, y, z, cin, cout, sim.n)
    ensures sim.latency == old(sim.latency) + 14 * CeilLog2(sim.n) + 25 + PortCycles(cin, cout)
  {
    hide Adds, PortCycles;
    if cin.CarryAt? {
      var notcin := inter.MallocCell();
      AddPorts(sim, inter, x, y, z, cin, cout, notcin);
      inter.FreeCell(notcin);
    } else {
      AddPorts(sim, inter, x, y, z, cin, cout, 0);
    }
  }

  /** The carry out of a sum tells whether it overflowed. */
  lemma AddsCarry(m: seq<Word>, m': seq<Word>, x: nat, y: nat, z: nat, cin: CarryIn, cout: CarryOut, n: nat)
    requires x < |m| == |m'| && y < |m| && z < |m| && |m[x]| == |m[y]| == |m'[z]| == n
    requires cout.OutputAt? ==> cout.cell < |m| && cout.partition < |m'[cout.cell]| && cout.partition < |m[cout.cell]|
    requires cin.CarryAt? ==> cin.cell < |m| && cin.partition < |m[cin.cell]|
    requires Adds(m, m', x, y, z, cin, cout, n)
    ensures var t := Num(m[x]) + Num(m[y]) +
                     match cin case NoCarry => 0 case OneCarry => 1 case CarryAt(c, p) => BitOf(m[c][p]);
            && Num(m'[z]) == (if t >= Pow2(n) then t - Pow2(n) else t)
            && (cout.OutputAt? ==> m'[cout.cell] == m[cout.cell][cout.partition := t >= Pow2(n)])
  {
  }

  /** fixedAddition: 14*ceil(log2 N) + 25 cycles without carry ports, for every N >= 3, with seven scratch words.
      The output may be one of the inputs. */
  method FixedAddition(sim: ParallelSimulator, inter: IntermediateAllocator, x: nat, y: nat, z: nat, cin: CarryIn,
                       cout: CarryOut)
    requires AddPre(sim, inter, x, y, z, cin, cout) && |inter.free| >= 7
    modifies sim, inter
    ensures Ready(sim, inter) && inter.free == old(inter.free)
    ensures Kept(old(sim.memory), sim.memory, inter.free, if cout.NoOutput? then [z] else [z, cout.cell])
    ensures var m := old(sim.memory);
            var t := Num(m[x]) + Num(m[y]) +
                     match cin case NoCarry => 0 case OneCarry => 1 case CarryAt(c, p) => BitOf(m[c][p]);
            && Num(sim.memory[z]) == (if t >= Pow2(sim.n) then t - Pow2(sim.n) else t)
            && (cout.OutputAt? ==> sim.memory[cout.cell] == m[cout.cell][cout.partition := t >= Pow2(sim.n)])
    ensures sim.latency == old(sim.latency) + 14 * CeilLog2(sim.n) + 25 + (if cout.NoOutput? then 0 else 2) +
                           match cin case NoCarry => 0 case OneCarry => 1 case CarryAt(_, _) => 5
  {
    hide Adds, NumN, Num, Pow2, Window, Tracks;
    ghost var m := sim.memory;
    AddWords(sim, inter, x, y, z, cin, cout);
    AddsCarry(m, sim.memory, x, y, z, cin, cout, sim.n);
  }

  lemma {:induction false} NotNum(a: Word, k: nat)
    requires k <= |a|
    ensures NumN(NotW(a), k) == Pow2(k) - 1 - NumN(a, k)
  {
    if k > 0 {
      NotNum(a, k - 1);
    }
  }

  /** Adding the complement and one subtracts. */
  lemma Differs(x: nat, y: nat, noty: nat, z: nat, p: nat)
    requires x < p && y < p && noty == p - 1 - y && z == (if x + noty + 1 >= p then x + noty + 1 - p else x + noty + 1)
    ensures z == x - y + if x >= y then 0 else p
    ensures x + noty + 1 >= p <==> x >= y
  {
  }

  lemma ComplementNum(a: Word)
    ensures Num(NotW(a)) == Pow2(|a|) - 1 - Num(a)
  {
    NotNum(a, |a|);
  }

  /** fixedSubtraction: the difference modulo 2^N; the output carry is 1 exactly when x >= y. */
  method FixedSubtraction(sim: ParallelSimulator, inter: IntermediateAllocator, x: nat, y: nat, z: nat, cout: CarryOut)
    requires Ready(sim, inter) && |inter.free| >= 8 && Live(sim, inter, x) && Live(sim, inter, y) && Live(sim, inter, z)
    requires cout.OutputAt? ==>
              Live(sim, inter, cout.cell) && cout.partition < sim.n && cout.cell != x && cout.cell != z
    modifies sim, inter
    ensures Ready(sim, inter) && inter.free == old(inter.free)
    ensures Kept(old(sim.memory), sim.memory, inter.free, if cout.NoOutput? then [z] else [z, cout.cell])
    ensures Num(sim.memory[z]) == Num(old(sim.memory)[x]) - Num(old(sim.memory)[y]) +
                                  if Num(old(sim.memory)[x]) >= Num(old(sim.memory)[y]) then 0 else Pow2(sim.n)
    ensures cout.OutputAt? ==>
              sim.memory[cout.cell] ==
                old(sim.memory)[cout.cell][cout.partition := Num(old(sim.memory)[x]) >= Num(old(sim.memory)[y])]
    ensures sim.latency == old(sim.latency) + 14 * CeilLog2(sim.n) + 28 + if cout.NoOutput? then 0 else 2
  {
    hide NumN, Num, Pow2, Window, Tracks;
    ghost var m := sim.memory;
    var noty := inter.MallocCell();
    Not(sim, y, noty);
    ComplementNum(m[y]);
    ghost var m1 := sim.memory;
    FixedAddition(sim, inter, x, noty, z, OneCarry, cout);
    Differs(Num(m[x]), Num(m[y]), Num(m1[noty]), Num(sim.memory[z]), Pow2(sim.n));
    inter.FreeCell(noty);
  }
}
