/** fixedDivision of serial/AritPIM.py: non-restoring, with the remainder register rotating over its own cells. */
module SerialDivide {
  import opened Numbers
  import opened Simulator
  import opened Allocator
  import opened Cells
  import opened SerialGates
  import opened SerialFixed
  import opened SerialKaratsuba

  /** The part of `d` in the first `j` columns of its zero-extension. */
  function Ext(m: seq<bool>, d: seq<nat>, j: nat): nat {
    ValN(m, d, if j <= |d| then j else |d|)
  }

  lemma ExtNext(m: seq<bool>, d: seq<nat>, j: nat)
    ensures Ext(m, d, j + 1) ==
            Ext(m, d, j) + if (if j < |d| then Bit(m, d[j]) else 0) == 1 then Pow2(j) else 0
  {
  }

  /** Exclusive-or with the sign of the step, then a full adder. */
  method XorAdder(sim: SerialSimulator, inter: IntermediateAllocator, a: nat, d: nat, q: nat, notq: nat,
                  cin: nat, s: nat, cout: nat)
    requires Ready(sim, inter) && |inter.free| >= 5
    requires Live(sim, inter, a) && Live(sim, inter, d) && Live(sim, inter, q) && Live(sim, inter, notq)
    requires Live(sim, inter, cin) && Live(sim, inter, s) && Live(sim, inter, cout)
    requires d != q && s != cout && sim.memory[notq] == !sim.memory[q]
    modifies sim, inter
    ensures Ready(sim, inter) && inter.free == old(inter.free)
    ensures Kept2(old(sim.memory), sim.memory, inter.free, s, cout)
    ensures Bit(sim.memory, s) + 2 * Bit(sim.memory, cout) ==
            old(Bit(sim.memory, a) + Negated(Bit(sim.memory, q), Bit(sim.memory, d), 1) + Bit(sim.memory, cin))
    ensures sim.latency == old(sim.latency) + 26
  {
    var t := inter.MallocCell();
    XorGiven(sim, inter, d, q, t, notq);
    FullAdder(sim, inter, a, t, cin, s, cout);
    inter.FreeCell(t);
  }

  /** The same above the top of `d`, where its zero-extension turns the operand into `q` itself. */
  method AddSubCell(sim: SerialSimulator, inter: IntermediateAllocator, a: nat, d: seq<nat>, j: nat, q: nat, notq: nat,
                    cin: nat, s: nat, cout: nat)
    requires Ready(sim, inter) && |inter.free| >= 5
    requires Live(sim, inter, a) && Live(sim, inter, q) && Live(sim, inter, notq)
    requires Live(sim, inter, cin) && Live(sim, inter, s) && Live(sim, inter, cout)
    requires j < |d| ==> Live(sim, inter, d[j]) && d[j] != q
    requires a != q && s != cout && sim.memory[notq] == !sim.memory[q]
    modifies sim, inter
    ensures Ready(sim, inter) && inter.free == old(inter.free)
    ensures Kept2(old(sim.memory), sim.memory, inter.free, s, cout)
    ensures Bit(sim.memory, s) + 2 * Bit(sim.memory, cout) ==
            old(Bit(sim.memory, a) + Negated(Bit(sim.memory, q), if j < |d| then Bit(sim.memory, d[j]) else 0, 1) +
                Bit(sim.memory, cin))
    ensures sim.latency == old(sim.latency) + (if j < |d| then 26 else 18)
  {
    if j < |d| {
      XorAdder(sim, inter, a, d[j], q, notq, cin, s, cout);
    } else {
      FullAdder(sim, inter, a, q, cin, s, cout);
    }
  }

  ghost predicate AddSubPre(sim: SerialSimulator, inter: IntermediateAllocator, d: seq<nat>, rz: seq<nat>,
                            out: seq<nat>, q: nat, notq: nat, c: nat)
    reads sim, inter
  {
    && Ready(sim, inter) && |rz| == |out| == |d| + 2
    && LiveReg(sim, inter, d) && LiveReg(sim, inter, rz) && LiveReg(sim, inter, out)
    && Live(sim, inter, q) && Live(sim, inter, notq) && Live(sim, inter, c)
    && Distinct(out) && WritesBehind(out, rz) && Apart(d, out)
    && q !in out && q !in rz && q !in d && q != notq && q != c
    && notq !in out && notq != c && c !in out && c !in rz && c !in d
  }

  /** What the columns keep: `out` plus carry is `rz` plus or minus `d`. */
  ghost predicate AddSubInv(m: seq<bool>, m': seq<bool>, f: set<nat>, d: seq<nat>, rz: seq<nat>, out: seq<nat>,
                            q: nat, c: nat, j: nat)
    requires j <= |rz| == |out|
  {
    && Kept(m, m', f, out + [c])
    && Same(m, m', rz, j, |rz|)
    && ValN(m', out, j) + (if Bit(m', if j == 0 then q else c) == 1 then Pow2(j) else 0) ==
       ValN(m, rz, j) + Negated(Bit(m, q), Ext(m, d, j), Pow2(j))
  }

  lemma AddSubColumn(s: nat, p: nat, zi: nat, z: nat, cin: nat, cout: nat, x: nat, xi: nat, d: nat, di: nat)
    requires s <= 1 && zi <= 1 && cin <= 1 && cout <= 1 && xi <= 1 && di <= 1
    requires z + (if cin == 1 then p else 0) == x + Negated(s, d, p)
    requires zi + 2 * cout == xi + Negated(s, di, 1) + cin
    ensures z + (if zi == 1 then p else 0) + (if cout == 1 then 2 * p else 0) ==
            x + (if xi == 1 then p else 0) + Negated(s, d + (if di == 1 then p else 0), 2 * p)
  {
  }

  method AddSubStep(sim: SerialSimulator, inter: IntermediateAllocator, d: seq<nat>, rz: seq<nat>, out: seq<nat>,
                    q: nat, notq: nat, c: nat, j: nat, ghost m: seq<bool>)
    requires AddSubPre(sim, inter, d, rz, out, q, notq, c) && |inter.free| >= 5 && j < |rz| && |d| >= 1
    requires sim.memory[notq] == !sim.memory[q]
    requires AddSubInv(m, sim.memory, inter.free, d, rz, out, q, c, j)
    modifies sim, inter
    ensures Ready(sim, inter) && inter.free == old(inter.free) && |sim.memory| == |old(sim.memory)|
    ensures sim.memory[notq] == !sim.memory[q]
    ensures AddSubInv(m, sim.memory, inter.free, d, rz, out, q, c, j + 1)
    ensures sim.latency == old(sim.latency) + (if j < |d| then 26 else 18)
  {
    hide ValN, Pow2, Ext, Tracks;
    ghost var m1 := sim.memory;
    var cin := if j > 0 then c else q;
    AddSubCell(sim, inter, rz[j], d, j, q, notq, cin, out[j], c);
    assert Same(m1, sim.memory, out, 0, j);
    ValSame(m1, sim.memory, out, j);
    ValNext(sim.memory, out, j);
    ValNext(m, rz, j);
    ExtNext(m, d, j);
    Pow2Next(j);
    AddSubColumn(Bit(m, q), Pow2(j), Bit(sim.memory, out[j]), ValN(m1, out, j), Bit(m1, cin), Bit(sim.memory, c),
                 ValN(m, rz, j), Bit(m, rz[j]), Ext(m, d, j), if j < |d| then Bit(m, d[j]) else 0);
  }

  /** Cycles of the first `j` columns over an `n`-bit divisor. */
  function AddSubCycles(n: nat, j: nat): nat {
    if j <= n then 26 * j else 26 * n + 18 * (j - n)
  }

  /** One whole addition or subtraction: `out` is `rz - d` when the bit in `q` is set, else `rz + d`, modulo 2^(N+2). */
  method AddSubLoop(sim: SerialSimulator, inter: IntermediateAllocator, d: seq<nat>, rz: seq<nat>, out: seq<nat>,
                    q: nat, notq: nat, c: nat) returns (ghost carry: nat)
    requires AddSubPre(sim, inter, d, rz, out, q, notq, c) && |inter.free| >= 5 && |d| >= 1
    requires sim.memory[notq] == !sim.memory[q]
    modifies sim, inter
    ensures Ready(sim, inter) && inter.free == old(inter.free)
    ensures Kept(old(sim.memory), sim.memory, inter.free, out + [c])
    ensures carry <= 1
    ensures Val(sim.memory, out) + (if carry == 1 then Pow2(|out|) else 0) ==
            old(Val(sim.memory, rz) + Negated(Bit(sim.memory, q), Val(sim.memory, d), Pow2(|out|)))
    ensures sim.latency == old(sim.latency) + 26 * |d| + 36
  {
    ghost var m := sim.memory;
    AddSubStart(m, inter.free, d, rz, out, q, c);
    for j := 0 to |rz|
      invariant Ready(sim, inter) && inter.free == old(inter.free) && |sim.memory| == |m|
      invariant sim.memory[notq] == !sim.memory[q]
      invariant AddSubInv(m, sim.memory, inter.free, d, rz, out, q, c, j)
      invariant sim.latency == old(sim.latency) + AddSubCycles(|d|, j)
    {
      hide AddSubInv;
      AddSubStep(sim, inter, d, rz, out, q, notq, c, j, m);
    }
    carry := Bit(sim.memory, c);
  }

  lemma AddSubStart(m: seq<bool>, f: set<nat>, d: seq<nat>, rz: seq<nat>, out: seq<nat>, q: nat, c: nat)
    requires |rz| == |out|
    ensures AddSubInv(m, m, f, d, rz, out, q, c, 0)
  {
    assert Pow2(0) == 1;
  }

  /** `np.roll(a, 1)`. */
  function Roll(a: seq<nat>): (r: seq<nat>)
    requires |a| >= 1
    ensures |r| == |a| && r[0] == a[|a| - 1]
    ensures forall i {:trigger r[i]} | 1 <= i < |a| :: r[i] == a[i - 1]
  {
    [a[|a| - 1]] + a[..|a| - 1]
  }

  lemma RollCells(a: seq<nat>)
    requires |a| >= 1
    ensures forall c :: c in Roll(a) <==> c in a
    ensures Distinct(a) ==> Distinct(Roll(a))
  {
    var r := Roll(a);
    forall c
      ensures c in r <==> c in a
    {
      if c in a {
        var i :| 0 <= i < |a| && a[i] == c;
        assert i + 1 < |a| ==> r[i + 1] == c;
      }
    }
  }

  /** `v` read as a two's-complement number of `n` bits. */
  function Signed(v: int, n: nat): int
    requires n >= 1
  {
    if v < Pow2(n - 1) then v else v - Pow2(n)
  }

  /** Shifting in a dividend bit and adding or subtracting the divisor stays within the register. */
  lemma SignedStep(n: nat, reff: nat, low: nat, top: nat, zi: nat, rz: nat, d: int, s: nat, out: nat, carry: nat)
    requires n >= 2 && top <= 1 && zi <= 1 && s <= 1 && carry <= 1 && 0 < 4 * d <= Pow2(n)
    requires low < Pow2(n - 1) && reff == low + (if top == 1 then Pow2(n - 1) else 0)
    requires rz == zi + 2 * low && s == 1 - top && -d <= Signed(reff, n) < d
    requires out < Pow2(n) && out + (if carry == 1 then Pow2(n) else 0) == rz + Negated(s, d, Pow2(n))
    ensures Signed(out, n) == 2 * Signed(reff, n) + zi + (if Signed(reff, n) >= 0 then -d else d)
    ensures -d <= Signed(out, n) < d
  {
    Pow2Next(n - 1);
  }

  /** One step of non-restoring division on integers: the bit of the quotient is the sign of the new remainder. */
  lemma NonRestoring(d: int, q: int, z: int, r: int, zi: int, r': int)
    requires -d <= r < d && 0 <= zi <= 1
    requires z == d * q + (if r < 0 then r + d else r)
    requires r' == 2 * r + zi + (if r >= 0 then -d else d)
    ensures -d <= r' < d
    ensures zi + 2 * z == d * (2 * q + (if r' < 0 then 0 else 1)) + (if r' < 0 then r' + d else r')
  {
    MulAdd(d, 2 * q, 1);
    MulAdd(d, q, q);
  }

  /** One round of fixedDivision: the register takes in the dividend bit `zi`, and `qi` gets the next quotient bit. */
  method DivRound(sim: SerialSimulator, inter: IntermediateAllocator, d: seq<nat>, reff: seq<nat>,
                  zi: nat, qprev: nat, qi: nat, notq: nat, c: nat) returns (ghost carry: nat)
    requires Ready(sim, inter) && |inter.free| >= 5 && |d| >= 1 && |reff| == |d| + 2
    requires LiveReg(sim, inter, d) && LiveReg(sim, inter, reff) && Distinct(reff) && Apart(d, reff)
    requires Live(sim, inter, zi) && Live(sim, inter, qprev) && Live(sim, inter, qi)
    requires Live(sim, inter, notq) && Live(sim, inter, c)
    requires zi !in reff && qprev !in reff && qi !in reff && qprev !in d && qprev != zi && qprev != qi
    requires notq !in reff && c !in reff && c !in d && notq != c && notq != qprev && c != qprev && c != zi && c != qi
    requires notq != qi
    requires sim.memory[notq] == !sim.memory[qprev]
    modifies sim, inter
    ensures Ready(sim, inter) && inter.free == old(inter.free)
    ensures Kept(old(sim.memory), sim.memory, inter.free, reff + [c, qi])
    ensures carry <= 1
    ensures Val(sim.memory, Roll(reff)) + (if carry == 1 then Pow2(|reff|) else 0) ==
            old(Bit(sim.memory, zi) + 2 * ValN(sim.memory, reff, |reff| - 1) +
                Negated(Bit(sim.memory, qprev), Val(sim.memory, d), Pow2(|reff|)))
    ensures sim.memory[qi] == !sim.memory[Roll(reff)[|reff| - 1]]
    ensures sim.latency == old(sim.latency) + 26 * |d| + 38
  {
    hide ValN, Val, Pow2, Negated;
    ghost var m := sim.memory;
    var n := |reff|;
    var rz, out := [zi] + reff[..n - 1], Roll(reff);
    RollCells(reff);
    assert forall i {:trigger rz[i]} | 1 <= i < n :: rz[i] == reff[i - 1];
    ShiftInVal(m, zi, reff);
    carry := AddSubLoop(sim, inter, d, rz, out, qprev, notq, c);
    ghost var m1 := sim.memory;
    sim.Not(out[n - 1], qi);
    ValKeptCell(m1, sim.memory, {}, qi, out);
  }

  /** The register shifted up by one with the dividend bit below. */
  lemma ShiftInVal(m: seq<bool>, zi: nat, reff: seq<nat>)
    requires |reff| >= 1
    ensures Val(m, [zi] + reff[..|reff| - 1]) == Bit(m, zi) + 2 * ValN(m, reff, |reff| - 1)
  {
    hide ValN;
    var low := reff[..|reff| - 1];
    ValBelow(m, zi, low);
    ValPrefix(m, low, reff, |reff| - 1);
  }

  /** A round with its carry cell. */
  method DivRoundCarry(sim: SerialSimulator, inter: IntermediateAllocator, d: seq<nat>, reff: seq<nat>,
                       zi: nat, qprev: nat, qi: nat, notq: nat) returns (ghost carry: nat)
    requires Ready(sim, inter) && |inter.free| >= 6 && |d| >= 1 && |reff| == |d| + 2
    requires LiveReg(sim, inter, d) && LiveReg(sim, inter, reff) && Distinct(reff) && Apart(d, reff)
    requires Live(sim, inter, zi) && Live(sim, inter, qprev) && Live(sim, inter, qi)
    requires zi !in reff && qprev !in reff && qi !in reff && qprev !in d && qprev != zi && qprev != qi
    requires Live(sim, inter, notq) && notq !in reff && notq != qprev && notq != qi
    requires sim.memory[notq] == !sim.memory[qprev]
    modifies sim, inter
    ensures Ready(sim, inter) && inter.free == old(inter.free)
    ensures Kept(old(sim.memory), sim.memory, inter.free, reff + [qi])
    ensures carry <= 1
    ensures Val(sim.memory, Roll(reff)) + (if carry == 1 then Pow2(|reff|) else 0) ==
            old(Bit(sim.memory, zi) + 2 * ValN(sim.memory, reff, |reff| - 1) +
                Negated(Bit(sim.memory, qprev), Val(sim.memory, d), Pow2(|reff|)))
    ensures sim.memory[qi] == !sim.memory[Roll(reff)[|reff| - 1]]
    ensures sim.latency == old(sim.latency) + 26 * |d| + 38
  {
    hide ValN, Val, Pow2, Negated, Roll;
    var c := inter.MallocCell();
    carry := DivRound(sim, inter, d, reff, zi, qprev, qi, notq, c);
    inter.FreeCell(c);
  }

  /** A round with both scratch bits. */
  method DivStep(sim: SerialSimulator, inter: IntermediateAllocator, d: seq<nat>, reff: seq<nat>,
                 zi: nat, qprev: nat, qi: nat) returns (ghost carry: nat)
    requires Ready(sim, inter) && |inter.free| >= 7 && |d| >= 1 && |reff| == |d| + 2
    requires LiveReg(sim, inter, d) && LiveReg(sim, inter, reff) && Distinct(reff) && Apart(d, reff)
    requires Live(sim, inter, zi) && Live(sim, inter, qprev) && Live(sim, inter, qi)
    requires zi !in reff && qprev !in reff && qi !in reff && qprev !in d && qprev != zi && qprev != qi
    modifies sim, inter
    ensures Ready(sim, inter) && inter.free == old(inter.free)
    ensures Kept(old(sim.memory), sim.memory, inter.free, reff + [qi])
    ensures carry <= 1
    ensures Val(sim.memory, Roll(reff)) + (if carry == 1 then Pow2(|reff|) else 0) ==
            old(Bit(sim.memory, zi) + 2 * ValN(sim.memory, reff, |reff| - 1) +
                Negated(Bit(sim.memory, qprev), Val(sim.memory, d), Pow2(|reff|)))
    ensures sim.memory[qi] == !sim.memory[Roll(reff)[|reff| - 1]]
    ensures sim.latency == old(sim.latency) + 26 * |d| + 40
  {
    hide ValN, Val, Pow2, Negated, Roll;
    ghost var m := sim.memory;
    var notq := inter.MallocCell();
    sim.Not(qprev, notq);
    ghost var m1 := sim.memory;
    assert Kept1(m, m1, {}, notq);
    ValKeptCell(m, m1, {}, notq, d);
    ValKeptCell(m, m1, {}, notq, reff);
    ValSame(m, m1, reff, |reff| - 1);
    carry := DivRoundCarry(sim, inter, d, reff, zi, qprev, qi, notq);
    inter.FreeCell(notq);
  }

  /** The first `k` rolls of `a`. */
  function Rolled(a: seq<nat>, k: nat): (r: seq<nat>)
    requires k <= |a|
    ensures |r| == |a| && forall i {:trigger r[i]} | 0 <= i < |a| :: r[i] == if i < k then a[|a| - k + i] else a[i - k]
  {
    a[|a| - k..] + a[..|a| - k]
  }

  lemma RolledNext(a: seq<nat>, k: nat)
    requires k < |a|
    ensures Roll(Rolled(a, k)) == Rolled(a, k + 1)
  {
  }

  lemma RolledCells(a: seq<nat>, k: nat)
    requires k <= |a|
    ensures forall c :: c in Rolled(a, k) <==> c in a
    ensures Distinct(a) ==> Distinct(Rolled(a, k))
  {
    var r := Rolled(a, k);
    forall c
      ensures c in r <==> c in a
    {
      if c in a {
        var i :| 0 <= i < |a| && a[i] == c;
        assert if i + k < |a| then r[i + k] == c else r[i + k - |a|] == c;
      }
    }
  }

  lemma ValCons(m: seq<bool>, a: seq<nat>, i: nat)
    requires i < |a|
    ensures Val(m, a[i..]) == Bit(m, a[i]) + 2 * Val(m, a[i + 1..])
  {
    ValAppend(m, [a[i]], a[i + 1..]);
    ValCell(m, a[i]);
    assert [a[i]] + a[i + 1..] == a[i..];
    assert Pow2(1) == 2 * Pow2(0);
  }

  /** After the bit `q[i]`: the register holds a remainder `r` in `[-d, d)` of the dividend bits taken in so far,
      and `q[i]` is its sign. */
  ghost predicate Remainder(m: seq<bool>, m': seq<bool>, z: seq<nat>, d: seq<nat>, q: seq<nat>, reff: seq<nat>, i: nat)
    requires i <= |q| && i <= |z| && |reff| >= 1
  {
    var dv, r := Val(m, d), Signed(Val(m', reff), |reff|);
    && -(dv as int) <= r < dv
    && Val(m, z[i..]) == dv * Val(m', q[i..]) + (if r < 0 then r + dv else r)
  }

  /** The bit below the register's top and the number it holds. */
  lemma TopAndSign(m: seq<bool>, a: seq<nat>)
    requires |a| >= 1
    ensures Val(m, a) == ValN(m, a, |a| - 1) + if Bit(m, a[|a| - 1]) == 1 then Pow2(|a| - 1) else 0
    ensures Signed(Val(m, a), |a|) >= 0 <==> Bit(m, a[|a| - 1]) == 0
  {
    ValNext(m, a, |a| - 1);
    Pow2Next(|a| - 1);
  }

  lemma RemainderStep(m: seq<bool>, m1: seq<bool>, m2: seq<bool>, z: seq<nat>, d: seq<nat>, q: seq<nat>, reff: seq<nat>,
                      i: nat, carry: nat)
    requires i + 1 < |q| && |z| == 2 * |q| && |d| == |q| && |reff| == |d| + 2 && carry <= 1
    requires Remainder(m, m1, z, d, q, reff, i + 1)
    requires Bit(m1, q[i + 1]) == 1 - Bit(m1, reff[|reff| - 1])
    requires Val(m2, q[i + 1..]) == Val(m1, q[i + 1..])
    requires Val(m2, Roll(reff)) + (if carry == 1 then Pow2(|reff|) else 0) ==
             Bit(m, z[i]) + 2 * ValN(m1, reff, |reff| - 1) + Negated(Bit(m1, q[i + 1]), Val(m, d), Pow2(|reff|))
    requires Bit(m2, q[i]) == 1 - Bit(m2, Roll(reff)[|reff| - 1])
    ensures Remainder(m, m2, z, d, q, Roll(reff), i)
  {
    hide ValN, Val, Pow2, Signed, Negated;
    var n, out := |reff|, Roll(reff);
    TopAndSign(m1, reff);
    TopAndSign(m2, out);
    ValCons(m, z, i);
    ValCons(m2, q, i);
    Pow2Next(n - 1);
    Pow2Next(n - 2);
    var dv, r := Val(m, d), Signed(Val(m1, reff), n);
    SignedStep(n, Val(m1, reff), ValN(m1, reff, n - 1), Bit(m1, reff[n - 1]), Bit(m, z[i]),
               Bit(m, z[i]) + 2 * ValN(m1, reff, n - 1), dv, Bit(m1, q[i + 1]), Val(m2, out), carry);
    NonRestoring(dv, Val(m1, q[i + 1..]), Val(m, z[i + 1..]), r, Bit(m, z[i]), Signed(Val(m2, out), n));
  }

  /** The register `reff` is a rearrangement of the cells `base`, apart from everything else. */
  ghost predicate Register(base: seq<nat>, reff: seq<nat>, z: seq<nat>, d: seq<nat>, q: seq<nat>) {
    && |reff| == |base| == |d| + 2 && Distinct(reff)
    && (forall c :: c in reff <==> c in base)
    && Apart(z, reff) && Apart(d, reff) && Apart(q, reff)
  }

  lemma RegisterRoll(base: seq<nat>, reff: seq<nat>, z: seq<nat>, d: seq<nat>, q: seq<nat>)
    requires Register(base, reff, z, d, q)
    ensures Register(base, Roll(reff), z, d, q)
  {
    RollCells(reff);
    var r := Roll(reff);
    assert forall i {:trigger r[i]} | 0 <= i < |r| :: r[i] == reff[if i == 0 then |r| - 1 else i - 1];
  }

  ghost predicate DivPre(sim: SerialSimulator, inter: IntermediateAllocator, z: seq<nat>, d: seq<nat>, q: seq<nat>)
    reads sim, inter
  {
    && Ready(sim, inter) && 1 <= |d| == |q| && |z| == 2 * |d|
    && LiveReg(sim, inter, z) && LiveReg(sim, inter, d) && LiveReg(sim, inter, q)
    && Distinct(q) && Apart(z, q) && Apart(d, q)
  }

  /** After the bit `q[i]`: it is the sign of the register, which holds the remainder if the quotient fits in N bits. */
  ghost predicate DivInv(m: seq<bool>, m': seq<bool>, f: set<nat>, z: seq<nat>, d: seq<nat>, q: seq<nat>,
                         reff: seq<nat>, i: nat)
    requires i < |q| == |d| && |z| == 2 * |d| && |reff| == |d| + 2
  {
    && Kept(m, m', f, reff + q)
    && Bit(m', q[i]) == 1 - Bit(m', reff[|reff| - 1])
    && (Val(m, z[|d|..]) < Val(m, d) ==> Remainder(m, m', z, d, q, reff, i))
  }

  /** A round stays within the register and the quotient, and leaves the bits above `i` alone. */
  lemma RoundKept(m: seq<bool>, m1: seq<bool>, m2: seq<bool>, f: set<nat>, q: seq<nat>, reff: seq<nat>, i: nat)
    requires i < |q| && Distinct(q) && Apart(q, reff) && |reff| >= 1 && forall j | 0 <= j < |q| :: q[j] !in f
    requires Kept(m, m1, f, reff + q) && Kept(m1, m2, f, reff + [q[i]])
    ensures Kept(m, m2, f, Roll(reff) + q) && Val(m2, q[i + 1..]) == Val(m1, q[i + 1..])
  {
    hide Roll;
    RollCells(reff);
    var qs := q[i + 1..];
    assert forall j {:trigger qs[j]} | 0 <= j < |qs| :: qs[j] == q[i + 1 + j];
    ValKept(m1, m2, f, reff + [q[i]], qs);
  }

  lemma DivInvStep(m: seq<bool>, m1: seq<bool>, m2: seq<bool>, f: set<nat>, z: seq<nat>, d: seq<nat>, q: seq<nat>,
                   reff: seq<nat>, i: nat, carry: nat)
    requires i + 1 < |q| == |d| && |reff| == |d| + 2 && |z| == 2 * |d| && carry <= 1
    requires Apart(z, q) && Apart(z, reff) && Apart(d, q) && Apart(d, reff)
    requires forall j | 0 <= j < |z| :: z[j] !in f
    requires forall j | 0 <= j < |d| :: d[j] !in f
    requires Kept(m, m1, f, reff + q) && Bit(m1, q[i + 1]) == 1 - Bit(m1, reff[|reff| - 1])
    requires Val(m2, q[i + 1..]) == Val(m1, q[i + 1..])
    requires Val(m2, Roll(reff)) + (if carry == 1 then Pow2(|reff|) else 0) ==
             Bit(m1, z[i]) + 2 * ValN(m1, reff, |reff| - 1) + Negated(Bit(m1, q[i + 1]), Val(m1, d), Pow2(|reff|))
    requires Bit(m2, q[i]) == 1 - Bit(m2, Roll(reff)[|reff| - 1])
    requires Remainder(m, m1, z, d, q, reff, i + 1)
    ensures Remainder(m, m2, z, d, q, Roll(reff), i)
  {
    hide ValN, Val, Pow2, Negated, Roll, Remainder;
    ValKept(m, m1, f, reff + q, d);
    assert Bit(m1, z[i]) == Bit(m, z[i]);
    RemainderStep(m, m1, m2, z, d, q, reff, i, carry);
  }

  method DivLoopStep(sim: SerialSimulator, inter: IntermediateAllocator, z: seq<nat>, d: seq<nat>, q: seq<nat>,
                     reff: seq<nat>, i: nat, ghost m: seq<bool>)
    requires DivPre(sim, inter, z, d, q) && |inter.free| >= 7 && i + 1 < |q|
    requires Register(reff, reff, z, d, q) && LiveReg(sim, inter, reff)
    requires DivInv(m, sim.memory, inter.free, z, d, q, reff, i + 1)
    modifies sim, inter
    ensures Ready(sim, inter) && inter.free == old(inter.free) && |sim.memory| == |old(sim.memory)|
    ensures DivInv(m, sim.memory, inter.free, z, d, q, Roll(reff), i)
    ensures sim.latency == old(sim.latency) + 26 * |d| + 40
  {
    hide ValN, Val, Pow2, Negated, Roll, Remainder;
    ghost var m1 := sim.memory;
    ghost var carry := DivStep(sim, inter, d, reff, z[i], q[i + 1], q[i]);
    RoundKept(m, m1, sim.memory, inter.free, q, reff, i);
    if Val(m, z[|d|..]) < Val(m, d) {
      DivInvStep(m, m1, sim.memory, inter.free, z, d, q, reff, i, carry);
    }
  }

  /** Cycles of `k` division steps. */
  function StepCycles(n: nat, k: nat): (c: nat)
    ensures k == 0 ==> c == 0
  {
    k * (26 * n + 40)
  }

  lemma StepCyclesNext(n: nat, k: nat)
    ensures StepCycles(n, k + 1) == StepCycles(n, k) + 26 * n + 40
  {
    MulAdd(26 * n + 40, k, 1);
  }

  /** The rounds `N - 2 .. 0`; the register ends up rolled `N - 1` more times. */
  method DivLoop(sim: SerialSimulator, inter: IntermediateAllocator, z: seq<nat>, d: seq<nat>, q: seq<nat>,
                 base: seq<nat>, ghost m: seq<bool>) returns (reff: seq<nat>)
    requires DivPre(sim, inter, z, d, q) && |inter.free| >= 7 && |base| == |d| + 2 && LiveReg(sim, inter, base)
    requires Register(base, Rolled(base, 1), z, d, q)
    requires DivInv(m, sim.memory, inter.free, z, d, q, Rolled(base, 1), |d| - 1)
    modifies sim, inter
    ensures Ready(sim, inter) && inter.free == old(inter.free) && |sim.memory| == |old(sim.memory)|
    ensures reff == Rolled(base, |d|) && Register(base, reff, z, d, q)
    ensures DivInv(m, sim.memory, inter.free, z, d, q, reff, 0)
    ensures sim.latency == old(sim.latency) + StepCycles(|d|, |d| - 1)
  {
    hide StepCycles, DivInv, Register, Roll, Rolled, Tracks;
    reff := Rolled(base, 1);
    for i := |d| - 1 downto 0
      invariant Ready(sim, inter) && inter.free == old(inter.free) && |sim.memory| == |old(sim.memory)|
      invariant reff == Rolled(base, |d| - i) && Register(base, reff, z, d, q)
      invariant DivInv(m, sim.memory, inter.free, z, d, q, reff, i)
      invariant sim.latency == old(sim.latency) + StepCycles(|d|, |d| - 1 - i)
    {
      RegisterLive(sim, inter, base, reff, z, d, q);
      DivLoopStep(sim, inter, z, d, q, reff, i, m);
      RegisterRoll(base, reff, z, d, q);
      RolledNext(base, |d| - i - 1);
      StepCyclesNext(|d|, |d| - 2 - i);
      reff := Roll(reff);
    }
  }

  lemma RegisterLive(sim: SerialSimulator, inter: IntermediateAllocator, base: seq<nat>, reff: seq<nat>,
                     z: seq<nat>, d: seq<nat>, q: seq<nat>)
    requires Register(base, reff, z, d, q) && LiveReg(sim, inter, base)
    ensures LiveReg(sim, inter, reff) && Register(reff, reff, z, d, q)
  {
    assert forall i {:trigger reff[i]} | 0 <= i < |reff| :: reff[i] in base;
  }

  /** The top N + 1 bits of the dividend minus the divisor, both zero-extended to the register. */
  method FirstDifference(sim: SerialSimulator, inter: IntermediateAllocator, zs: seq<nat>, d: seq<nat>,
                         reff: seq<nat>, zero: nat)
    requires Ready(sim, inter) && |inter.free| >= 6 && |zs| == |d| + 1 && |reff| == |d| + 2
    requires LiveReg(sim, inter, zs) && LiveReg(sim, inter, d) && LiveReg(sim, inter, reff) && Live(sim, inter, zero)
    requires Distinct(reff) && Apart(zs, reff) && Apart(d, reff) && zero !in reff && !sim.memory[zero]
    modifies sim, inter
    ensures Ready(sim, inter) && inter.free == old(inter.free)
    ensures Kept(old(sim.memory), sim.memory, inter.free, reff)
    ensures Val(sim.memory, reff) == old(Val(sim.memory, zs) - Val(sim.memory, d) +
                                         if Val(sim.memory, zs) >= Val(sim.memory, d) then 0 else Pow2(|reff|))
    ensures sim.latency == old(sim.latency) + 20 * (|d| + 2) + 1
  {
    hide ValN, Val, Pow2;
    var x, y := zs + Zeros(zero, 1), d + Zeros(zero, 2);
    assert forall i {:trigger x[i]} | 0 <= i < |reff| :: x[i] == if i < |zs| then zs[i] else zero;
    assert forall i {:trigger y[i]} | 0 <= i < |reff| :: y[i] == if i < |d| then d[i] else zero;
    PadVal(sim.memory, zs, zero, 1);
    PadVal(sim.memory, d, zero, 2);
    FixedSubtraction(sim, inter, x, y, reff, None);
  }

  /** The first remainder, and its sign as the top quotient bit. */
  method DivStart(sim: SerialSimulator, inter: IntermediateAllocator, z: seq<nat>, d: seq<nat>, q: seq<nat>,
                  reff: seq<nat>, zero: nat)
    requires DivPre(sim, inter, z, d, q) && |inter.free| >= 6
    requires Register(reff, reff, z, d, q) && LiveReg(sim, inter, reff)
    requires Live(sim, inter, zero) && zero !in reff && !sim.memory[zero]
    modifies sim, inter
    ensures Ready(sim, inter) && inter.free == old(inter.free) && |sim.memory| == |old(sim.memory)|
    ensures DivInv(old(sim.memory), sim.memory, inter.free, z, d, q, reff, |d| - 1)
    ensures sim.latency == old(sim.latency) + 20 * (|d| + 2) + 3
  {
    hide ValN, Val, Pow2, Remainder;
    ghost var m := sim.memory;
    var n := |d|;
    var zs := z[n - 1..];
    assert forall i {:trigger zs[i]} | 0 <= i < |zs| :: zs[i] == z[n - 1 + i];
    FirstDifference(sim, inter, zs, d, reff, zero);
    ghost var m1 := sim.memory;
    sim.Not(reff[n + 1], q[n - 1]);
    ValKeptCell(m1, sim.memory, {}, q[n - 1], reff);
    FirstRemainder(m, sim.memory, z, d, q, reff);
  }

  lemma FirstRemainder(m: seq<bool>, m': seq<bool>, z: seq<nat>, d: seq<nat>, q: seq<nat>, reff: seq<nat>)
    requires 1 <= |d| == |q| && |z| == 2 * |d| && |reff| == |d| + 2
    requires Val(m', reff) == Val(m, z[|d| - 1..]) - Val(m, d) +
                              if Val(m, z[|d| - 1..]) >= Val(m, d) then 0 else Pow2(|reff|)
    requires Bit(m', q[|d| - 1]) == 1 - Bit(m', reff[|reff| - 1])
    ensures Val(m, z[|d|..]) < Val(m, d) ==> Remainder(m, m', z, d, q, reff, |d| - 1)
  {
    hide ValN, Val, Signed, Pow2;
    if Val(m, z[|d|..]) < Val(m, d) {
      var n, zz, dv := |d|, Val(m, z[|d| - 1..]), Val(m, d);
      ValCons(m, z, n - 1);
      FirstSigned(n, zz, dv, Val(m', reff));
      TopAndSign(m', reff);
      assert q[n - 1..] == [q[n - 1]];
      ValCell(m', q[n - 1]);
      assert dv * Bit(m', q[n - 1]) == if zz >= dv then dv else 0;
    }
  }

  lemma FirstSigned(n: nat, zz: int, d: int, v: int)
    requires 0 <= zz < 2 * d && d < Pow2(n) && v == zz - d + if zz >= d then 0 else Pow2(n + 2)
    ensures Signed(v, n + 2) == zz - d
  {
    Pow2Next(n);
    Pow2Next(n + 1);
  }

  /** AND of the sign and a divisor bit, then a full adder: one column of the last correction. */
  method CorrectCell(sim: SerialSimulator, inter: IntermediateAllocator, a: nat, d: nat, notr: nat, c: nat, s: nat)
    requires Ready(sim, inter) && |inter.free| >= 6
    requires Live(sim, inter, a) && Live(sim, inter, d) && Live(sim, inter, notr) && Live(sim, inter, c)
    requires Live(sim, inter, s)
    requires s != c
    modifies sim, inter
    ensures Ready(sim, inter) && inter.free == old(inter.free)
    ensures Kept2(old(sim.memory), sim.memory, inter.free, s, c)
    ensures Bit(sim.memory, s) + 2 * Bit(sim.memory, c) ==
            old(Bit(sim.memory, a) + (if sim.memory[notr] then 0 else Bit(sim.memory, d)) + Bit(sim.memory, c))
    ensures sim.latency == old(sim.latency) + 22
  {
    var t0, t1 := inter.Malloc2();
    MaskGates(sim, d, notr, t0, t1);
    FullAdder(sim, inter, a, t1, c, s, c);
    inter.Free2(t0, t1);
  }

  /** t1 = d AND NOT notr. */
  method MaskGates(sim: SerialSimulator, d: nat, notr: nat, t0: nat, t1: nat)
    requires d < |sim.memory| && notr < |sim.memory| && t0 < |sim.memory| && t1 < |sim.memory|
    requires t0 != t1 && t0 != d && t0 != notr && t1 != d && t1 != notr
    modifies sim
    ensures Kept2(old(sim.memory), sim.memory, {}, t0, t1)
    ensures Bit(sim.memory, t1) == if old(sim.memory[notr]) then 0 else old(Bit(sim.memory, d))
    ensures sim.latency == old(sim.latency) + 4
  {
    sim.Not(d, t0);
    sim.Nor(notr, t0, t1);
  }

  ghost predicate CorrectInv(m: seq<bool>, m': seq<bool>, f: set<nat>, a: seq<nat>, d: seq<nat>, r: seq<nat>,
                             neg: bool, c: nat, j: nat)
    requires j <= |a| == |d| == |r|
  {
    && Kept(m, m', f, r + [c])
    && Same(m, m', a, j, |a|)
    && ValN(m', r, j) + (if Bit(m', c) == 1 then Pow2(j) else 0) == ValN(m, a, j) + (if neg then ValN(m, d, j) else 0)
  }

  ghost predicate CorrectPre(sim: SerialSimulator, inter: IntermediateAllocator, a: seq<nat>, d: seq<nat>, r: seq<nat>,
                             notr: nat, c: nat)
    reads sim, inter
  {
    && Ready(sim, inter) && |a| == |d| == |r|
    && LiveReg(sim, inter, a) && LiveReg(sim, inter, d) && LiveReg(sim, inter, r)
    && Live(sim, inter, notr) && Live(sim, inter, c) && notr != c
    && Distinct(r) && WritesBehind(r, a) && Apart(d, r)
    && notr !in r && c !in r && c !in a && c !in d
  }

  method CorrectStep(sim: SerialSimulator, inter: IntermediateAllocator, a: seq<nat>, d: seq<nat>, r: seq<nat>,
                     notr: nat, c: nat, j: nat, ghost m: seq<bool>)
    requires CorrectPre(sim, inter, a, d, r, notr, c) && |inter.free| >= 6 && j < |a| && notr < |m|
    requires CorrectInv(m, sim.memory, inter.free, a, d, r, !m[notr], c, j)
    modifies sim, inter
    ensures Ready(sim, inter) && inter.free == old(inter.free) && |sim.memory| == |old(sim.memory)|
    ensures CorrectInv(m, sim.memory, inter.free, a, d, r, !m[notr], c, j + 1)
    ensures sim.latency == old(sim.latency) + 22
  {
    hide ValN, Pow2;
    ghost var m1 := sim.memory;
    CorrectCell(sim, inter, a[j], d[j], notr, c, r[j]);
    assert Same(m1, sim.memory, r, 0, j);
    ValSame(m1, sim.memory, r, j);
    ValNext(sim.memory, r, j);
    ValNext(m, a, j);
    ValNext(m, d, j);
    Pow2Next(j);
    Column(Pow2(j), Bit(sim.memory, r[j]), ValN(m1, r, j), Bit(m1, c), Bit(sim.memory, c), ValN(m, a, j),
           if m[notr] then 0 else ValN(m, d, j), Bit(m, a[j]), if m[notr] then 0 else Bit(m, d[j]), 0);
  }

  /** The last correction: `r` gets `a`, plus the divisor when the register was negative; it may overlap the
      cells of `a` that were already read. */
  method CorrectLoop(sim: SerialSimulator, inter: IntermediateAllocator, a: seq<nat>, d: seq<nat>, r: seq<nat>,
                     notr: nat, c: nat)
    requires CorrectPre(sim, inter, a, d, r, notr, c) && |inter.free| >= 6 && !sim.memory[c]
    modifies sim, inter
    ensures Ready(sim, inter) && inter.free == old(inter.free)
    ensures Kept(old(sim.memory), sim.memory, inter.free, r + [c])
    ensures Val(sim.memory, r) + (if Bit(sim.memory, c) == 1 then Pow2(|r|) else 0) ==
            old(Val(sim.memory, a) + if sim.memory[notr] then 0 else Val(sim.memory, d))
    ensures sim.latency == old(sim.latency) + 22 * |r|
  {
    ghost var m := sim.memory;
    for j := 0 to |r|
      invariant Ready(sim, inter) && inter.free == old(inter.free) && |sim.memory| == |m|
      invariant CorrectInv(m, sim.memory, inter.free, a, d, r, !m[notr], c, j)
      invariant sim.latency == old(sim.latency) + 22 * j
    {
      hide CorrectInv;
      CorrectStep(sim, inter, a, d, r, notr, c, j, m);
    }
  }

  method CorrectCarry(sim: SerialSimulator, inter: IntermediateAllocator, a: seq<nat>, d: seq<nat>, r: seq<nat>,
                      notr: nat) returns (ghost carry: nat)
    requires Ready(sim, inter) && |inter.free| >= 7 && |a| == |d| == |r|
    requires LiveReg(sim, inter, a) && LiveReg(sim, inter, d) && LiveReg(sim, inter, r) && Live(sim, inter, notr)
    requires Distinct(r) && WritesBehind(r, a) && Apart(d, r) && notr !in r
    modifies sim, inter
    ensures Ready(sim, inter) && inter.free == old(inter.free)
    ensures Kept(old(sim.memory), sim.memory, inter.free, r)
    ensures carry <= 1
    ensures Val(sim.memory, r) + (if carry == 1 then Pow2(|r|) else 0) ==
            old(Val(sim.memory, a) + if sim.memory[notr] then 0 else Val(sim.memory, d))
    ensures sim.latency == old(sim.latency) + 22 * |r| + 1
  {
    hide ValN, Val, Pow2;
    ghost var m := sim.memory;
    var c := inter.MallocCell();
    sim.Init0(c);
    ghost var m1 := sim.memory;
    assert Kept1(m, m1, {}, c);
    ValKeptCell(m, m1, {}, c, a);
    ValKeptCell(m, m1, {}, c, d);
    CorrectLoop(sim, inter, a, d, r, notr, c);
    carry := Bit(sim.memory, c);
    inter.FreeCell(c);
  }

  /** The correction with its scratch bits, from the register to the remainder cells. */
  method Correct(sim: SerialSimulator, inter: IntermediateAllocator, reff: seq<nat>, d: seq<nat>, r: seq<nat>)
    returns (ghost carry: nat)
    requires Ready(sim, inter) && |inter.free| >= 8 && |d| == |r| && |reff| == |d| + 2
    requires LiveReg(sim, inter, reff) && LiveReg(sim, inter, d) && LiveReg(sim, inter, r)
    requires Distinct(r) && Apart(d, r) && forall i, j | 0 <= i < j < |r| :: r[i] != reff[j]
    modifies sim, inter
    ensures Ready(sim, inter) && inter.free == old(inter.free)
    ensures Kept(old(sim.memory), sim.memory, inter.free, r)
    ensures carry <= 1
    ensures Val(sim.memory, r) + (if carry == 1 then Pow2(|r|) else 0) ==
            old(ValN(sim.memory, reff, |d|) + if Bit(sim.memory, reff[|d| + 1]) == 1 then Val(sim.memory, d) else 0)
    ensures sim.latency == old(sim.latency) + 22 * |r| + 3
  {
    hide ValN, Pow2;
    ghost var m := sim.memory;
    var n := |d|;
    var a := reff[..n];
    assert forall i {:trigger a[i]} | 0 <= i < n :: a[i] == reff[i];
    ValPrefix(m, a, reff, n);
    var notr := inter.MallocCell();
    sim.Not(reff[n + 1], notr);
    ghost var m1 := sim.memory;
    assert Kept1(m, m1, {}, notr);
    ValKeptCell(m, m1, {}, notr, a);
    ValKeptCell(m, m1, {}, notr, d);
    carry := CorrectCarry(sim, inter, a, d, r, notr);
    inter.FreeCell(notr);
  }

  /** `z` is `q` times `d` plus the remainder `s`, corrected by `d` if negative. */
  ghost predicate Reduced(z: int, d: int, q: int, s: int) {
    z == d * q + if s < 0 then s + d else s
  }

  ghost predicate Low(v: int, p: int, r: int) {
    p > 0 && v % p == r
  }

  /** What the correction leaves is the remainder of the division. */
  lemma Corrected(n: nat, w: nat, reff: int, low: int, top: nat, d: int, r: int, carry: nat, z: int, q: int)
    requires top <= 1 && carry <= 1 && 0 <= low < Pow2(n) && 0 < d < Pow2(n) && 0 <= r < Pow2(n)
    requires 0 <= reff < Pow2(w) && w == n + 2
    requires Low(reff, Pow2(n), low) && (top == 1 <==> Signed(reff, w) < 0)
    requires -d <= Signed(reff, w) < d
    requires Reduced(z, d, q, Signed(reff, w))
    requires r + (if carry == 1 then Pow2(n) else 0) == low + if top == 1 then d else 0
    ensures q == z / d && r == z % d
  {
    var s, p := Signed(reff, w), Pow2(n);
    Pow2Next(n);
    Pow2Next(n + 1);
    if s < 0 {
      DivModUnique(reff, p, 3, s + p);
    } else {
      DivModUnique(reff, p, 0, s);
    }
    DivModUnique(z, d, q, if s < 0 then s + d else s);
  }

  lemma RemainderAll(m: seq<bool>, m': seq<bool>, z: seq<nat>, d: seq<nat>, q: seq<nat>, reff: seq<nat>)
    requires |reff| >= 1 && Remainder(m, m', z, d, q, reff, 0)
    ensures var dv, r := Val(m, d) as int, Signed(Val(m', reff), |reff|);
            -dv <= r < dv && Reduced(Val(m, z), dv, Val(m', q), r)
  {
    assert z[0..] == z && q[0..] == q;
  }

  lemma LowAndSign(m: seq<bool>, a: seq<nat>, k: nat)
    requires k <= |a| && |a| >= 1
    ensures Low(Val(m, a), Pow2(k), ValN(m, a, k))
    ensures Bit(m, a[|a| - 1]) == 1 <==> Signed(Val(m, a), |a|) < 0
  {
    hide ValN, Pow2, Signed, Val;
    TopAndSign(m, a);
    ValDivMod(m, a, k);
  }

  lemma DivResult(m: seq<bool>, m1: seq<bool>, m2: seq<bool>, f: set<nat>, z: seq<nat>, d: seq<nat>, q: seq<nat>,
                  reff: seq<nat>, r: seq<nat>, carry: nat)
    requires 1 <= |d| == |q| == |r| && |z| == 2 * |d| && |reff| == |d| + 2 && carry <= 1
    requires Val(m, z[|d|..]) < Val(m, d)
    requires DivInv(m, m1, f, z, d, q, reff, 0)
    requires Val(m2, q) == Val(m1, q) && Val(m1, d) == Val(m, d)
    requires Val(m2, r) + (if carry == 1 then Pow2(|r|) else 0) ==
             ValN(m1, reff, |d|) + if Bit(m1, reff[|reff| - 1]) == 1 then Val(m1, d) else 0
    ensures Val(m2, q) == Val(m, z) / Val(m, d) && Val(m2, r) == Val(m, z) % Val(m, d)
  {
    hide ValN, Pow2, Signed, Val, Remainder, Reduced, Low;
    var n := |d|;
    RemainderAll(m, m1, z, d, q, reff);
    LowAndSign(m1, reff, n);
    Corrected(n, |reff|, Val(m1, reff), ValN(m1, reff, n), Bit(m1, reff[|reff| - 1]), Val(m, d), Val(m2, r), carry,
              Val(m, z), Val(m1, q));
  }

  lemma RegisterStart(base: seq<nat>, k: nat, z: seq<nat>, d: seq<nat>, q: seq<nat>)
    requires k <= |base| == |d| + 2 && Distinct(base) && Apart(z, base) && Apart(d, base) && Apart(q, base)
    ensures Register(base, Rolled(base, k), z, d, q)
  {
    RolledCells(base, k);
    var reff := Rolled(base, k);
    assert forall i {:trigger reff[i]} | 0 <= i < |reff| :: reff[i] in base;
  }

  /** All rounds: from the operands to the quotient and the last remainder in the rolled register. Frees the zero
      cell. */
  method Rounds(sim: SerialSimulator, inter: IntermediateAllocator, z: seq<nat>, d: seq<nat>, q: seq<nat>,
                base: seq<nat>, zero: nat) returns (reff: seq<nat>)
    requires DivPre(sim, inter, z, d, q) && |inter.free| >= 6
    requires |base| == |d| + 2 && LiveReg(sim, inter, base) && Distinct(base)
    requires Apart(z, base) && Apart(d, base) && Apart(q, base)
    requires Live(sim, inter, zero) && !sim.memory[zero] && Pooled(inter.cells, zero)
    requires zero !in base && zero !in z && zero !in d && zero !in q
    modifies sim, inter
    ensures Ready(sim, inter) && inter.free == old(inter.free) + {zero} && |sim.memory| == |old(sim.memory)|
    ensures reff == Rolled(base, |d|) && Register(base, reff, z, d, q)
    ensures DivInv(old(sim.memory), sim.memory, inter.free, z, d, q, reff, 0)
    ensures sim.latency == old(sim.latency) + 20 * (|d| + 2) + 3 + (|d| - 1) * (26 * |d| + 40)
  {
    hide Register, Rolled, Remainder;
    RegisterStart(base, 1, z, d, q);
    RegisterLive(sim, inter, base, Rolled(base, 1), z, d, q);
    assert zero !in Rolled(base, 1) by {
      RolledCells(base, 1);
    }
    DivStart(sim, inter, z, d, q, Rolled(base, 1), zero);
    inter.FreeCell(zero);
    reff := DivLoop(sim, inter, z, d, q, base, old(sim.memory));
  }

  /** The rounds and the correction over a register made of the remainder cells and two more. */
  method DivideRegister(sim: SerialSimulator, inter: IntermediateAllocator, z: seq<nat>, d: seq<nat>, q: seq<nat>,
                        r: seq<nat>, base: seq<nat>, zero: nat)
    requires DivPre(sim, inter, z, d, q) && |inter.free| >= 7
    requires |r| == |d| && |base| == |d| + 2 && base[..|d|] == r && LiveReg(sim, inter, base) && Distinct(base)
    requires Apart(z, base) && Apart(d, base) && Apart(q, base)
    requires Live(sim, inter, zero) && !sim.memory[zero] && Pooled(inter.cells, zero)
    requires zero !in base && zero !in z && zero !in d && zero !in q
    modifies sim, inter
    ensures Ready(sim, inter) && inter.free == old(inter.free) + {zero}
    ensures Kept(old(sim.memory), sim.memory, inter.free, base + q)
    ensures old(Val(sim.memory, z[|d|..]) < Val(sim.memory, d)) ==>
              && Val(sim.memory, q) == old(Val(sim.memory, z) / Val(sim.memory, d))
              && Val(sim.memory, r) == old(Val(sim.memory, z) % Val(sim.memory, d))
    ensures sim.latency == old(sim.latency) + 26 * |d| * |d| + 56 * |d| + 6
  {
    hide ValN, Val, Pow2, Remainder, Rolled;
    ghost var m := sim.memory;
    var n := |d|;
    var reff := Rounds(sim, inter, z, d, q, base, zero);
    ghost var m1 := sim.memory;
    RegisterLive(sim, inter, base, reff, z, d, q);
    RolledEnd(base, reff, r, n);
    ghost var carry := Correct(sim, inter, reff, d, r);
    DivideKept(m, m1, sim.memory, inter.free, z, d, q, reff, r, base);
    if Val(m, z[n..]) < Val(m, d) {
      DivResult(m, m1, sim.memory, inter.free, z, d, q, reff, r, carry);
    }
    DivCycles(n);
  }

  lemma DivCycles(n: nat)
    ensures 20 * (n + 2) + 3 + (n - 1) * (26 * n + 40) + (22 * n + 3) == 26 * n * n + 56 * n + 6
  {
  }

  lemma DivideKept(m: seq<bool>, m1: seq<bool>, m2: seq<bool>, f: set<nat>, z: seq<nat>, d: seq<nat>, q: seq<nat>,
                   reff: seq<nat>, r: seq<nat>, base: seq<nat>)
    requires Register(base, reff, z, d, q) && Kept(m, m1, f, reff + q) && Kept(m1, m2, f, r)
    requires |r| <= |base| && forall i {:trigger r[i]} | 0 <= i < |r| :: r[i] == base[i]
    requires Apart(q, base) && Apart(d, q) && Apart(d, base)
    requires forall i | 0 <= i < |q| :: q[i] !in f
    requires forall i | 0 <= i < |d| :: d[i] !in f
    ensures Kept(m, m2, f, base + q) && Val(m2, q) == Val(m1, q) && Val(m1, d) == Val(m, d)
  {
    hide Val;
    ValKept(m1, m2, f, r, q);
    ValKept(m, m1, f, reff + q, d);
  }

  /** After N rolls of N + 2 cells every register cell stands two above the remainder cell it is written to. */
  lemma RolledEnd(base: seq<nat>, reff: seq<nat>, r: seq<nat>, n: nat)
    requires |base| == n + 2 && reff == Rolled(base, n) && base[..n] == r && Distinct(base)
    ensures |r| == n && Distinct(r) && forall i {:trigger r[i]} | 0 <= i < n :: r[i] == base[i]
    ensures forall i, j | 0 <= i < j < n :: r[i] != reff[j]
  {
    assert forall j {:trigger reff[j]} | 0 <= j < n :: reff[j] == base[j + 2];
    assert forall i {:trigger r[i]} | 0 <= i < n :: r[i] == base[i];
  }

  /** fixedDivision: quotient and remainder of a 2N-bit dividend whose upper half is below the divisor,
      in 26N^2 + 56N + 7 cycles and with ten scratch cells for every N. */
  method FixedDivision(sim: SerialSimulator, inter: IntermediateAllocator, z: seq<nat>, d: seq<nat>, q: seq<nat>,
                       r: seq<nat>)
    requires DivPre(sim, inter, z, d, q) && |inter.free| >= 10
    requires |r| == |d| && LiveReg(sim, inter, r) && Distinct(r) && Apart(z, r) && Apart(d, r) && Apart(q, r)
    modifies sim, inter
    ensures Ready(sim, inter) && inter.free == old(inter.free)
    ensures Kept(old(sim.memory), sim.memory, inter.free, q + r)
    ensures old(Val(sim.memory, z[|d|..]) < Val(sim.memory, d)) ==>
              && Val(sim.memory, q) == old(Val(sim.memory, z) / Val(sim.memory, d))
              && Val(sim.memory, r) == old(Val(sim.memory, z) % Val(sim.memory, d))
    ensures sim.latency == old(sim.latency) + 26 * |d| * |d| + 56 * |d| + 7
  {
    hide ValN, Val, Pow2;
    ghost var m := sim.memory;
    var zero := inter.MallocCell();
    sim.Init0(zero);
    ghost var m1, zh := sim.memory, z[|d|..];
    assert Kept1(m, m1, {}, zero);
    ValKeptCell(m, m1, {}, zero, z);
    ValKeptCell(m, m1, {}, zero, d);
    assert forall i {:trigger zh[i]} | 0 <= i < |zh| :: zh[i] == z[|d| + i];
    ValKeptCell(m, m1, {}, zero, zh);
    DivideExtended(sim, inter, z, d, q, r, zero);
  }

  /** The two cells that extend the remainder to the register. */
  method DivideExtended(sim: SerialSimulator, inter: IntermediateAllocator, z: seq<nat>, d: seq<nat>, q: seq<nat>,
                        r: seq<nat>, zero: nat)
    requires DivPre(sim, inter, z, d, q) && |inter.free| >= 9
    requires |r| == |d| && LiveReg(sim, inter, r) && Distinct(r) && Apart(z, r) && Apart(d, r) && Apart(q, r)
    requires Live(sim, inter, zero) && !sim.memory[zero] && Pooled(inter.cells, zero)
    requires zero !in r && zero !in z && zero !in d && zero !in q
    modifies sim, inter
    ensures Ready(sim, inter) && inter.free == old(inter.free) + {zero}
    ensures Kept(old(sim.memory), sim.memory, inter.free, q + r)
    ensures old(Val(sim.memory, z[|d|..]) < Val(sim.memory, d)) ==>
              && Val(sim.memory, q) == old(Val(sim.memory, z) / Val(sim.memory, d))
              && Val(sim.memory, r) == old(Val(sim.memory, z) % Val(sim.memory, d))
    ensures sim.latency == old(sim.latency) + 26 * |d| * |d| + 56 * |d| + 6
  {
    hide ValN, Val, Pow2;
    var e0, e1 := inter.Malloc2();
    var base := r + [e0, e1];
    assert forall i {:trigger base[i]} | 0 <= i < |base| ::
             base[i] == if i < |r| then r[i] else if i == |r| then e0 else e1;
    DivideRegister(sim, inter, z, d, q, r, base, zero);
    inter.Free2(e0, e1);
  }
}
