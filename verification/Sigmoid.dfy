/** The serial fixed-point programs of f6_dashboard.py: HornerEvaluator and DenominatorEvaluator. */
module Sigmoid {
  import opened Numbers
  import opened Simulator
  import opened Allocator
  import opened Cells
  import opened SerialFixed
  import opened SerialKaratsuba

  /** A constant written into cells without a cycle: bit `i` of it into cell `i`. */
  method WriteConstant(sim: SerialSimulator, a: seq<nat>, v: nat)
    requires Distinct(a) && forall i | 0 <= i < |a| :: a[i] < |sim.memory|
    modifies sim`memory
    ensures Kept(old(sim.memory), sim.memory, {}, a)
    ensures Val(sim.memory, a) == v % Pow2(|a|)
  {
    ghost var m := sim.memory;
    for i := 0 to |a|
      invariant Kept(m, sim.memory, {}, a)
      invariant ValN(sim.memory, a, i) == v % Pow2(i)
    {
      ghost var m1 := sim.memory;
      sim.memory := sim.memory[a[i] := BitAt(v, i) == 1];
      assert Same(m1, sim.memory, a, 0, i);
      ValSame(m1, sim.memory, a, i);
      BitSplit(v, i);
    }
  }

  /** A constant in new cells. */
  method Constant(sim: SerialSimulator, inter: IntermediateAllocator, n: nat, v: nat) returns (a: seq<nat>)
    requires Ready(sim, inter) && 1 <= n <= |inter.free|
    modifies sim`memory, inter
    ensures Ready(sim, inter) && |a| == n && Distinct(a) && |inter.free| == |old(inter.free)| - n
    ensures forall i | 0 <= i < n ::
              a[i] in old(inter.free) && a[i] !in inter.free && a[i] < |sim.memory| && Pooled(inter.cells, a[i])
    ensures forall c: nat {:trigger c in inter.free} :: c in inter.free <==> c in old(inter.free) && c !in a
    ensures Kept(old(sim.memory), sim.memory, old(inter.free), [])
    ensures Val(sim.memory, a) == v % Pow2(n)
  {
    a := inter.Malloc(n);
    WriteConstant(sim, a, v);
  }

  /** z = x + v modulo 2^N, with the constant in scratch cells. */
  method AddConstant(sim: SerialSimulator, inter: IntermediateAllocator, x: seq<nat>, v: nat, z: seq<nat>)
    requires Ready(sim, inter) && |inter.free| >= |x| + 5 && 1 <= |x| == |z|
    requires LiveReg(sim, inter, x) && LiveReg(sim, inter, z) && Distinct(z) && Apart(x, z)
    modifies sim, inter
    ensures Ready(sim, inter) && inter.free == old(inter.free) && Kept(old(sim.memory), sim.memory, inter.free, z)
    ensures Val(sim.memory, z) == (old(Val(sim.memory, x)) + v % Pow2(|z|)) % Pow2(|z|)
  {
    hide Val, Pow2;
    ghost var m := sim.memory;
    var c := Constant(sim, inter, |x|, v);
    ValKept(m, sim.memory, old(inter.free), [], x);
    ghost var k := FixedAddition(sim, inter, x, c, z, NoCarry, None);
    ModCarry(Val(sim.memory, z), k, Pow2(|z|), Val(m, x) + v % Pow2(|z|));
    inter.Free(c);
  }

  /** The low half of a product register. */
  lemma LowHalf(m: seq<bool>, z: seq<nat>, n: nat)
    requires n <= |z|
    ensures Val(m, z[..n]) == Val(m, z) % Pow2(n)
  {
    hide ValN, Pow2;
    ValDivMod(m, z, n);
    ValPrefix(m, z, z[..n], n);
  }

  /** What a program needs of its input and its output register. */
  ghost predicate Program(sim: SerialSimulator, inter: IntermediateAllocator, x: seq<nat>, z: seq<nat>)
    reads sim, inter
  {
    && Ready(sim, inter) && |x| >= 2 && |z| == 2 * |x| && LiveReg(sim, inter, x) && LiveReg(sim, inter, z)
    && Distinct(x) && Distinct(z) && Apart(x, z)
  }

  /** result = (low half of t) * x + v, over 2N bits. */
  method TimesPlus(sim: SerialSimulator, inter: IntermediateAllocator, t: seq<nat>, x: seq<nat>, v: nat, z: seq<nat>)
    requires Program(sim, inter, x, z) && |t| >= |x| && LiveReg(sim, inter, t) && Distinct(t) && Apart(t, z)
    requires |inter.free| >= 2 * |x| + MulCells(|x|) && |inter.free| >= 4 * |x| + 5
    modifies sim, inter
    ensures Ready(sim, inter) && inter.free == old(inter.free) && Kept(old(sim.memory), sim.memory, inter.free, z)
    ensures Val(sim.memory, z) == (old(Val(sim.memory, t)) % Pow2(|x|) * old(Val(sim.memory, x)) +
                                   v % Pow2(|z|)) % Pow2(|z|)
  {
    hide Val, Pow2, MulCells;
    ghost var m := sim.memory;
    var low := t[..|x|];
    assert forall i {:trigger low[i]} | 0 <= i < |low| :: low[i] == t[i];
    LowHalf(m, t, |x|);
    var p := inter.Malloc(2 * |x|);
    FixedMultiplication(sim, inter, low, x, p);
    AddConstant(sim, inter, p, v, z);
    inter.Free(p);
  }

  /** One multiplication and addition of the scheme over 2N bits, with `p = 2^N` and `q = 2^(2N)`. */
  function Scheme(p: nat, q: nat, t: nat, x: nat, v: nat): nat
    requires p > 0 && q > 0
  {
    (t % p * x + v % p % q) % q
  }

  /** The last two steps of the scheme. */
  method HornerRest(sim: SerialSimulator, inter: IntermediateAllocator, t1: seq<nat>, x: seq<nat>, result: seq<nat>)
    requires Program(sim, inter, x, result) && |inter.free| >= 4 * |x| + MulCells(|x|) && |inter.free| >= 6 * |x| + 5
    requires |t1| == |x| && LiveReg(sim, inter, t1) && Distinct(t1) && Apart(t1, result)
    modifies sim, inter
    ensures Ready(sim, inter) && inter.free == old(inter.free) && Kept(old(sim.memory), sim.memory, inter.free, result)
    ensures var p, q, xv := Pow2(|x|), Pow2(|result|), old(Val(sim.memory, x));
            Val(sim.memory, result) == Scheme(p, q, Scheme(p, q, old(Val(sim.memory, t1)), xv, 60), xv, 120)
  {
    hide Val, Pow2, MulCells;
    ghost var m := sim.memory;
    var t3 := inter.Malloc(2 * |x|);
    TimesPlus(sim, inter, t1, x, 60 % Pow2(|x|), t3);
    ValKept(m, sim.memory, old(inter.free), [], x);
    TimesPlus(sim, inter, t3, x, 120 % Pow2(|x|), result);
    inter.Free(t3);
  }

  /** HornerEvaluator._evaluate_fixed_serial: the 2N-bit result is the scheme with its reductions, and its low N bits
      are the numerator modulo 2^N. */
  method HornerSerial(sim: SerialSimulator, inter: IntermediateAllocator, x: seq<nat>, result: seq<nat>)
    requires Program(sim, inter, x, result) && |inter.free| >= 5 * |x| + MulCells(|x|) && |inter.free| >= 7 * |x| + 5
    modifies sim, inter
    ensures Ready(sim, inter) && inter.free == old(inter.free) && Kept(old(sim.memory), sim.memory, inter.free, result)
    ensures var p, q, v := Pow2(|x|), Pow2(2 * |x|), old(Val(sim.memory, x));
            var t1 := (v + 12 % p) % p;
            var t3 := (t1 * v + 60 % p) % q;
            Val(sim.memory, result) == (t3 % p * v + 120 % p) % q
    ensures var v := old(Val(sim.memory, x));
            Val(sim.memory, result[..|x|]) == (v * v * v + 12 * (v * v) + 60 * v + 120) % Pow2(|x|)
  {
    hide Val, Pow2, MulCells, Scheme;
    ghost var m := sim.memory;
    var t1 := inter.Malloc(|x|);
    AddConstant(sim, inter, x, 12, t1);
    ghost var m1 := sim.memory;
    ValKept(m, m1, old(inter.free), [], x);
    HornerRest(sim, inter, t1, x, result);
    inter.Free(t1);
    LowHalf(sim.memory, result, |x|);
    Pow2Add(|x|, |x|);
    Pow2Same(|result|, 2 * |x|);
    HornerLow(Pow2(|x|), Pow2(|result|), Val(m, x), Val(m1, t1));
    HornerWhole(Pow2(|x|), Pow2(|result|), Val(m, x), Val(m1, t1));
  }

  /** The scheme written out: constants and first sums fit their registers. */
  lemma HornerWhole(p: nat, q: nat, x: nat, t1: nat)
    requires p > 0 && q == p * p && q > 0 && t1 == (x + 12 % p) % p
    ensures var t3 := (t1 * x + 60 % p) % q;
            Scheme(p, q, Scheme(p, q, t1, x, 60), x, 120) == (t3 % p * x + 120 % p) % q
  {
    DivModUnique(t1, p, 0, t1);
    SchemeStep(p, q, t1, x, 60);
    SchemeStep(p, q, Scheme(p, q, t1, x, 60), x, 120);
    hide Scheme;
  }

  lemma SchemeStep(p: nat, q: nat, t: nat, x: nat, v: nat)
    requires p > 0 && q == p * p && q > 0
    ensures Scheme(p, q, t, x, v) == (t % p * x + v % p) % q
  {
    SmallMod(v % p, p, q);
  }

  /** Reduction modulo `p` at any step leaves the low bits alone. */
  lemma MulMod(a: int, b: int, p: int)
    requires p > 0
    ensures a % p * b % p == a * b % p
  {
    var q, r := a / p, a % p;
    MulAdd(b, q * p, r);
    assert q * p * b == q * b * p;
    var s := r * b / p;
    MulAdd(p, q * b, s);
    DivModUnique(a * b, p, q * b + s, r * b % p);
  }

  lemma ModSquare(v: int, p: int, q: int)
    requires p > 0 && q == p * p
    ensures q > 0 && v % q % p == v % p
  {
    MulLess(p, 0, p);
    var h, r := v / q, v % q;
    assert v == h * q + r;
    assert h * (p * p) == h * p * p;
    MulAdd(p, h * p, r / p);
    DivModUnique(v, p, h * p + r / p, r % p);
  }

  /** A number below `p` is its own remainder modulo `p * p`. */
  lemma SmallMod(v: int, p: int, q: int)
    requires 0 <= v < p && q == p * p
    ensures q > 0 && v % q == v
  {
    MulMono(p, 1, p);
    DivModUnique(v, q, 0, v);
  }

  lemma AddMods(a: int, b: int, c: int, d: int, p: int)
    requires p > 0 && a % p == c % p && b % p == d % p
    ensures (a + b) % p == (c + d) % p
  {
    ModAdd(a, b, p);
    ModAdd(c, b, p);
    ModAdd(b, c, p);
    ModAdd(d, c, p);
  }

  /** One step of the scheme, modulo `p`. */
  lemma SchemeLow(p: nat, q: nat, t: nat, u: nat, x: nat, v: nat)
    requires p > 0 && q == p * p && q > 0 && t % p == u % p
    ensures Scheme(p, q, t, x, v) % p == (u * x + v) % p
  {
    var w, c := t % p, v % p;
    var wx := w * x;
    SmallMod(c, p, q);
    ModSquare(wx + c, p, q);
    MulMod(u, x, p);
    DivModUnique(c, p, 0, c);
    AddMods(wx, c, u * x, v, p);
  }

  lemma HornerLow(p: nat, q: nat, x: nat, t1: nat)
    requires p > 0 && q == p * p && q > 0 && t1 == (x + 12 % p) % p
    ensures Scheme(p, q, Scheme(p, q, t1, x, 60), x, 120) % p == (x * x * x + 12 * (x * x) + 60 * x + 120) % p
  {
    hide Scheme;
    ModAdd(12, x, p);
    DivModUnique(t1, p, 0, t1);
    SchemeLow(p, q, t1, x + 12, x, 60);
    SchemeLow(p, q, Scheme(p, q, t1, x, 60), (x + 12) * x + 60, x, 120);
    Expand(x);
  }

  lemma Expand(x: int)
    ensures ((x + 12) * x + 60) * x + 120 == x * x * x + 12 * (x * x) + 60 * x + 120
  {
    MulAdd(x, x, 12);
    MulAdd(x, (x + 12) * x, 60);
    MulAdd(x, x * x, 12 * x);
    assert 12 * x * x == 12 * (x * x);
  }

  /** Cells copied without a cycle. */
  method CopyCells(sim: SerialSimulator, a: seq<nat>, b: seq<nat>)
    requires |a| == |b| && Distinct(b) && Apart(a, b)
    requires forall i | 0 <= i < |a| :: a[i] < |sim.memory| && b[i] < |sim.memory|
    modifies sim`memory
    ensures Kept(old(sim.memory), sim.memory, {}, b)
    ensures Val(sim.memory, b) == old(Val(sim.memory, a))
  {
    ghost var m := sim.memory;
    for i := 0 to |a|
      invariant Kept(m, sim.memory, {}, b)
      invariant forall k {:trigger b[k]} | 0 <= k < i :: Bit(m, a[k]) == Bit(sim.memory, b[k])
    {
      ghost var m1 := sim.memory;
      sim.memory := sim.memory[b[i] := sim.memory[a[i]]];
      assert forall k {:trigger b[k]} | 0 <= k < i :: Bit(sim.memory, b[k]) == Bit(m1, b[k]);
    }
    ValBits(m, a, sim.memory, b, |a|);
  }

  /** t = x * x, through a copy of `x`. */
  method Square(sim: SerialSimulator, inter: IntermediateAllocator, x: seq<nat>, t: seq<nat>)
    requires Program(sim, inter, x, t) && |inter.free| >= |x| + MulCells(|x|)
    modifies sim, inter
    ensures Ready(sim, inter) && inter.free == old(inter.free) && Kept(old(sim.memory), sim.memory, inter.free, t)
    ensures Val(sim.memory, t) == old(Val(sim.memory, x) * Val(sim.memory, x))
  {
    hide Val, Pow2, MulCells;
    ghost var m := sim.memory;
    var copy := inter.Malloc(|x|);
    CopyCells(sim, x, copy);
    ValKept(m, sim.memory, {}, copy, x);
    FixedMultiplication(sim, inter, x, copy, t);
    inter.Free(copy);
  }

  /** t = v * (low half of s). */
  method ScaleLow(sim: SerialSimulator, inter: IntermediateAllocator, v: nat, s: seq<nat>, t: seq<nat>)
    requires Ready(sim, inter) && |s| == |t| && |s| >= 4 && |s| % 2 == 0 && |inter.free| >= |s| / 2 + MulCells(|s| / 2)
    requires LiveReg(sim, inter, s) && LiveReg(sim, inter, t) && Distinct(s) && Distinct(t) && Apart(s, t)
    modifies sim, inter
    ensures Ready(sim, inter) && inter.free == old(inter.free) && Kept(old(sim.memory), sim.memory, inter.free, t)
    ensures var p := Pow2(|s| / 2); Val(sim.memory, t) == v % p * (old(Val(sim.memory, s)) % p)
  {
    hide Val, Pow2, MulCells;
    ghost var m := sim.memory;
    var n := |s| / 2;
    var low := s[..n];
    assert forall i {:trigger low[i]} | 0 <= i < |low| :: low[i] == s[i];
    var c := Constant(sim, inter, n, v);
    ValKept(m, sim.memory, old(inter.free), [], low);
    LowHalf(m, s, n);
    FixedMultiplication(sim, inter, c, low, t);
    inter.Free(c);
  }

  /** The number in cells `n..e` of `t`. */
  lemma UpperPart(m: seq<bool>, t: seq<nat>, n: nat, e: nat)
    requires n <= e <= |t|
    ensures Val(m, t[n..e]) == Val(m, t) / Pow2(n) % Pow2(e - n)
  {
    hide ValN, Pow2;
    var hi := t[n..];
    assert hi[..e - n] == t[n..e];
    ValDivMod(m, t, n);
    ValDivMod(m, hi, e - n);
    ValPrefix(m, hi, t[n..e], e - n);
  }

  /** The upper part of the product into the upper part of the result. */
  method PlaceUpper(sim: SerialSimulator, t: seq<nat>, z: seq<nat>, n: nat, e: nat)
    requires n <= e <= |t| && e <= |z| && Distinct(z) && Apart(t, z)
    requires forall i | 0 <= i < |t| :: t[i] < |sim.memory|
    requires forall i | 0 <= i < |z| :: z[i] < |sim.memory|
    modifies sim`memory
    ensures Kept(old(sim.memory), sim.memory, {}, z[n..e])
    ensures Val(sim.memory, z[n..e]) == old(Val(sim.memory, t)) / Pow2(n) % Pow2(e - n)
  {
    hide Val, Pow2;
    var th, zh := t[n..e], z[n..e];
    assert forall i {:trigger th[i]} | 0 <= i < |th| :: th[i] == t[n + i];
    assert forall i {:trigger zh[i]} | 0 <= i < |zh| :: zh[i] == z[n + i];
    UpperPart(sim.memory, t, n, e);
    CopyCells(sim, th, zh);
  }

  /** The sum into the low half of the result, the upper half of the product into the rest. */
  method PlaceResult(sim: SerialSimulator, inter: IntermediateAllocator, t: seq<nat>, v: nat, z: seq<nat>, n: nat,
                     e: nat)
    requires Ready(sim, inter) && |t| == 2 * n && n >= 1 && n <= e <= 2 * n && e <= |z| && |inter.free| >= n + 5
    requires LiveReg(sim, inter, t) && LiveReg(sim, inter, z) && Distinct(t) && Distinct(z) && Apart(t, z)
    modifies sim, inter
    ensures Ready(sim, inter) && inter.free == old(inter.free)
    ensures Kept(old(sim.memory), sim.memory, inter.free, z[..e])
    ensures var p := Pow2(n);
            && Val(sim.memory, z[..n]) == (old(Val(sim.memory, t)) % p + v % p) % p
            && Val(sim.memory, z[n..e]) == old(Val(sim.memory, t)) / p % Pow2(e - n)
  {
    hide Val, Pow2;
    ghost var m := sim.memory;
    var tl, zl := t[..n], z[..n];
    assert forall i {:trigger tl[i]} | 0 <= i < n :: tl[i] == t[i];
    assert forall i {:trigger zl[i]} | 0 <= i < n :: zl[i] == z[i];
    LowHalf(m, t, n);
    AddConstant(sim, inter, tl, v, zl);
    ghost var m1 := sim.memory;
    ValKept(m, m1, inter.free, zl, t);
    PlaceUpper(sim, t, z, n, e);
    ValKept(m1, sim.memory, {}, z[n..e], zl);
    PlacedCells(z, n, e);
  }

  lemma PlacedCells(z: seq<nat>, n: nat, e: nat)
    requires n <= e <= |z|
    ensures forall c | c in z[..n] || c in z[n..e] :: c in z[..e]
  {
    assert z[..e] == z[..n] + z[n..e];
  }

  /** DenominatorEvaluator._evaluate_fixed_serial: the low N bits of the result are the denominator modulo 2^N; cells of
      the result above them take the upper bits of the last product, without the carry of the addition. */
  method DenominatorSerial(sim: SerialSimulator, inter: IntermediateAllocator, x: seq<nat>, result: seq<nat>)
    requires Ready(sim, inter) && 2 <= |x| <= |result| && LiveReg(sim, inter, x) && LiveReg(sim, inter, result)
    requires Distinct(x) && Distinct(result) && Apart(x, result)
    requires |inter.free| >= 5 * |x| + MulCells(|x|) && |inter.free| >= 5 * |x| + 5
    modifies sim, inter
    ensures Ready(sim, inter) && inter.free == old(inter.free)
    ensures var v, p, e := old(Val(sim.memory, x)), Pow2(|x|), if |result| < 2 * |x| then |result| else 2 * |x|;
            && Kept(old(sim.memory), sim.memory, inter.free, result[..e])
            && Val(sim.memory, result[..|x|]) == (24 * (v * v) + 240) % p
            && Val(sim.memory, result[|x|..e]) == 24 % p * (v * v % p) / p % Pow2(e - |x|)
  {
    hide Val, Pow2, MulCells;
    ghost var xv, p := Val(sim.memory, x), Pow2(|x|);
    var e := if |result| < 2 * |x| then |result| else 2 * |x|;
    var t1 := inter.Malloc(2 * |x|);
    Square(sim, inter, x, t1);
    ghost var v1 := Val(sim.memory, t1);
    var t2 := inter.Malloc(2 * |x|);
    ScaleLow(sim, inter, 24, t1, t2);
    ghost var v2 := Val(sim.memory, t2);
    PlaceResult(sim, inter, t2, 240, result, |x|, e);
    inter.Free(t1);
    inter.Free(t2);
    DenominatorOf(p, xv, v1, v2, Val(sim.memory, result[..|x|]), Val(sim.memory, result[|x|..e]), Pow2(e - |x|));
  }

  /** The two halves of the result in terms of `x`. */
  lemma DenominatorOf(p: nat, x: nat, v1: nat, v2: nat, lo: nat, hi: nat, r: nat)
    requires p > 0 && r > 0 && v1 == x * x && v2 == 24 % p * (v1 % p)
    requires lo == (v2 % p + 240 % p) % p && hi == v2 / p % r
    ensures lo == (24 * (x * x) + 240) % p && hi == 24 % p * (x * x % p) / p % r
  {
    DenominatorLow(p, x);
  }

  lemma DenominatorLow(p: nat, x: nat)
    requires p > 0
    ensures (24 % p * (x * x % p) % p + 240 % p) % p == (24 * (x * x) + 240) % p
  {
    var s := x * x;
    ProductMod(24, s, p);
    var t := 24 % p * (s % p) % p;
    DivModUnique(t, p, 0, t);
    DivModUnique(240 % p, p, 0, 240 % p);
    AddMods(t, 240 % p, 24 * s, 240, p);
  }

  lemma ProductMod(c: int, s: int, p: int)
    requires p > 0
    ensures c % p * (s % p) % p == c * s % p
  {
    var r := s % p;
    MulMod(c, r, p);
    MulMod(s, c, p);
    assert c * r == r * c && s * c == c * s;
  }
}
