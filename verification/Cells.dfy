/** Reading numbers out of memory cells, and what a step leaves unchanged. */
module Cells {
  import opened Numbers
  import opened Simulator
  import opened Allocator

  datatype Option<T> = None | Some(value: T)

  /** The bit in cell `c` as a number. */
  function Bit(m: seq<bool>, c: nat): (b: nat)
    ensures b <= 1
  {
    if c < |m| && m[c] then 1 else 0
  }

  /** The number in the first `n` cells of the address list `a`, least significant cell first
      (util/representation.py, binaryToUnsignedFixed). */
  function ValN(m: seq<bool>, a: seq<nat>, n: nat): (v: nat)
    requires n <= |a|
    ensures v < Pow2(n)
  {
    if n == 0 then 0
    else ValN(m, a, n - 1) + (if Bit(m, a[n - 1]) == 1 then Pow2(n - 1) else 0)
  }

  function Val(m: seq<bool>, a: seq<nat>): (v: nat)
    ensures v < Pow2(|a|)
  {
    ValN(m, a, |a|)
  }

  /** Only scratch cells (`f`) and the outputs `o`, `p` may differ. */
  ghost predicate Kept2(m: seq<bool>, m': seq<bool>, f: set<nat>, o: nat, p: nat) {
    |m| == |m'| && forall c: nat | c !in f && c != o && c != p && c < |m| :: m'[c] == m[c]
  }

  ghost predicate Kept1(m: seq<bool>, m': seq<bool>, f: set<nat>, o: nat) {
    |m| == |m'| && forall c: nat | c !in f && c != o && c < |m| :: m'[c] == m[c]
  }

  /** Only scratch cells and the cells of the address list `z` may differ. */
  ghost predicate Kept(m: seq<bool>, m': seq<bool>, f: set<nat>, z: seq<nat>) {
    |m| == |m'| && forall c: nat | c !in f && c !in z && c < |m| :: m'[c] == m[c]
  }

  lemma KeptSize(m: seq<bool>, m': seq<bool>, f: set<nat>, z: seq<nat>)
    requires Kept(m, m', f, z)
    ensures |m| == |m'|
  {
  }

  /** The scratch pool is consistent and inside the memory. */
  ghost predicate Ready(sim: SerialSimulator, inter: IntermediateAllocator)
    reads sim, inter
  {
    inter.Valid() && forall c: nat | c in inter.free :: c < |sim.memory|
  }

  /** A cell in memory that the pool will not hand out. */
  ghost predicate Live(sim: SerialSimulator, inter: IntermediateAllocator, c: nat)
    reads sim, inter
  {
    c < |sim.memory| && c !in inter.free
  }

  ghost predicate LiveReg(sim: SerialSimulator, inter: IntermediateAllocator, a: seq<nat>)
    reads sim, inter
  {
    forall i | 0 <= i < |a| :: a[i] < |sim.memory| && a[i] !in inter.free
  }

  ghost predicate Apart(a: seq<nat>, b: seq<nat>) {
    forall i, j | 0 <= i < |a| && 0 <= j < |b| :: a[i] != b[j]
  }

  ghost predicate Same(m: seq<bool>, m': seq<bool>, a: seq<nat>, lo: nat, hi: nat)
    requires lo <= hi <= |a|
  {
    forall i {:trigger Bit(m', a[i])} {:trigger Bit(m, a[i])} | lo <= i < hi :: Bit(m', a[i]) == Bit(m, a[i])
  }

  lemma {:induction false} ValSame(m: seq<bool>, m': seq<bool>, a: seq<nat>, n: nat)
    requires n <= |a| && Same(m, m', a, 0, n)
    ensures ValN(m', a, n) == ValN(m, a, n)
  {
    if n > 0 {
      ValSame(m, m', a, n - 1);
    }
  }

  /** A register that avoids scratch and outputs keeps its number. */
  lemma ValKept(m: seq<bool>, m': seq<bool>, f: set<nat>, z: seq<nat>, a: seq<nat>)
    requires Kept(m, m', f, z) && Apart(a, z) && forall i | 0 <= i < |a| :: a[i] !in f
    ensures Val(m', a) == Val(m, a) && Same(m, m', a, 0, |a|)
  {
    ValSame(m, m', a, |a|);
  }

  lemma ValKeptCell(m: seq<bool>, m': seq<bool>, f: set<nat>, o: nat, a: seq<nat>)
    requires Kept1(m, m', f, o) && o !in a && forall i | 0 <= i < |a| :: a[i] !in f
    ensures Val(m', a) == Val(m, a) && Same(m, m', a, 0, |a|)
  {
    ValSame(m, m', a, |a|);
  }

  lemma ValNext(m: seq<bool>, a: seq<nat>, n: nat)
    requires n < |a|
    ensures ValN(m, a, n + 1) == ValN(m, a, n) + if Bit(m, a[n]) == 1 then Pow2(n) else 0
  {
  }

  /** The number in `n` cells splits at any cell `k`. */
  lemma {:induction false} ValSplit(m: seq<bool>, a: seq<nat>, k: nat, n: nat)
    requires k <= n <= |a|
    ensures ValN(m, a, n) == ValN(m, a, k) + Pow2(k) * ValN(m, a[k..], n - k)
    decreases n
  {
    if n > k {
      ValSplit(m, a, k, n - 1);
      Pow2Add(k, n - k - 1);
      assert a[k..][n - k - 1] == a[n - 1];
      MulAdd(Pow2(k), ValN(m, a[k..], n - k - 1), Pow2(n - k - 1));
    }
  }

  /** The first `n` cells only depend on the addresses of those cells. */
  lemma {:induction false} ValPrefix(m: seq<bool>, a: seq<nat>, b: seq<nat>, n: nat)
    requires n <= |a| && n <= |b| && forall i | 0 <= i < n :: a[i] == b[i]
    ensures ValN(m, a, n) == ValN(m, b, n)
  {
    if n > 0 {
      ValPrefix(m, a, b, n - 1);
    }
  }

  /** Bitwise equal cells hold equal numbers, in any memories and at any addresses. */
  lemma {:induction false} ValBits(m: seq<bool>, a: seq<nat>, m': seq<bool>, b: seq<nat>, n: nat)
    requires n <= |a| && n <= |b| && forall i | 0 <= i < n :: Bit(m, a[i]) == Bit(m', b[i])
    ensures ValN(m, a, n) == ValN(m', b, n)
  {
    if n > 0 {
      ValBits(m, a, m', b, n - 1);
    }
  }

  lemma {:induction false} ValZero(m: seq<bool>, a: seq<nat>, n: nat)
    requires n <= |a|
    ensures ValN(m, a, n) == 0 <==> forall i {:trigger a[i]} | 0 <= i < n :: Bit(m, a[i]) == 0
  {
    if n > 0 {
      ValZero(m, a, n - 1);
    }
  }

  /** The low cells are the remainder, the high cells the quotient. */
  lemma ValDivMod(m: seq<bool>, a: seq<nat>, k: nat)
    requires k <= |a|
    ensures Val(m, a) % Pow2(k) == ValN(m, a, k)
    ensures Val(m, a) / Pow2(k) == ValN(m, a[k..], |a| - k)
  {
    hide Pow2, ValN;
    ValSplit(m, a, k, |a|);
    DivModUnique(Val(m, a), Pow2(k), ValN(m, a[k..], |a| - k), ValN(m, a, k));
  }

  lemma ValAppend(m: seq<bool>, a: seq<nat>, b: seq<nat>)
    ensures Val(m, a + b) == Val(m, a) + Pow2(|a|) * Val(m, b)
  {
    ValSplit(m, a + b, |a|, |a + b|);
    ValPrefix(m, a + b, a, |a|);
    assert (a + b)[|a|..] == b;
  }

  /** A cell on top. */
  lemma ValSnoc(m: seq<bool>, a: seq<nat>, c: nat)
    ensures Val(m, a + [c]) == Val(m, a) + if Bit(m, c) == 1 then Pow2(|a|) else 0
  {
    ValNext(m, a + [c], |a|);
    ValPrefix(m, a + [c], a, |a|);
  }

  /** A cell below. */
  lemma ValBelow(m: seq<bool>, c: nat, a: seq<nat>)
    ensures Val(m, [c] + a) == Bit(m, c) + 2 * Val(m, a)
  {
    ValAppend(m, [c], a);
    ValCell(m, c);
    assert Pow2(1) == 2 * Pow2(0);
  }

  lemma ValCell(m: seq<bool>, c: nat)
    ensures Val(m, [c]) == Bit(m, c)
  {
    assert ValN(m, [c], 0) == 0;
    assert ValN(m, [c], 1) == Bit(m, c);
  }

  /** Reading a cell back from the number: bit `i` of the number is the bit in cell `i`. */
  lemma BitOfVal(m: seq<bool>, a: seq<nat>, i: nat)
    requires i < |a|
    ensures BitAt(Val(m, a), i) == Bit(m, a[i])
  {
    hide Pow2, Val, ValN, Bit;
    ValDivMod(m, a, i);
    ValWhole(m, a[i..]);
    var hi := a[i + 1..];
    assert a[i..] == [a[i]] + hi;
    ValBelow(m, a[i], hi);
    DivModUnique(Val(m, a[i..]), 2, Val(m, hi), Bit(m, a[i]));
  }

  lemma ValWhole(m: seq<bool>, a: seq<nat>)
    ensures Val(m, a) == ValN(m, a, |a|)
  {
  }
}
