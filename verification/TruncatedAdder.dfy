/** The truncated adder of truncated_adder/: the bit-level loop of simulate_python.py and the masked word-level form of
    verify_truncated_adder.py, for any width. */
module TruncatedAdder {
  import opened Numbers

  /** The bits `lo..hi` of `v`, in place. */
  function Part(v: nat, lo: nat, hi: nat): int {
    v % Pow2(hi) - v % Pow2(lo)
  }

  /** The number in the first `k` bits of a list, least significant first. */
  function Low(bits: seq<nat>, k: nat): nat
    requires k <= |bits|
  {
    if k == 0 then 0 else Low(bits, k - 1) + if bits[k - 1] == 1 then Pow2(k - 1) else 0
  }

  lemma {:induction false} LowSame(bits: seq<nat>, bits': seq<nat>, k: nat)
    requires k <= |bits| && k <= |bits'| && forall i | 0 <= i < k :: bits[i] == bits'[i]
    ensures Low(bits, k) == Low(bits', k)
  {
    if k > 0 {
      LowSame(bits, bits', k - 1);
    }
  }

  /** The full adder cell on bits. */
  function Xor(a: nat, b: nat): nat {
    if a != b then 1 else 0
  }

  function And(a: nat, b: nat): nat {
    if a == 1 && b == 1 then 1 else 0
  }

  function Or(a: nat, b: nat): nat {
    if a == 1 || b == 1 then 1 else 0
  }

  /** Which part of the operands counts, and the carry that enters it: none once a bit is truncated. */
  function Kept(approx: int): nat {
    if approx < 0 then 0 else approx
  }

  function Entering(cin: nat, approx: int): nat {
    if approx <= 0 then cin % 2 else 0
  }

  /** The exact sum of the parts that are not truncated. */
  function Total(a: nat, b: nat, cin: nat, width: nat, approx: int): int {
    Part(a, Kept(approx), width) + Part(b, Kept(approx), width) + Entering(cin, approx)
  }

  /** After `i` columns. */
  ghost predicate Columns(a: nat, b: nat, cin: nat, approx: int, bits: seq<nat>, carry: nat, i: nat)
    requires i <= |bits|
  {
    && carry <= 1
    && (i < Kept(approx) ==> Low(bits, i) == 0 && carry == if i == 0 then cin % 2 else 0)
    && (i >= Kept(approx) ==> Low(bits, i) + (if carry == 1 then Pow2(i) else 0) == Total(a, b, cin, i, approx))
  }

  lemma ColumnStep(a: nat, b: nat, cin: nat, approx: int, bits: seq<nat>, carry: nat, i: nat, s: nat, c: nat)
    requires i < |bits| && Columns(a, b, cin, approx, bits, carry, i)
    requires if i < approx then s == 0 && c == 0
             else s == Xor(Xor(BitAt(a, i), BitAt(b, i)), carry) &&
                  c == Or(Or(And(BitAt(a, i), BitAt(b, i)), And(BitAt(b, i), carry)), And(BitAt(a, i), carry))
    ensures Columns(a, b, cin, approx, bits[i := s], c, i + 1)
  {
    LowSame(bits, bits[i := s], i);
    hide Pow2;
    BitSplit(a, i);
    BitSplit(b, i);
    Pow2Next(i);
  }

  /** The sum of the accurate parts in the operands themselves. */
  lemma TotalIs(a: nat, b: nat, cin: nat, width: nat, approx: int)
    ensures approx <= 0 ==> Total(a, b, cin, width, approx) == a % Pow2(width) + b % Pow2(width) + cin % 2
    ensures approx > 0 ==>
              Total(a, b, cin, width, approx) ==
                a % Pow2(width) + b % Pow2(width) - a % Pow2(approx) - b % Pow2(approx)
  {
    assert Pow2(0) == 1 && a % 1 == 0 && b % 1 == 0;
  }

  /** add_approx_hw: the loop over full-adder and zero cells, and the loop that rebuilds the word. */
  method AddApproxHw(a: nat, b: nat, cin: nat, width: nat, approx: int) returns (sum: nat, carry: nat)
    ensures carry <= 1
    ensures width >= 1 && approx >= width ==> sum == 0 && carry == 0
    ensures approx <= 0 ==> sum + (if carry == 1 then Pow2(width) else 0) == a % Pow2(width) + b % Pow2(width) + cin % 2
    ensures 0 < approx < width ==>
              sum + (if carry == 1 then Pow2(width) else 0) ==
                a % Pow2(width) + b % Pow2(width) - a % Pow2(approx) - b % Pow2(approx)
    ensures width == 0 < approx ==> sum == 0 && carry == cin % 2
    ensures sum < Pow2(width)
    ensures approx >= 1 || cin % 2 == 0 ==> sum == AddApprox(a, b, width, approx)
  {
    var bits := seq(width, _ => 0);
    carry := cin % 2;
    assert Columns(a, b, cin, approx, bits, carry, 0) by {
      assert Pow2(0) == 1 && a % 1 == 0 && b % 1 == 0;
    }
    for i := 0 to width
      invariant |bits| == width && Columns(a, b, cin, approx, bits, carry, i)
    {
      hide Columns;
      var s, c := 0, 0;
      if i >= approx {
        s := Xor(Xor(BitAt(a, i), BitAt(b, i)), carry);
        c := Or(Or(And(BitAt(a, i), BitAt(b, i)), And(BitAt(b, i), carry)), And(BitAt(a, i), carry));
      }
      ColumnStep(a, b, cin, approx, bits, carry, i, s, c);
      bits := bits[i := s];
      carry := c;
    }
    sum := 0;
    for i := 0 to width
      invariant sum == Low(bits, i) && sum < Pow2(i)
    {
      sum := sum + if bits[i] == 1 then Pow2(i) else 0;
    }
    TotalIs(a, b, cin, width, approx);
    if approx < width && (approx >= 1 || cin % 2 == 0) {
      WordIsTotal(a, b, cin, width, approx, sum, carry);
    }
  }

  /** Lower bits of the lower bits, and what is above them. */
  lemma PartMultiple(v: nat, lo: nat, hi: nat) returns (k: nat)
    requires lo <= hi
    ensures v % Pow2(hi) == v % Pow2(lo) + k * Pow2(lo)
  {
    hide Pow2;
    Pow2Add(lo, hi - lo);
    k := NestedMod(v, Pow2(lo), Pow2(hi - lo), Pow2(hi));
  }

  lemma NestedMod(v: nat, p: nat, q: nat, m: nat) returns (k: nat)
    requires p > 0 && q > 0 && m == p * q && m > 0
    ensures v % m == v % p + k * p
  {
    var h, l := v / m, v % m;
    k := l / p;
    Regrouped(v, h, m, l, p, q, k);
    DivModUnique(v, p, h * q + k, l % p);
  }

  lemma Regrouped(v: int, h: int, m: int, l: int, p: int, q: int, k: int)
    requires p > 0 && m == p * q && v == h * m + l && k == l / p
    ensures v == (h * q + k) * p + l % p && l == l % p + k * p
  {
    assert h * (p * q) == h * q * p;
    MulAdd(p, h * q, k);
    assert l == k * p + l % p;
  }

  lemma PartNonneg(v: nat, lo: nat, hi: nat)
    requires lo <= hi
    ensures v % Pow2(lo) <= v % Pow2(hi)
  {
    var k := PartMultiple(v, lo, hi);
    MulMono(Pow2(lo), 0, k);
  }

  /** A word masked to the bits `lo..hi`. */
  function Masked(v: nat, lo: nat, hi: nat): (r: nat)
    requires lo <= hi
  {
    PartNonneg(v, lo, hi);
    v % Pow2(hi) - v % Pow2(lo)
  }

  /** add_approx: both operands masked to the accurate bits, added, and masked again. */
  function AddApprox(a: nat, b: nat, width: nat, approx: int): nat {
    if approx >= width then 0
    else if approx <= 0 then Wrapped(a + b, width)
    else Masked(Masked(a, approx, width) + Masked(b, approx, width), approx, width)
  }

  function Wrapped(v: nat, width: nat): (r: nat)
    ensures r == v % Pow2(width)
  {
    v % Pow2(width)
  }

  /** Masking the sum of masked words only removes the overflow. */
  lemma MaskedSum(a: nat, b: nat, width: nat, approx: nat)
    requires approx < width
    ensures var t := Masked(a, approx, width) + Masked(b, approx, width);
            Masked(t, approx, width) == t % Pow2(width) &&
            t == a % Pow2(width) + b % Pow2(width) - (a % Pow2(approx) + b % Pow2(approx))
  {
    var i := PartMultiple(a, approx, width);
    var j := PartMultiple(b, approx, width);
    hide Pow2;
    MultiplesAdd(i, j, Pow2(approx), Masked(a, approx, width) + Masked(b, approx, width));
  }

  lemma MultiplesAdd(i: int, j: int, p: int, t: int)
    requires p > 0 && t == i * p + j * p
    ensures t % p == 0
  {
    MulAdd(p, i, j);
    DivModUnique(t, p, i + j, 0);
  }

  /** Without a carry, and with any carry once a bit is truncated, the word-level form is the sum of the bit-level
      one. */
  lemma WordIsTotal(a: nat, b: nat, cin: nat, width: nat, approx: int, sum: nat, carry: nat)
    requires approx < width && carry <= 1 && sum < Pow2(width) && (approx >= 1 || cin % 2 == 0)
    requires sum + (if carry == 1 then Pow2(width) else 0) == Total(a, b, cin, width, approx)
    ensures sum == AddApprox(a, b, width, approx)
  {
    assert Pow2(0) == 1 && a % 1 == 0 && b % 1 == 0;
    hide Pow2;
    var p := Pow2(width);
    if approx <= 0 {
      ModCarry(sum, carry, p, a % p + b % p);
      SumMod(a, b, p);
    } else {
      MaskedSum(a, b, width, approx);
      ModCarry(sum, carry, p, Masked(a, approx, width) + Masked(b, approx, width));
    }
  }

  lemma SumMod(a: int, b: int, p: int)
    requires p > 0
    ensures (a % p + b % p) % p == (a + b) % p
  {
    ModAdd(a, b % p, p);
    ModAdd(b, a, p);
  }

  /** The exact sum less the approximate one, modulo the word, is the sum of the truncated parts: never more than
      2^(n+1) - 2. */
  lemma TruncationError(a: nat, b: nat, width: nat, approx: nat)
    requires approx < width
    ensures (a + b - AddApprox(a, b, width, approx)) % Pow2(width) ==
            a % Pow2(approx) + b % Pow2(approx) <= 2 * Pow2(approx) - 2
  {
    Pow2Mono(approx + 1, width);
    Pow2Next(approx);
    assert Pow2(0) == 1 && a % 1 == 0 && b % 1 == 0;
    hide Pow2;
    var p, e := Pow2(width), a % Pow2(approx) + b % Pow2(approx);
    if approx > 0 {
      MaskedSum(a, b, width, approx);
    }
    var t := a % p + b % p - e;
    assert AddApprox(a, b, width, approx) == t % p by {
      if approx == 0 {
        SumMod(a, b, p);
      }
    }
    ErrorIs(a, b, t, e, p);
  }

  lemma ErrorIs(a: int, b: int, t: int, e: int, p: int)
    requires p > 0 && t == a % p + b % p - e && 0 <= e < p
    ensures (a + b - t % p) % p == e
  {
    var k := a / p + b / p + t / p;
    MulAdd(p, a / p, b / p);
    MulAdd(p, a / p + b / p, t / p);
    assert a + b - t % p == k * p + e;
    DivModUnique(a + b - t % p, p, k, e);
  }
}
