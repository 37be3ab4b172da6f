/** Powers of two, the only number theory the bit-level proofs share. */
module Numbers {

  function Pow2(n: nat): (p: nat)
    ensures p >= 1
  {
    if n == 0 then 1 else 2 * Pow2(n - 1)
  }

  lemma Pow2Next(n: nat)
    ensures Pow2(n + 1) == 2 * Pow2(n)
  {
  }

  lemma Pow2Same(a: nat, b: nat)
    requires a == b
    ensures Pow2(a) == Pow2(b)
  {
  }

  lemma {:induction false} Pow2Add(a: nat, b: nat)
    ensures Pow2(a + b) == Pow2(a) * Pow2(b)
  {
    if a == 0 {
    } else {
      Pow2Add(a - 1, b);
    }
  }

  lemma {:induction false} Pow2Mono(a: nat, b: nat)
    requires a <= b
    ensures Pow2(a) <= Pow2(b)
    decreases b - a
  {
    if a < b {
      Pow2Mono(a + 1, b);
    }
  }

  /** The least `k` with `n <= 2^k`: the source's `ceil(log2(n))`. */
  function CeilLog2(n: nat): (k: nat)
    requires n >= 1
    ensures n <= Pow2(k)
    ensures k > 0 ==> Pow2(k - 1) < n
  {
    if n == 1 then 0 else 1 + CeilLog2((n + 1) / 2)
  }

  lemma MulAdd(p: int, a: int, b: int)
    ensures p * (a + b) == p * a + p * b
  {
  }

  lemma MulSub(a: int, b: int, p: int)
    ensures (a - b) * p == a * p - b * p
  {
  }

  lemma MulAssoc(a: int, b: int, c: int)
    ensures a * (b * c) == a * b * c
  {
  }

  lemma MulZero(a: int)
    ensures a * 0 == 0
  {
  }

  lemma MulAtLeast(a: int, p: int)
    requires a >= 1 && p >= 0
    ensures a * p >= p
  {
  }

  lemma MulMono(p: int, a: int, b: int)
    requires p >= 0 && a <= b
    ensures p * a <= p * b
  {
  }

  lemma MulLess(p: int, a: int, b: int)
    requires p > 0 && a < b
    ensures p * a < p * b
  {
  }

  lemma ModCarry(v: int, k: nat, n: int, total: int)
    requires k <= 1 && 0 <= v < n && v + (if k == 1 then n else 0) == total
    ensures v == total % n
  {
    DivModUnique(total, n, k, v);
  }

  lemma ModAdd(a: int, b: int, n: int)
    requires n > 0
    ensures (a % n + b) % n == (a + b) % n
  {
    var q := (a % n + b) / n;
    MulAdd(n, a / n, q);
    DivModUnique(a + b, n, a / n + q, (a % n + b) % n);
  }

  lemma DivBySmall(x: int, y: int)
    ensures y == 1 ==> x / y == x && x % y == 0
    ensures y == 2 ==> x / y == x / 2 && x % y == x % 2
  {
  }

  /** Euclidean division is unique. */
  lemma DivModUnique(v: int, p: int, q: int, r: int)
    requires 0 <= r < p && v == q * p + r
    ensures v / p == q && v % p == r
  {
    var q', r' := v / p, v % p;
    MulSub(q, q', p);
    if q > q' {
      MulAtLeast(q - q', p);
    } else if q < q' {
      MulSub(q', q, p);
      MulAtLeast(q' - q, p);
    }
  }

  /** Bit `i` of `v`. */
  function BitAt(v: nat, i: nat): (b: nat)
    ensures b <= 1
  {
    v / Pow2(i) % 2
  }

  lemma BitSplit(v: nat, i: nat)
    ensures v % Pow2(i + 1) == v % Pow2(i) + if BitAt(v, i) == 1 then Pow2(i) else 0
  {
    hide Pow2;
    Pow2Next(i);
    var p := Pow2(i);
    var q, r := v / p, v % p;
    var h, b := q / 2, q % 2;
    assert v == q * p + r;
    assert q == 2 * h + b;
    MulAdd(p, 2 * h, b);
    assert p * (2 * h) == h * (2 * p);
    assert b == 1 ==> p * b == p;
    assert b == 0 ==> p * b == 0;
    DivModUnique(v, 2 * p, h, r + if b == 1 then p else 0);
  }
}
