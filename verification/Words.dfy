/** One bit of every partition at one intra-partition address, least significant partition first. */
module Words {
  import opened Numbers

  type Word = seq<bool>

  function Fill(v: bool, n: nat): (r: Word)
    ensures |r| == n && forall p {:trigger r[p]} | 0 <= p < n :: r[p] == v
  {
    seq(n, _ => v)
  }

  function NotW(a: Word): (r: Word)
    ensures |r| == |a| && forall p {:trigger r[p]} | 0 <= p < |a| :: r[p] == !a[p]
  {
    seq(|a|, p requires 0 <= p < |a| => !a[p])
  }

  function NorW(a: Word, b: Word): (r: Word)
    requires |a| == |b|
    ensures |r| == |a| && forall p {:trigger r[p]} | 0 <= p < |a| :: r[p] == !(a[p] || b[p])
  {
    seq(|a|, p requires 0 <= p < |a| => !(a[p] || b[p]))
  }

  /** A NOT without initialisation: `o` keeps its bit where `a` is 0. */
  function AndNotW(o: Word, a: Word): (r: Word)
    requires |a| == |o|
    ensures |r| == |a| && forall p {:trigger r[p]} | 0 <= p < |a| :: r[p] == (o[p] && !a[p])
  {
    seq(|a|, p requires 0 <= p < |a| => o[p] && !a[p])
  }

  function XorW(a: Word, b: Word): (r: Word)
    requires |a| == |b|
    ensures |r| == |a| && forall p {:trigger r[p]} | 0 <= p < |a| :: r[p] == (a[p] != b[p])
  {
    seq(|a|, p requires 0 <= p < |a| => a[p] != b[p])
  }

  function BitOf(b: bool): (n: nat)
    ensures n <= 1
  {
    if b then 1 else 0
  }

  /** The number in the partitions `0..n` of a word. */
  function NumN(a: Word, n: nat): (v: nat)
    requires n <= |a|
    ensures v < Pow2(n)
  {
    if n == 0 then 0 else NumN(a, n - 1) + if a[n - 1] then Pow2(n - 1) else 0
  }

  function Num(a: Word): (v: nat)
    ensures v < Pow2(|a|)
  {
    NumN(a, |a|)
  }

  /** Reading a partition back from the number: bit `i` of the number is the bit in partition `i`. */
  lemma BitOfNum(a: Word, i: nat)
    requires i < |a|
    ensures BitAt(Num(a), i) == BitOf(a[i])
  {
    hide Pow2, NumN;
    var k := NumSplit(a, i + 1, |a|);
    Pow2Next(i);
    NumNext(a, i);
    var p, b := Pow2(i), BitOf(a[i]);
    MulAssoc(k, 2, p);
    MulAdd(p, k * 2, b);
    DivModUnique(Num(a), p, k * 2 + b, NumN(a, i));
    DivModUnique(k * 2 + b, 2, k, b);
  }

  /** The number in the low partitions is the whole number modulo their weight. */
  lemma {:induction false} NumSplit(a: Word, k: nat, n: nat) returns (q: nat)
    requires k <= n <= |a|
    ensures NumN(a, n) == NumN(a, k) + q * Pow2(k)
    decreases n
  {
    hide Pow2, NumN;
    if n == k {
      q := 0;
    } else {
      q := NumSplit(a, k, n - 1);
      NumNext(a, n - 1);
      if a[n - 1] {
        Pow2Add(n - 1 - k, k);
        MulAdd(Pow2(k), q, Pow2(n - 1 - k));
        q := q + Pow2(n - 1 - k);
      }
    }
  }

  lemma NumNext(a: Word, n: nat)
    requires n < |a|
    ensures NumN(a, n + 1) == NumN(a, n) + if a[n] then Pow2(n) else 0
  {
  }
}
