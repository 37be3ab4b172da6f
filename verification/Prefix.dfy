/** Generate and propagate over runs of partitions, and the runs that the two sweeps of the prefix adder cover. */
module Prefix {
  import opened Numbers
  import opened Words
  import opened ParallelSim

  /** Whether the partitions `lo..hi` (inclusive) generate a carry. */
  function Gen(g: Word, p: Word, lo: nat, hi: nat): bool
    requires lo <= hi < |g| == |p|
  {
    if hi == lo then g[lo] else g[hi] || (p[hi] && Gen(g, p, lo, hi - 1))
  }

  /** Whether the partitions `lo..hi` (inclusive) propagate a carry. */
  function Prop(p: Word, lo: nat, hi: nat): bool
    requires lo <= hi < |p|
  {
    if hi == lo then p[lo] else p[hi] && Prop(p, lo, hi - 1)
  }

  /** Adjacent runs compose. */
  lemma {:induction false} Compose(g: Word, p: Word, lo: nat, mid: nat, hi: nat)
    requires lo <= mid < hi < |g| == |p|
    ensures Gen(g, p, lo, hi) == (Gen(g, p, mid + 1, hi) || (Prop(p, mid + 1, hi) && Gen(g, p, lo, mid)))
    ensures Prop(p, lo, hi) == (Prop(p, mid + 1, hi) && Prop(p, lo, mid))
  {
    if hi > mid + 1 {
      Compose(g, p, lo, mid, hi - 1);
    }
  }

  /** Whether `2^i` divides `j`. */
  predicate Mult(i: nat, j: nat) {
    i == 0 || (j % 2 == 0 && Mult(i - 1, j / 2))
  }

  lemma {:induction false} MultDown(i: nat, j: nat)
    requires Mult(i + 1, j)
    ensures Mult(i, j)
  {
    if i > 0 {
      MultDown(i - 1, j / 2);
    }
  }

  lemma {:induction false} MultZero(i: nat)
    ensures Mult(i, 0)
  {
    if i > 0 {
      MultZero(i - 1);
    }
  }

  lemma {:induction false} MultOf(i: nat, k: nat)
    ensures Mult(i, Pow2(i) * k)
    ensures Mult(i + 1, Pow2(i) * k) <==> k % 2 == 0
  {
    if i > 0 {
      MultOf(i - 1, k);
      MulAssoc(2, Pow2(i - 1), k);
      assert Pow2(i) * k / 2 == Pow2(i - 1) * k;
    } else {
      assert Pow2(0) * k == k;
      assert Mult(0, k / 2);
    }
  }

  lemma {:induction false} MultWitness(i: nat, j: nat) returns (k: nat)
    requires Mult(i, j)
    ensures j == Pow2(i) * k
  {
    if i == 0 {
      k := j;
      assert Pow2(0) * k == k;
    } else {
      k := MultWitness(i - 1, j / 2);
      MulAssoc(2, Pow2(i - 1), k);
    }
  }

  /** The partitions that level `i` of the upward sweep writes, and the inputs below them. */
  lemma UpMembers(i: nat, n: nat, j: nat)
    requires j < n
    ensures j in Arange(Pow2(i + 1), n, Pow2(i + 1)) <==> j > 0 && Mult(i + 1, j)
  {
    hide Pow2, Mult, Arange;
    if j in Arange(Pow2(i + 1), n, Pow2(i + 1)) {
      var k := ArangeIndex(Pow2(i + 1), n, Pow2(i + 1), j);
      MultOf(i + 1, k + 1);
      MulAdd(Pow2(i + 1), k, 1);
    }
    if j > 0 && Mult(i + 1, j) {
      UpListed(i, n, j);
    }
  }

  lemma UpListed(i: nat, n: nat, j: nat)
    requires 0 < j < n && Mult(i + 1, j)
    ensures j in Arange(Pow2(i + 1), n, Pow2(i + 1))
  {
    hide Pow2, Mult, Arange;
    var s := Pow2(i + 1);
    var k := MultWitness(i + 1, j);
    PositiveFactor(s, k);
    assert j == s + (k - 1) * s;
    ArangeListed(s, n, s, k - 1, j);
  }

  lemma PositiveFactor(s: int, k: nat)
    requires s * k > 0
    ensures k > 0
  {
  }

  /** The partitions that the level of the downward sweep with distance `2^i` writes. */
  lemma DownMembers(i: nat, n: nat, j: nat)
    requires j < n
    ensures j in Arange(Pow2(i), n, Pow2(i + 1)) <==> Mult(i, j) && !Mult(i + 1, j)
  {
    Pow2Next(i);
    hide Pow2, Mult, Arange;
    if j in Arange(Pow2(i), n, Pow2(i + 1)) {
      var k := ArangeIndex(Pow2(i), n, Pow2(i + 1), j);
      OddMultiple(Pow2(i), k);
      MultOf(i, 2 * k + 1);
    }
    if Mult(i, j) && !Mult(i + 1, j) {
      DownListed(i, n, j);
    }
  }

  lemma OddMultiple(h: int, k: int)
    ensures h * (2 * k + 1) == h + k * (2 * h)
  {
    MulAdd(h, 2 * k, 1);
    assert h * (2 * k) == k * (2 * h);
  }

  lemma DownListed(i: nat, n: nat, j: nat)
    requires j < n && Mult(i, j) && !Mult(i + 1, j)
    ensures j in Arange(Pow2(i), n, Pow2(i + 1))
  {
    Pow2Next(i);
    hide Pow2, Mult, Arange;
    var k := MultWitness(i, j);
    MultOf(i, k);
    OddMultiple(Pow2(i), k / 2);
    assert k == 2 * (k / 2) + 1;
    ArangeListed(Pow2(i), n, Pow2(i + 1), k / 2, j);
  }

  /** Half a block below a multiple of the block. */
  lemma HalfBelow(i: nat, j: nat)
    requires Mult(i, j) && j > 0
    ensures j >= Pow2(i) && Mult(i, j - Pow2(i))
    ensures Mult(i + 1, j - Pow2(i)) <==> !Mult(i + 1, j)
  {
    hide Pow2, Mult;
    var h := Pow2(i);
    var k := MultWitness(i, j);
    PositiveFactor(h, k);
    OneLess(h, k);
    MultOf(i, k);
    MultOf(i, k - 1);
  }

  lemma OneLess(h: nat, k: nat)
    requires k > 0
    ensures h * k >= h && h * (k - 1) == h * k - h
  {
    MulMono(h, 1, k);
    MulAdd(h, k - 1, 1);
  }

  /** The length of the run that ends at partition `j > 0` after `i` levels of the upward sweep: the largest power
      of two up to `2^i` that divides `j`. */
  function Block(i: nat, j: nat): (b: nat)
    ensures b >= 1
  {
    if i == 0 then 1 else if Mult(i, j) then Pow2(i) else Block(i - 1, j)
  }

  /** The first partition of that run. */
  function RunStart(i: nat, j: nat): (lo: nat)
    ensures lo <= j
  {
    if j == 0 || Block(i, j) > j then 0 else j - Block(i, j) + 1
  }

  lemma BlockFits(i: nat, j: nat)
    requires j > 0
    ensures Block(i, j) <= j && RunStart(i, j) == j - Block(i, j) + 1
  {
    if i > 0 {
      if Mult(i, j) {
        HalfBelow(i, j);
      } else {
        BlockFits(i - 1, j);
      }
    }
  }

  lemma {:induction false} BlockIs(m: nat, i: nat, j: nat)
    requires i <= m && Mult(i, j) && !Mult(i + 1, j)
    ensures Block(m, j) == Pow2(i)
  {
    if m == i {
      assert Pow2(0) == 1;
    } else {
      NotMultUp(i + 1, m, j);
      BlockIs(m - 1, i, j);
    }
  }

  lemma {:induction false} NotMultUp(i: nat, m: nat, j: nat)
    requires i <= m && !Mult(i, j)
    ensures !Mult(m, j)
    decreases m - i
  {
    if i < m {
      if Mult(i + 1, j) {
        MultDown(i, j);
      }
      NotMultUp(i + 1, m, j);
    }
  }

  /** Partition `j` holds generate and propagate of the run `lo..j`: `ng` and `np` complemented, `pb` not. */
  ghost predicate Holds(ng: Word, np: Word, pb: Word, g: Word, p: Word, j: nat, lo: nat)
    requires lo <= j < |g| == |p| == |ng| == |np| == |pb|
  {
    ng[j] == !Gen(g, p, lo, j) && np[j] == !Prop(p, lo, j) && pb[j] == !np[j]
  }

  /** After `i` levels of the upward sweep. */
  ghost predicate UpInv(ng: Word, np: Word, pb: Word, g: Word, p: Word, i: nat) {
    && |g| == |p| == |ng| == |np| == |pb|
    && forall j {:trigger Holds(ng, np, pb, g, p, j, RunStart(i, j))} | 0 <= j < |g| ::
         Holds(ng, np, pb, g, p, j, RunStart(i, j))
  }

  /** In the downward sweep after `top` levels up, down to blocks of `2^i`: multiples of `2^i` hold the whole prefix. */
  function DownStart(top: nat, i: nat, j: nat): (lo: nat)
    ensures lo <= j
  {
    if Mult(i, j) then 0 else RunStart(top, j)
  }

  ghost predicate DownInv(ng: Word, np: Word, pb: Word, g: Word, p: Word, top: nat, i: nat) {
    && |g| == |p| == |ng| == |np| == |pb|
    && forall j {:trigger Holds(ng, np, pb, g, p, j, DownStart(top, i, j))} | 0 <= j < |g| ::
         Holds(ng, np, pb, g, p, j, DownStart(top, i, j))
  }

  /** The gates of one level: every partition of the progression takes in the run that ends `h` below it. */
  ghost predicate Combined(ng: Word, np: Word, pb: Word, ng': Word, np': Word, pb': Word, outs: seq<nat>, h: nat)
    requires |ng| == |np| == |pb| == |ng'| == |np'| == |pb'|
    requires forall k {:trigger outs[k]} | 0 <= k < |outs| :: h <= outs[k] < |ng|
  {
    forall j {:trigger ng'[j]} {:trigger np'[j]} {:trigger pb'[j]} | 0 <= j < |ng| ::
      if j in outs then
        ng'[j] == (ng[j] && !(pb[j] && !ng[j - h])) && pb'[j] == (!np[j] && !np[j - h]) && np'[j] == !pb'[j]
      else ng'[j] == ng[j] && np'[j] == np[j] && pb'[j] == pb[j]
  }

  lemma TakesIn(ng: Word, np: Word, pb: Word, ng': Word, np': Word, pb': Word, g: Word, p: Word, j: nat, q: nat,
                lo: nat)
    requires lo <= q < j < |g| == |p| == |ng| == |np| == |pb| == |ng'| == |np'| == |pb'|
    requires Holds(ng, np, pb, g, p, j, q + 1) && Holds(ng, np, pb, g, p, q, lo)
    requires ng'[j] == (ng[j] && !(pb[j] && !ng[q])) && pb'[j] == (!np[j] && !np[q]) && np'[j] == !pb'[j]
    ensures Holds(ng', np', pb', g, p, j, lo)
  {
    Compose(g, p, lo, q, j);
  }

  /** A level of the upward sweep. */
  lemma UpStep(ng: Word, np: Word, pb: Word, ng': Word, np': Word, pb': Word, g: Word, p: Word, i: nat)
    requires UpInv(ng, np, pb, g, p, i) && |ng'| == |np'| == |pb'| == |g|
    requires var outs := Arange(Pow2(i + 1), |g|, Pow2(i + 1));
             (forall k {:trigger outs[k]} | 0 <= k < |outs| :: Pow2(i) <= outs[k] < |ng|) &&
             Combined(ng, np, pb, ng', np', pb', outs, Pow2(i))
    ensures UpInv(ng', np', pb', g, p, i + 1)
  {
    forall j {:trigger Holds(ng', np', pb', g, p, j, RunStart(i + 1, j))} | 0 <= j < |g|
      ensures Holds(ng', np', pb', g, p, j, RunStart(i + 1, j))
    {
      UpStepAt(ng, np, pb, ng', np', pb', g, p, i, j);
    }
  }

  lemma UpStepAt(ng: Word, np: Word, pb: Word, ng': Word, np': Word, pb': Word, g: Word, p: Word, i: nat, j: nat)
    requires UpInv(ng, np, pb, g, p, i) && |ng'| == |np'| == |pb'| == |g| && j < |g|
    requires var outs := Arange(Pow2(i + 1), |g|, Pow2(i + 1));
             (forall k {:trigger outs[k]} | 0 <= k < |outs| :: Pow2(i) <= outs[k] < |ng|) &&
             Combined(ng, np, pb, ng', np', pb', outs, Pow2(i))
    ensures Holds(ng', np', pb', g, p, j, RunStart(i + 1, j))
  {
    Pow2Next(i);
    hide Pow2, Mult, Arange, Gen, Prop;
    UpMembers(i, |g|, j);
    assert Holds(ng, np, pb, g, p, j, RunStart(i, j));
    if j > 0 && Mult(i + 1, j) {
      UpRuns(i, j);
      var q := j - Pow2(i);
      assert Holds(ng, np, pb, g, p, q, RunStart(i, q));
      TakesIn(ng, np, pb, ng', np', pb', g, p, j, q, RunStart(i, q));
    }
  }

  lemma UpRuns(i: nat, j: nat)
    requires j > 0 && Mult(i + 1, j)
    ensures j > Pow2(i) && RunStart(i, j) == j - Pow2(i) + 1 && RunStart(i, j - Pow2(i)) == RunStart(i + 1, j)
  {
    Pow2Next(i);
    MultDown(i, j);
    HalfBelow(i + 1, j);
    HalfBelow(i, j);
    var q := j - Pow2(i);
    BlockIs(i, i, q);
    BlockFits(i, q);
    BlockFits(i, j);
    BlockFits(i + 1, j);
    assert Block(i, j) == Pow2(i) by {
      assert Pow2(0) == 1;
    }
  }

  /** The upward sweep over `top` levels starts the downward one, since only partition 0 is a multiple of
      `2^(top+1)`. */
  lemma DownBegins(ng: Word, np: Word, pb: Word, g: Word, p: Word, top: nat)
    requires UpInv(ng, np, pb, g, p, top) && |g| <= Pow2(top + 1)
    ensures DownInv(ng, np, pb, g, p, top, top + 1)
  {
    forall j {:trigger Holds(ng, np, pb, g, p, j, DownStart(top, top + 1, j))} | 0 <= j < |g|
      ensures Holds(ng, np, pb, g, p, j, DownStart(top, top + 1, j))
    {
      assert Holds(ng, np, pb, g, p, j, RunStart(top, j));
      if Mult(top + 1, j) && j > 0 {
        HalfBelow(top + 1, j);
      }
    }
  }

  /** A level of the downward sweep. */
  lemma DownStep(ng: Word, np: Word, pb: Word, ng': Word, np': Word, pb': Word, g: Word, p: Word, top: nat, i: nat)
    requires i <= top && DownInv(ng, np, pb, g, p, top, i + 1) && |ng'| == |np'| == |pb'| == |g|
    requires var outs := Arange(Pow2(i), |g|, Pow2(i + 1));
             (forall k {:trigger outs[k]} | 0 <= k < |outs| :: Pow2(i) <= outs[k] < |ng|) &&
             Combined(ng, np, pb, ng', np', pb', outs, Pow2(i))
    ensures DownInv(ng', np', pb', g, p, top, i)
  {
    forall j {:trigger Holds(ng', np', pb', g, p, j, DownStart(top, i, j))} | 0 <= j < |g|
      ensures Holds(ng', np', pb', g, p, j, DownStart(top, i, j))
    {
      DownStepAt(ng, np, pb, ng', np', pb', g, p, top, i, j);
    }
  }

  lemma DownStepAt(ng: Word, np: Word, pb: Word, ng': Word, np': Word, pb': Word, g: Word, p: Word, top: nat, i: nat,
                   j: nat)
    requires i <= top && DownInv(ng, np, pb, g, p, top, i + 1) && |ng'| == |np'| == |pb'| == |g| && j < |g|
    requires var outs := Arange(Pow2(i), |g|, Pow2(i + 1));
             (forall k {:trigger outs[k]} | 0 <= k < |outs| :: Pow2(i) <= outs[k] < |ng|) &&
             Combined(ng, np, pb, ng', np', pb', outs, Pow2(i))
    ensures Holds(ng', np', pb', g, p, j, DownStart(top, i, j))
  {
    hide Pow2, Mult, Arange, Gen, Prop;
    DownMembers(i, |g|, j);
    assert Holds(ng, np, pb, g, p, j, DownStart(top, i + 1, j));
    if Mult(i + 1, j) {
      MultDown(i, j);
    } else if Mult(i, j) {
      DownRuns(top, i, j);
      var q := j - Pow2(i);
      assert Holds(ng, np, pb, g, p, q, DownStart(top, i + 1, q));
      TakesIn(ng, np, pb, ng', np', pb', g, p, j, q, 0);
    }
  }

  lemma DownRuns(top: nat, i: nat, j: nat)
    requires i <= top && Mult(i, j) && !Mult(i + 1, j)
    ensures j >= Pow2(i) && RunStart(top, j) == j - Pow2(i) + 1 && Mult(i + 1, j - Pow2(i))
  {
    MultZero(i + 1);
    HalfBelow(i, j);
    BlockIs(top, i, j);
    BlockFits(top, j);
  }

  /** After both sweeps every partition holds the carry out of the whole prefix below and including it. */
  lemma PrefixDone(ng: Word, np: Word, pb: Word, g: Word, p: Word, top: nat, j: nat)
    requires DownInv(ng, np, pb, g, p, top, 0) && j < |g|
    ensures ng[j] == !Gen(g, p, 0, j)
  {
    assert Holds(ng, np, pb, g, p, j, DownStart(top, 0, j));
  }

  /** Ripple addition: the carry into column `k`. */
  function CarryInto(x: Word, y: Word, cin: bool, k: nat): bool
    requires k <= |x| == |y|
  {
    if k == 0 then cin else (x[k - 1] && y[k - 1]) || ((x[k - 1] || y[k - 1]) && CarryInto(x, y, cin, k - 1))
  }

  /** With the carry in folded into the first generate bit, the prefix generates are the ripple carries. */
  lemma {:induction false} GenIsCarry(x: Word, y: Word, cin: bool, g: Word, p: Word, j: nat)
    requires |x| == |y| == |g| == |p| && j < |x|
    requires forall k {:trigger p[k]} | 0 <= k < |x| :: p[k] == (x[k] || y[k])
    requires forall k {:trigger g[k]} | 0 < k < |x| :: g[k] == (x[k] && y[k])
    requires g[0] == ((x[0] && y[0]) || ((x[0] || y[0]) && cin))
    ensures Gen(g, p, 0, j) == CarryInto(x, y, cin, j + 1)
  {
    if j > 0 {
      GenIsCarry(x, y, cin, g, p, j - 1);
    } else {
      assert CarryInto(x, y, cin, 0) == cin;
    }
  }

  /** The sum bits of ripple addition add up. */
  lemma {:induction false} RippleSum(x: Word, y: Word, z: Word, cin: bool, k: nat)
    requires |x| == |y| == |z| && k <= |x|
    requires forall i {:trigger z[i]} | 0 <= i < k :: z[i] == ((x[i] != y[i]) != CarryInto(x, y, cin, i))
    ensures NumN(z, k) + (if CarryInto(x, y, cin, k) then Pow2(k) else 0) == NumN(x, k) + NumN(y, k) + BitOf(cin)
  {
    if k > 0 {
      RippleSum(x, y, z, cin, k - 1);
      assert z[k - 1] == ((x[k - 1] != y[k - 1]) != CarryInto(x, y, cin, k - 1));
    } else {
      assert Pow2(0) == 1;
    }
  }

  /** The lowest partition that the reduction towards the top writes at distance `h`: the partitions are counted down
      from the top in steps of `2 * h` as long as their input exists. */
  function TopBase(n: nat, h: nat): (b: nat)
    requires 1 <= h < n
    ensures h <= b < n
  {
    TopBaseRange(n, h, TopCount(n, h));
    n - 1 - TopCount(n, h) * (2 * h)
  }

  /** How many of them there are below the top one. */
  function TopCount(n: nat, h: nat): int
    requires 1 <= h < n
  {
    (n - 1 - h) / (2 * h)
  }

  lemma TopBaseRange(n: nat, h: nat, c: int)
    requires 1 <= h < n && c == TopCount(n, h)
    ensures c >= 0 && h <= n - 1 - c * (2 * h) < n && n - 1 - h < (c + 1) * (2 * h)
  {
    Quotient(n - 1 - h, 2 * h, c);
  }

  lemma Quotient(v: nat, s: nat, c: int)
    requires s > 0 && c == v / s
    ensures c >= 0 && 0 <= c * s <= v < (c + 1) * s
  {
    MulAdd(s, c, 1);
    if c < 0 {
      MulMono(s, c, -1);
    } else {
      MulMono(s, 0, c);
    }
  }

  lemma TopMembers(i: nat, n: nat, j: nat)
    requires j < n && Pow2(i) < n
    ensures j in Arange(TopBase(n, Pow2(i)), n, 2 * Pow2(i)) <==> j >= Pow2(i) && Mult(i + 1, n - 1 - j)
  {
    Pow2Next(i);
    hide Pow2, Mult, Arange, TopCount;
    var h := Pow2(i);
    var c := TopCount(n, h);
    TopBaseRange(n, h, c);
    if j in Arange(TopBase(n, h), n, 2 * h) {
      var k := ArangeIndex(TopBase(n, h), n, 2 * h, j);
      BelowTop(n - 1 - j, c, k, 2 * h);
      MultOf(i + 1, c - k);
    }
    if j >= h && Mult(i + 1, n - 1 - j) {
      TopListed(i, n, j, c);
    }
  }

  lemma BelowTop(m: nat, c: nat, k: nat, s: nat)
    requires s > 0 && m == c * s - k * s
    ensures k <= c && m == s * (c - k)
  {
    if k > c {
      MulLess(s, c, k);
    } else {
      MulSub(c, k, s);
    }
  }

  lemma TopListed(i: nat, n: nat, j: nat, c: nat)
    requires Pow2(i) <= j < n && Pow2(i) < n && Mult(i + 1, n - 1 - j) && c == TopCount(n, Pow2(i))
    ensures j in Arange(TopBase(n, Pow2(i)), n, 2 * Pow2(i))
  {
    Pow2Next(i);
    hide Pow2, Mult, Arange, TopCount;
    var h := Pow2(i);
    TopBaseRange(n, h, c);
    var e := MultWitness(i + 1, n - 1 - j);
    assert e <= c by {
      if e > c {
        MulMono(2 * h, c + 1, e);
      }
    }
    MulSub(c, e, 2 * h);
    ArangeListed(TopBase(n, h), n, 2 * h, c - e, j);
  }

  /** The first partition of the run that ends `m` below the top after `i` levels of the reduction. */
  function TopStart(n: nat, i: nat, m: nat): (lo: nat)
    requires m < n
    ensures lo <= n - 1 - m
  {
    if m + Pow2(i) >= n then 0 else n - m - Pow2(i)
  }

  /** After `i` levels of the reduction towards the top partition. */
  ghost predicate TopInv(ng: Word, np: Word, pb: Word, g: Word, p: Word, i: nat) {
    && |g| == |p| == |ng| == |np| == |pb|
    && forall m: nat {:trigger Mult(i, m)} | m < |g| && Mult(i, m) ::
         Holds(ng, np, pb, g, p, |g| - 1 - m, TopStart(|g|, i, m))
  }

  lemma TopStep(ng: Word, np: Word, pb: Word, ng': Word, np': Word, pb': Word, g: Word, p: Word, i: nat)
    requires TopInv(ng, np, pb, g, p, i) && |ng'| == |np'| == |pb'| == |g| && Pow2(i) < |g|
    requires var outs := Arange(TopBase(|g|, Pow2(i)), |g|, 2 * Pow2(i));
             (forall k {:trigger outs[k]} | 0 <= k < |outs| :: Pow2(i) <= outs[k] < |ng|) &&
             Combined(ng, np, pb, ng', np', pb', outs, Pow2(i))
    ensures TopInv(ng', np', pb', g, p, i + 1)
  {
    forall m: nat {:trigger Mult(i + 1, m)} | m < |g| && Mult(i + 1, m)
      ensures Holds(ng', np', pb', g, p, |g| - 1 - m, TopStart(|g|, i + 1, m))
    {
      TopStepAt(ng, np, pb, ng', np', pb', g, p, i, m);
    }
  }

  lemma TopStepAt(ng: Word, np: Word, pb: Word, ng': Word, np': Word, pb': Word, g: Word, p: Word, i: nat, m: nat)
    requires TopInv(ng, np, pb, g, p, i) && |ng'| == |np'| == |pb'| == |g| && Pow2(i) < |g| && m < |g| && Mult(i + 1, m)
    requires var outs := Arange(TopBase(|g|, Pow2(i)), |g|, 2 * Pow2(i));
             (forall k {:trigger outs[k]} | 0 <= k < |outs| :: Pow2(i) <= outs[k] < |ng|) &&
             Combined(ng, np, pb, ng', np', pb', outs, Pow2(i))
    ensures Holds(ng', np', pb', g, p, |g| - 1 - m, TopStart(|g|, i + 1, m))
  {
    Pow2Next(i);
    hide Pow2, Mult, Arange, Gen, Prop, TopBase;
    var n, h := |g|, Pow2(i);
    var j := n - 1 - m;
    TopMembers(i, n, j);
    MultDown(i, m);
    assert Holds(ng, np, pb, g, p, j, TopStart(n, i, m));
    if j >= h {
      MultPlus(i, m);
      assert Holds(ng, np, pb, g, p, n - 1 - (m + h), TopStart(n, i, m + h));
      TakesIn(ng, np, pb, ng', np', pb', g, p, j, j - h, TopStart(n, i, m + h));
    }
  }

  lemma MultPlus(i: nat, m: nat)
    requires Mult(i, m)
    ensures Mult(i, m + Pow2(i))
  {
    hide Pow2, Mult;
    var k := MultWitness(i, m);
    MulAdd(Pow2(i), k, 1);
    MultOf(i, k + 1);
  }

  lemma TopBegins(ng: Word, np: Word, pb: Word, g: Word, p: Word)
    requires |g| == |p| == |ng| == |np| == |pb|
    requires forall j {:trigger ng[j]} | 0 <= j < |g| :: ng[j] == !g[j] && np[j] == !p[j] && pb[j] == !np[j]
    ensures TopInv(ng, np, pb, g, p, 0)
  {
    forall m: nat {:trigger Mult(0, m)} | m < |g|
      ensures Holds(ng, np, pb, g, p, |g| - 1 - m, TopStart(|g|, 0, m))
    {
      assert Pow2(0) == 1;
      assert ng[|g| - 1 - m] == ng[|g| - 1 - m];
    }
  }

  /** After the reduction the top partition holds the carry out of the whole word. */
  lemma TopDone(ng: Word, np: Word, pb: Word, g: Word, p: Word, i: nat)
    requires TopInv(ng, np, pb, g, p, i) && 1 <= |g| <= Pow2(i)
    ensures ng[|g| - 1] == !Gen(g, p, 0, |g| - 1)
  {
    MultZero(i);
  }
}
