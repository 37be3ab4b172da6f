/** Carry-save addition on words, and the gates that multiplication and division share for it. */
module CarrySave {
  import opened Numbers
  import opened Simulator
  import opened Allocator
  import opened Words
  import opened ParallelSim
  import opened ParallelGates

  function MajW(a: Word, b: Word, c: Word): (r: Word)
    requires |a| == |b| == |c|
    ensures |r| == |a|
    ensures forall p {:trigger r[p]} | 0 <= p < |a| :: r[p] == ((a[p] && b[p]) || (c[p] && (a[p] || b[p])))
  {
    seq(|a|, p requires 0 <= p < |a| => (a[p] && b[p]) || (c[p] && (a[p] || b[p])))
  }

  function Xor3W(a: Word, b: Word, c: Word): (r: Word)
    requires |a| == |b| == |c|
    ensures |r| == |a| && forall p {:trigger r[p]} | 0 <= p < |a| :: r[p] == ((a[p] != b[p]) != c[p])
  {
    seq(|a|, p requires 0 <= p < |a| => (a[p] != b[p]) != c[p])
  }

  /** Three words become a sum word and a carry word of the same total. */
  lemma {:induction false} SaveNum(a: Word, b: Word, c: Word, k: nat)
    requires |a| == |b| == |c| && k <= |a|
    ensures NumN(Xor3W(a, b, c), k) + 2 * NumN(MajW(a, b, c), k) == NumN(a, k) + NumN(b, k) + NumN(c, k)
  {
    if k > 0 {
      SaveNum(a, b, c, k - 1);
    }
  }

  /** The word moved one partition down, with a zero at the top. */
  function DownW(s: Word): (r: Word)
    ensures |r| == |s| && forall p {:trigger r[p]} | 0 <= p < |s| :: r[p] == (p + 1 < |s| && s[p + 1])
  {
    seq(|s|, p requires 0 <= p < |s| => p + 1 < |s| && s[p + 1])
  }

  lemma {:induction false} DownNum(s: Word, k: nat)
    requires k < |s|
    ensures NumN(s, k + 1) == BitOf(s[0]) + 2 * NumN(DownW(s), k)
  {
    if k > 0 {
      DownNum(s, k - 1);
    } else {
      assert NumN(s, 0) == 0 && Pow2(0) == 1;
    }
  }

  lemma DownWhole(s: Word)
    requires |s| >= 1
    ensures Num(s) == BitOf(s[0]) + 2 * Num(DownW(s))
  {
    DownNum(s, |s| - 1);
    assert !DownW(s)[|s| - 1];
  }

  /** The word moved one partition up, with `b` at the bottom. */
  function UpW(s: Word, b: bool): (r: Word)
    ensures |r| == |s| && forall p {:trigger r[p]} | 0 <= p < |s| :: r[p] == if p == 0 then b else s[p - 1]
  {
    seq(|s|, p requires 0 <= p < |s| => if p == 0 then b else s[p - 1])
  }

  lemma {:induction false} UpNum(s: Word, b: bool, k: nat)
    requires k < |s|
    ensures NumN(UpW(s, b), k + 1) == BitOf(b) + 2 * NumN(s, k)
  {
    if k > 0 {
      UpNum(s, b, k - 1);
    } else {
      assert NumN(UpW(s, b), 0) == 0 && Pow2(0) == 1;
    }
  }

  lemma UpWhole(s: Word, b: bool)
    requires |s| >= 1
    ensures Num(UpW(s, b)) + (if s[|s| - 1] then Pow2(|s|) else 0) == BitOf(b) + 2 * Num(s)
  {
    UpNum(s, b, |s| - 1);
  }

  lemma {:induction false} FillNum(v: bool, n: nat, k: nat)
    requires k <= n
    ensures NumN(Fill(v, n), k) == if v then Pow2(k) - 1 else 0
  {
    if k > 0 {
      FillNum(v, n, k - 1);
    }
  }

  /** Four scratch words apart from each other and from three operands. */
  ghost predicate Temps(sim: ParallelSimulator, s: nat, c: nat, p: nat, t0: nat, t1: nat, t2: nat, t3: nat)
    reads sim
  {
    && sim.Valid() && sim.n >= 1 && s < |sim.memory| && c < |sim.memory| && p < |sim.memory|
    && t0 < |sim.memory| && t1 < |sim.memory| && t2 < |sim.memory| && t3 < |sim.memory|
    && s != c && s != p && c != p && t0 != t1 && t0 != t2 && t0 != t3 && t1 != t2 && t1 != t3 && t2 != t3
    && t0 != s && t0 != c && t0 != p && t1 != s && t1 != c && t1 != p && t2 != s && t2 != c && t2 != p && t3 != s
    && t3 != c && t3 != p
  }

  /** After this, NOR(t0, t1) is the carry word. */
  method SaveCarry(sim: ParallelSimulator, s: nat, c: nat, p: nat, t0: nat, t1: nat, t2: nat, t3: nat)
    requires Temps(sim, s, c, p, t0, t1, t2, t3)
    modifies sim
    ensures Temps(sim, s, c, p, t0, t1, t2, t3) && |sim.memory| == |old(sim.memory)|
    ensures forall a {:trigger sim.memory[a]} | 0 <= a < |sim.memory| && a != t0 && a != t1 && a != t2 && a != t3 ::
              sim.memory[a] == old(sim.memory)[a]
    ensures sim.memory[t3] == NotW(XorW(old(sim.memory)[s], old(sim.memory)[c]))
    ensures sim.memory[t1] == NorW(old(sim.memory)[p], sim.memory[t3])
    ensures NorW(sim.memory[t0], sim.memory[t1]) == MajW(old(sim.memory)[s], old(sim.memory)[c], old(sim.memory)[p])
    ensures sim.latency == old(sim.latency) + 10
  {
    ghost var m := sim.memory;
    XnorGates(sim, s, c, t0, t1, t2, t3);
    Nor(sim, p, t3, t1);
    assert NorW(sim.memory[t0], sim.memory[t1]) == MajW(m[s], m[c], m[p]);
  }

  /** After this, NOR(t0, t2) is the sum word. */
  method SaveSum(sim: ParallelSimulator, p: nat, t0: nat, t1: nat, t2: nat, t3: nat, ghost sw: Word, ghost cw: Word)
    requires sim.Valid() && sim.n >= 1 && p < |sim.memory| && t0 < |sim.memory| && t1 < |sim.memory|
    requires t2 < |sim.memory| && t3 < |sim.memory|
    requires t0 != t1 && t0 != t2 && t0 != t3 && t1 != t2 && t1 != t3 && t2 != t3 && p != t0 && p != t1 && p != t2
    requires p != t3
    requires |sw| == |cw| == sim.n && sim.memory[t3] == NotW(XorW(sw, cw))
    requires sim.memory[t1] == NorW(sim.memory[p], sim.memory[t3])
    modifies sim
    ensures sim.Valid() && |sim.memory| == |old(sim.memory)|
    ensures forall a {:trigger sim.memory[a]} | 0 <= a < |sim.memory| && a != t0 && a != t2 ::
              sim.memory[a] == old(sim.memory)[a]
    ensures NorW(sim.memory[t0], sim.memory[t2]) == Xor3W(sw, cw, old(sim.memory)[p])
    ensures sim.latency == old(sim.latency) + 4
  {
    ghost var m := sim.memory;
    Nor(sim, t1, t3, t0);
    Nor(sim, p, t1, t2);
    assert NorW(sim.memory[t0], sim.memory[t2]) == Xor3W(sw, cw, m[p]);
  }
}
