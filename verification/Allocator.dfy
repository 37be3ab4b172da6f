/** SerialArithmetic.IntermediateAllocator of serial/AritPIM.py: first-fit scratch cells. */
module Allocator {

  ghost predicate Distinct(a: seq<nat>) {
    forall i, j | 0 <= i < j < |a| :: a[i] != a[j]
  }

  /** `c` is one of the pool's cells. */
  ghost predicate Pooled(cells: seq<nat>, c: nat) {
    c in cells
  }

  /** `free` is exactly the set of cells whose position is not marked used. */
  ghost predicate Tracks(cells: seq<nat>, used: seq<bool>, free: set<nat>) {
    && |used| == |cells|
    && Distinct(cells)
    && (forall i {:trigger cells[i]} | 0 <= i < |cells| :: cells[i] in free <==> !used[i])
    && (forall c: nat {:trigger Pooled(cells, c)} :: c in free ==> Pooled(cells, c))
  }

  /** The free set determines the allocation vector, so a routine that restores one restores the other. */
  lemma UsedFromFree(cells: seq<nat>, a: seq<bool>, b: seq<bool>, free: set<nat>)
    requires Tracks(cells, a, free) && Tracks(cells, b, free)
    ensures a == b
  {
    forall i | 0 <= i < |a|
      ensures a[i] == b[i]
    {
      assert cells[i] in free <==> !a[i];
    }
  }

  lemma TracksSet(cells: seq<nat>, used: seq<bool>, free: set<nat>, i: nat, v: bool)
    requires Tracks(cells, used, free) && i < |cells|
    ensures Tracks(cells, used[i := v], if v then free - {cells[i]} else free + {cells[i]})
  {
    assert cells[i] in cells;
    assert Pooled(cells, cells[i]);
  }

  lemma NoneFree(cells: seq<nat>, used: seq<bool>, free: set<nat>)
    requires Tracks(cells, used, free) && forall i | 0 <= i < |used| :: used[i]
    ensures free == {}
  {
    forall c: nat
      ensures c !in free
    {
      assert c in free ==> Pooled(cells, c);
    }
  }

  lemma {:induction false} SubsetSize(a: set<nat>, b: set<nat>)
    requires a <= b
    ensures |a| <= |b|
  {
    if a != {} {
      var c :| c in a;
      SubsetSize(a - {c}, b - {c});
    }
  }

  /** Every cell before `c` is in use, so that first fit would return `c` next if it were free. */
  ghost predicate Settled(cells: seq<nat>, used: seq<bool>, c: nat) {
    |used| == |cells| && forall i, k {:trigger cells[i], used[k]} | 0 <= k < i < |cells| && cells[i] == c :: used[k]
  }

  /** The cells of `a` stand in the order of the pool. */
  ghost predicate InOrder(cells: seq<nat>, a: seq<nat>) {
    forall i, j, p, q {:trigger a[i], a[j], cells[p], cells[q]} |
      0 <= i < j < |a| && 0 <= p < |cells| && 0 <= q < |cells| && cells[p] == a[i] && cells[q] == a[j] :: p < q
  }

  lemma OrderNext(cells: seq<nat>, a: seq<nat>, i: nat)
    requires i < |cells| && Distinct(cells) && InOrder(cells, a) && forall k | i <= k < |cells| :: cells[k] !in a
    ensures InOrder(cells, a + [cells[i]])
  {
  }

  class IntermediateAllocator {
    const cells: seq<nat>
    var used: seq<bool>
    ghost var free: set<nat>

    ghost predicate Valid()
      reads this
    {
      Tracks(cells, used, free)
    }

    constructor (pool: seq<nat>)
      requires Distinct(pool)
      ensures Valid() && cells == pool && forall c: nat :: c in free <==> c in pool
      ensures forall i | 0 <= i < |pool| :: !used[i]
    {
      cells := pool;
      used := seq(|pool|, _ => false);
      free := set c | c in pool;
    }

    /** First fit. The source's final assertion is the precondition on the size of the free set. */
    method FirstFit(n: nat) returns (a: seq<nat>)
      requires Valid() && 1 <= n <= |free|
      modifies this`used, this`free
      ensures Valid()
      ensures |a| == n && Distinct(a)
      ensures forall i | 0 <= i < n :: a[i] in old(free) && a[i] !in free && Pooled(cells, a[i])
      ensures forall c: nat {:trigger c in free} :: c in free <==> c in old(free) && c !in a
      ensures |free| == |old(free)| - n
      ensures forall i {:trigger a[i]} | 0 <= i < n :: Settled(cells, used, a[i])
      ensures forall i, j, p, q {:trigger a[i], a[j], cells[p], cells[q]} |
                0 <= i < j < n && 0 <= p < |cells| && 0 <= q < |cells| && cells[p] == a[i] && cells[q] == a[j] :: p < q
    {
      a := [];
      var i := 0;
      while i < |cells| && |a| < n
        invariant 0 <= i <= |cells| && |a| <= n && Valid() && Distinct(a)
        invariant forall k | 0 <= k < |a| :: a[k] in old(free) && a[k] !in free && Pooled(cells, a[k])
        invariant forall c: nat {:trigger c in free} :: c in free <==> c in old(free) && c !in a
        invariant |free| == |old(free)| - |a|
        invariant forall k | 0 <= k < i :: used[k]
        invariant forall k | i <= k < |cells| :: cells[k] !in a
        invariant InOrder(cells, a)
      {
        if !used[i] {
          TracksSet(cells, used, free, i, true);
          assert Pooled(cells, cells[i]);
          OrderNext(cells, a, i);
          a := a + [cells[i]];
          used := used[i := true];
          free := free - {cells[i]};
        }
        i := i + 1;
      }
      if |a| < n {
        NoneFree(cells, used, free);
      }
    }

    /** What callers of `malloc` rely on, whichever free cells it picks. */
    method Malloc(n: nat) returns (a: seq<nat>)
      requires Valid() && 1 <= n <= |free|
      modifies this`used, this`free
      ensures Valid()
      ensures |a| == n && Distinct(a)
      ensures forall i | 0 <= i < n :: a[i] in old(free) && a[i] !in free && Pooled(cells, a[i])
      ensures forall c: nat {:trigger c in free} :: c in free <==> c in old(free) && c !in a
      ensures |free| == |old(free)| - n
    {
      a := FirstFit(n);
    }

    /** `malloc(1)`, which the source returns as a scalar. */
    method MallocCell() returns (c: nat)
      requires Valid() && |free| >= 1
      modifies this`used, this`free
      ensures Valid() && Pooled(cells, c)
      ensures c in old(free) && free == old(free) - {c}
    {
      var a := Malloc(1);
      c := a[0];
    }

    /** `malloc(1)` with the order in which it searches. */
    method MallocFirst() returns (c: nat)
      requires Valid() && |free| >= 1
      modifies this`used, this`free
      ensures Valid() && Pooled(cells, c) && Settled(cells, used, c)
      ensures c in old(free) && free == old(free) - {c}
    {
      var a := FirstFit(1);
      c := a[0];
    }

    /** First fit returns a cell that was just freed if no earlier one is free. */
    method Recycle(c: nat) returns (d: nat)
      requires Valid() && Pooled(cells, c) && c !in free && Settled(cells, used, c)
      modifies this`used, this`free
      ensures Valid() && d == c && free == old(free)
    {
      FreeCell(c);
      d := MallocFirst();
      assert Pooled(cells, d);
      ghost var i :| 0 <= i < |cells| && cells[i] == c;
      ghost var k :| 0 <= k < |cells| && cells[k] == d;
      assert cells[i] in old(free) <==> !old(used)[i];
      assert cells[k] in old(free) <==> !old(used)[k];
      assert cells[i] in free <==> !used[i];
    }

    /** `malloc(2)`, unpacked. */
    method Malloc2() returns (c: nat, d: nat)
      requires Valid() && |free| >= 2
      modifies this`used, this`free
      ensures Valid() && Pooled(cells, c) && Pooled(cells, d)
      ensures c in old(free) && d in old(free) && c != d
      ensures free == old(free) - {c, d} && |free| == |old(free)| - 2
    {
      var a := Malloc(2);
      c, d := a[0], a[1];
    }

    /** `malloc(3)`, unpacked. */
    method Malloc3() returns (c: nat, d: nat, e: nat)
      requires Valid() && |free| >= 3
      modifies this`used, this`free
      ensures Valid() && Pooled(cells, c) && Pooled(cells, d) && Pooled(cells, e)
      ensures c in old(free) && d in old(free) && e in old(free) && c != d && c != e && d != e
      ensures free == old(free) - {c, d, e} && |free| == |old(free)| - 3
    {
      var a := Malloc(3);
      c, d, e := a[0], a[1], a[2];
    }

    method Free(a: seq<nat>)
      requires Valid() && Distinct(a)
      requires forall i | 0 <= i < |a| :: Pooled(cells, a[i]) && a[i] !in free
      modifies this`used, this`free
      ensures Valid()
      ensures forall c: nat {:trigger c in free} :: c in free <==> c in old(free) || c in a
      ensures |free| == |old(free)| + |a|
    {
      for k := 0 to |a|
        invariant Valid()
        invariant forall c: nat {:trigger c in free} ::
                  c in free <==> c in old(free) || exists j :: 0 <= j < k && a[j] == c
        invariant |free| == |old(free)| + k
      {
        assert Pooled(cells, a[k]);
        var i :| 0 <= i < |cells| && cells[i] == a[k];
        TracksSet(cells, used, free, i, false);
        used := used[i := false];
        free := free + {a[k]};
      }
    }

    method FreeCell(c: nat)
      requires Valid() && Pooled(cells, c) && c !in free
      modifies this`used, this`free
      ensures Valid() && free == old(free) + {c}
    {
      Free([c]);
    }

    method Free2(c: nat, d: nat)
      requires Valid() && Pooled(cells, c) && Pooled(cells, d) && c !in free && d !in free && c != d
      modifies this`used, this`free
      ensures Valid() && free == old(free) + {c, d}
    {
      Free([c, d]);
    }

    method Free3(c: nat, d: nat, e: nat)
      requires Valid() && Pooled(cells, c) && Pooled(cells, d) && Pooled(cells, e)
      requires c !in free && d !in free && e !in free && c != d && c != e && d != e
      modifies this`used, this`free
      ensures Valid() && free == old(free) + {c, d, e}
    {
      Free([c, d, e]);
    }
  }
}
