/** parallel/simulator.py: one row of the partitioned array. The bit of partition `p` at intra-partition address `a` is
    `memory[a][p]`, which is column `p * (num_cols / num_partitions) + a` of the columns. */
module ParallelSim {
  import opened Numbers
  import opened Simulator
  import opened Words

  /** The partitions with numbers `start`, `start + stride`, ... below `stop` (numpy's arange). */
  function Arange(start: nat, stop: nat, stride: nat): (r: seq<nat>)
    requires stride >= 1
    ensures forall k {:trigger r[k]} | 0 <= k < |r| :: r[k] == start + k * stride < stop
    ensures start < stop ==> |r| >= 1
    decreases if start < stop then stop - start else 0
  {
    if start >= stop then []
    else
      var rest := Arange(start + stride, stop, stride);
      assert forall k {:trigger ([start] + rest)[k]} | 0 < k < |rest| + 1 ::
               ([start] + rest)[k] == start + stride + (k - 1) * stride;
      [start] + rest
  }

  /** Every number of the progression below `stop` is listed. */
  lemma {:induction false} ArangeHas(start: nat, stop: nat, stride: nat, k: nat)
    requires stride >= 1 && start + k * stride < stop
    ensures k < |Arange(start, stop, stride)|
    decreases k
  {
    if k > 0 {
      assert start + stride + (k - 1) * stride == start + k * stride;
      ArangeHas(start + stride, stop, stride, k - 1);
    }
  }

  lemma ArangeIndex(start: nat, stop: nat, stride: nat, j: nat) returns (k: nat)
    requires stride >= 1 && j in Arange(start, stop, stride)
    ensures j == start + k * stride
  {
    var r := Arange(start, stop, stride);
    k :| 0 <= k < |r| && r[k] == j;
  }

  lemma ArangeListed(start: nat, stop: nat, stride: nat, k: nat, j: nat)
    requires stride >= 1 && j == start + k * stride < stop
    ensures j in Arange(start, stop, stride)
  {
    ArangeHas(start, stop, stride, k);
    assert Arange(start, stop, stride)[k] == j;
  }

  /** Progressions of equal stride with equally many numbers below their bounds pair up at a constant distance. */
  lemma {:induction false} ArangePairs(start: nat, stop: nat, start': nat, stop': nat, stride: nat)
    requires stride >= 1 && Distance(start, stop) == Distance(start', stop')
    ensures |Arange(start, stop, stride)| == |Arange(start', stop', stride)|
    decreases if start < stop then stop - start else 0
  {
    if start < stop {
      ArangePairs(start + stride, stop, start' + stride, stop', stride);
    }
  }

  lemma {:induction false} ArangeAll(start: nat, stop: nat)
    requires start <= stop
    ensures |Arange(start, stop, 1)| == stop - start
    ensures forall k {:trigger Arange(start, stop, 1)[k]} | 0 <= k < stop - start ::
              Arange(start, stop, 1)[k] == start + k
    decreases stop - start
  {
    if start < stop {
      ArangeAll(start + 1, stop);
    }
  }

  /** A progression passes the checks on partitions whenever its stride exceeds the distance. */
  lemma ArangeLegal(inputs: seq<nat>, o: nat, start: nat, stop: nat, start': nat, stop': nat, stride: nat)
    requires stride >= 1 && start < stop && Distance(start, stop) == Distance(start', stop')
    requires Distance(stride, 0) < Distance(start, start') < stride
    requires start != start' || (o !in inputs && forall i, j | 0 <= i < j < |inputs| :: inputs[i] != inputs[j])
    ensures Legal(inputs, o, Arange(start, stop, stride), Arange(start', stop', stride))
  {
    ArangePairs(start, stop, start', stop', stride);
    var ins, outs := Arange(start, stop, stride), Arange(start', stop', stride);
    forall k {:trigger ins[k + 2]} | 0 <= k && k + 2 < |ins|
      ensures Distance(ins[k + 1], ins[k + 2]) == Distance(ins[k], ins[k + 1])
    {
      assert (k + 2) * stride == k * stride + 2 * stride && (k + 1) * stride == k * stride + stride;
    }
  }

  /** The gate acts on every output partition at once; the input partition lies `d` below it. */
  function GateWord(g: GateType, m: seq<Word>, n: nat, inputs: seq<nat>, o: nat, d: int, outs: seq<nat>): (r: Word)
    requires o < |m| && |m[o]| == n && forall i | 0 <= i < |inputs| :: inputs[i] < |m| && |m[inputs[i]]| == n
    requires g.NOT? ==> |inputs| >= 1
    requires g.NOR? ==> |inputs| >= 2
    requires forall k | 0 <= k < |outs| :: 0 <= outs[k] < n && 0 <= outs[k] - d < n
    ensures |r| == n
    ensures forall p {:trigger r[p]} | 0 <= p < n :: r[p] ==
              if p !in outs then m[o][p]
              else match g
                   case INIT0 => false
                   case INIT1 => true
                   case NOT => m[o][p] && !m[inputs[0]][p - d]
                   case NOR => m[o][p] && !(m[inputs[0]][p - d] || m[inputs[1]][p - d])
  {
    seq(n, p requires 0 <= p < n =>
      if p !in outs then m[o][p]
      else match g
           case INIT0 => false
           case INIT1 => true
           case NOT => m[o][p] && !m[inputs[0]][p - d]
           case NOR => m[o][p] && !(m[inputs[0]][p - d] || m[inputs[1]][p - d]))
  }

  /** How far partition `j` lies above partition `i`. */
  function Distance(i: int, j: int): int {
    j - i
  }

  /** The assertions of `perform` for logic gates: uniform distance, periodic partitions, no two gates in overlapping
      partitions, and distinct cells for gates within a partition. */
  ghost predicate Legal(inputs: seq<nat>, o: nat, ins: seq<nat>, outs: seq<nat>) {
    && |ins| == |outs| >= 1
    && (forall k {:trigger outs[k]} | 0 <= k < |ins| :: Distance(ins[k], outs[k]) == Distance(ins[0], outs[0]))
    && Periodic(ins)
    && (|ins| > 1 ==> Distance(ins[1], ins[0]) < Distance(ins[0], outs[0]) < Distance(ins[0], ins[1]))
    && (outs[0] == ins[0] ==> o !in inputs && forall i, j | 0 <= i < j < |inputs| :: inputs[i] != inputs[j])
  }

  /** The assertions that `perform` makes of the sorted partitions, written out: equal distances, equal steps, a
      distance shorter than a step, and, within a partition, different cells. */
  lemma Asserted(inputs: seq<nat>, o: nat, ins: seq<nat>, outs: seq<nat>)
    requires Legal(inputs, o, ins, outs)
    ensures |ins| == |outs| >= 1
    ensures forall k {:trigger outs[k]} | 0 <= k < |outs| :: outs[k] + ins[0] == ins[k] + outs[0]
    ensures forall k | 0 <= k < |ins| - 2 :: ins[k + 2] + ins[k] == ins[k + 1] + ins[k + 1]
    ensures |ins| > 1 ==> outs[0] < ins[1] && ins[0] + ins[0] < outs[0] + ins[1]
    ensures outs[0] == ins[0] ==> o !in inputs && forall i, j | 0 <= i < j < |inputs| :: inputs[i] != inputs[j]
  {
    forall k {:trigger outs[k]} | 0 <= k < |outs|
      ensures outs[k] + ins[0] == ins[k] + outs[0]
    {
      assert Distance(ins[k], outs[k]) == Distance(ins[0], outs[0]);
    }
    forall k | 0 <= k < |ins| - 2
      ensures ins[k + 2] + ins[k] == ins[k + 1] + ins[k + 1]
    {
      PeriodAt(ins, k);
    }
  }

  /** Every gate of the cycle by itself. */
  lemma GateBits(g: GateType, m: seq<Word>, n: nat, inputs: seq<nat>, o: nat, d: int, ins: seq<nat>, outs: seq<nat>,
                 w: Word)
    requires o < |m| && |m[o]| == n && forall i | 0 <= i < |inputs| :: inputs[i] < |m| && |m[inputs[i]]| == n
    requires g.NOT? ==> |inputs| >= 1
    requires g.NOR? ==> |inputs| >= 2
    requires |ins| == |outs| && forall k {:trigger outs[k]} | 0 <= k < |outs| :: outs[k] - d == ins[k]
    requires forall k {:trigger ins[k]} {:trigger outs[k]} | 0 <= k < |outs| :: ins[k] < n && outs[k] < n
    requires w == GateWord(g, m, n, inputs, o, d, outs)
    ensures forall p {:trigger w[p]} | 0 <= p < n && p !in outs :: w[p] == m[o][p]
    ensures forall k {:trigger outs[k]} | 0 <= k < |outs| ::
              w[outs[k]] == match g
                            case INIT0 => false
                            case INIT1 => true
                            case NOT => m[o][outs[k]] && !m[inputs[0]][ins[k]]
                            case NOR => m[o][outs[k]] && !(m[inputs[0]][ins[k]] || m[inputs[1]][ins[k]])
  {
  }

  /** One gate of a cycle: it reads partition `from` and writes partition `to`. */
  datatype Link = Link(from: nat, to: nat)

  function Links(ins: seq<nat>, outs: seq<nat>): (r: seq<Link>)
    requires |ins| == |outs|
    ensures |r| == |ins| && forall k {:trigger r[k]} | 0 <= k < |r| :: r[k] == Link(ins[k], outs[k])
  {
    seq(|ins|, k requires 0 <= k < |ins| => Link(ins[k], outs[k]))
  }

  function InsertLink(l: Link, s: seq<Link>): (r: seq<Link>)
    ensures multiset(r) == multiset(s) + multiset{l}
  {
    if s == [] || l.from <= s[0].from then [l] + s
    else
      assert s == [s[0]] + s[1..];
      [s[0]] + InsertLink(l, s[1..])
  }

  /** The gates in increasing order of their input partitions, in which the checks are made. */
  function Sorted(s: seq<Link>): (r: seq<Link>)
    ensures multiset(r) == multiset(s) && |r| == |s|
  {
    if s == [] then []
    else
      assert s == [s[0]] + s[1..];
      var r := InsertLink(s[0], Sorted(s[1..]));
      assert |multiset(r)| == |multiset(s)|;
      r
  }

  ghost predicate Ascends(s: seq<Link>) {
    forall i, j | 0 <= i < j < |s| :: s[i].from <= s[j].from
  }

  lemma PrependAscends(l: Link, s: seq<Link>)
    requires Ascends(s) && forall k | k in s :: l.from <= k.from
    ensures Ascends([l] + s)
  {
  }

  lemma {:induction false} InsertAscends(l: Link, s: seq<Link>)
    requires Ascends(s)
    ensures Ascends(InsertLink(l, s))
  {
    if s == [] || l.from <= s[0].from {
      PrependAscends(l, s);
    } else {
      InsertAscends(l, s[1..]);
      var rest := InsertLink(l, s[1..]);
      forall k | k in rest
        ensures s[0].from <= k.from
      {
        assert k in multiset(rest);
        assert k in multiset(s[1..]) + multiset{l};
      }
      hide Ascends;
      PrependAscends(s[0], rest);
    }
  }

  /** The sort does sort. */
  lemma {:induction false} SortedAscends(s: seq<Link>)
    ensures Ascends(Sorted(s))
  {
    if s != [] {
      SortedAscends(s[1..]);
      InsertAscends(s[0], Sorted(s[1..]));
    }
  }

  function Froms(s: seq<Link>): (r: seq<nat>)
    ensures |r| == |s| && forall k {:trigger r[k]} | 0 <= k < |r| :: r[k] == s[k].from
  {
    seq(|s|, k requires 0 <= k < |s| => s[k].from)
  }

  function Tos(s: seq<Link>): (r: seq<nat>)
    ensures |r| == |s| && forall k {:trigger r[k]} | 0 <= k < |r| :: r[k] == s[k].to
  {
    seq(|s|, k requires 0 <= k < |s| => s[k].to)
  }

  function Backwards(s: seq<Link>): (r: seq<Link>)
    ensures |r| == |s| && forall k {:trigger r[k]} | 0 <= k < |r| :: r[k] == s[|s| - 1 - k]
  {
    seq(|s|, k requires 0 <= k < |s| => s[|s| - 1 - k])
  }

  lemma {:induction false} SortedIncreasing(s: seq<Link>)
    requires forall i, j | 0 <= i < j < |s| :: s[i].from < s[j].from
    ensures Sorted(s) == s
  {
    if s != [] {
      SortedIncreasing(s[1..]);
    }
  }

  lemma {:induction false} InsertLast(l: Link, s: seq<Link>)
    requires forall k | 0 <= k < |s| :: s[k].from < l.from
    ensures InsertLink(l, s) == s + [l]
  {
    if s != [] {
      InsertLast(l, s[1..]);
    }
  }

  lemma BackwardsSnoc(s: seq<Link>)
    requires s != []
    ensures Backwards(s) == Backwards(s[1..]) + [s[0]]
  {
  }

  lemma {:induction false} SortedDecreasing(s: seq<Link>)
    requires forall i, j | 0 <= i < j < |s| :: s[i].from > s[j].from
    ensures Sorted(s) == Backwards(s)
  {
    if s != [] {
      var rest := s[1..];
      SortedDecreasing(rest);
      InsertLast(s[0], Backwards(rest));
      BackwardsSnoc(s);
    }
  }

  /** The checks on the sorted gates hold of every gate in the order given. */
  lemma UniformDistance(inputs: seq<nat>, o: nat, ins: seq<nat>, outs: seq<nat>)
    requires |ins| == |outs| >= 1 && LegalLinks(inputs, o, Links(ins, outs))
    ensures forall k {:trigger outs[k]} | 0 <= k < |outs| :: outs[k] - Distance(ins[0], outs[0]) == ins[k]
  {
    var s := Links(ins, outs);
    var r := Sorted(s);
    forall k {:trigger outs[k]} | 0 <= k < |ins|
      ensures Distance(ins[k], outs[k]) == Distance(r[0].from, r[0].to)
    {
      assert s[k] in multiset(s);
      assert s[k] in r;
      var j :| 0 <= j < |r| && r[j] == s[k];
      assert Distance(Froms(r)[j], Tos(r)[j]) == Distance(Froms(r)[0], Tos(r)[0]);
    }
  }

  /** The assertions of `perform`, made after sorting. */
  ghost predicate LegalLinks(inputs: seq<nat>, o: nat, s: seq<Link>) {
    Legal(inputs, o, Froms(Sorted(s)), Tos(Sorted(s)))
  }

  /** Position `k` of the selected partitions, a progression in either direction. */
  function Place(base: int, stride: int, k: int): int {
    base + k * stride
  }

  /** The selected partitions lie in the array. */
  ghost predicate Selects(total: nat, base: int, stride: int, n: nat) {
    stride != 0 && forall k {:trigger Place(base, stride, k)} | 0 <= k < n :: 0 <= Place(base, stride, k) < total
  }

  function Places(base: int, stride: int, ks: seq<nat>): (r: seq<nat>)
    requires forall i {:trigger ks[i]} | 0 <= i < |ks| :: Place(base, stride, ks[i]) >= 0
    ensures |r| == |ks| && forall i {:trigger r[i]} | 0 <= i < |r| :: r[i] == Place(base, stride, ks[i])
  {
    seq(|ks|, i requires 0 <= i < |ks| => assert ks[i] == ks[i]; Place(base, stride, ks[i]))
  }

  lemma PlaceDifference(base: int, stride: int, i: int, j: int)
    ensures Place(base, stride, j) - Place(base, stride, i) == stride * (j - i)
  {
  }

  lemma PlaceInjective(base: int, stride: int, i: int, j: int)
    requires stride != 0 && Place(base, stride, i) == Place(base, stride, j)
    ensures i == j
  {
    PlaceDifference(base, stride, i, j);
  }

  /** The partitions are equally far apart. */
  ghost predicate Periodic(ins: seq<nat>) {
    forall k {:trigger ins[k + 2]} | 0 <= k && k + 2 < |ins| ::
      Distance(ins[k + 1], ins[k + 2]) == Distance(ins[k], ins[k + 1])
  }

  lemma PeriodAt(ins: seq<nat>, k: nat)
    requires Periodic(ins) && k + 2 < |ins|
    ensures Distance(ins[k + 1], ins[k + 2]) == Distance(ins[k], ins[k + 1])
  {
  }

  lemma {:induction false} Period(ins: seq<nat>, k: nat)
    requires Periodic(ins) && k + 1 < |ins|
    ensures Distance(ins[k], ins[k + 1]) == Distance(ins[0], ins[1])
  {
    if k > 0 {
      Period(ins, k - 1);
      PeriodAt(ins, k - 1);
    }
  }

  lemma ScaledStep(stride: int, d: int, step: int)
    requires stride != 0 && -step < d < step
    ensures stride > 0 ==> -(stride * step) < stride * d < stride * step
    ensures stride < 0 ==> stride * step < stride * d < -(stride * step)
  {
    if stride > 0 {
      MulLess(stride, d, step);
      MulLess(stride, -step, d);
    } else {
      MulLess(-stride, d, step);
      MulLess(-stride, -step, d);
    }
  }

  lemma LegalUniform(g: GateType, inputs: seq<nat>, o: nat, ins: seq<nat>, outs: seq<nat>)
    requires |ins| == |outs| >= 1
    requires if g.NOT? || g.NOR? then Legal(inputs, o, ins, outs) else ins == outs
    ensures forall k {:trigger outs[k]} | 0 <= k < |outs| :: outs[k] - Distance(ins[0], outs[0]) == ins[k]
  {
    forall k {:trigger outs[k]} | 0 <= k < |outs|
      ensures outs[k] - Distance(ins[0], outs[0]) == ins[k]
    {
      assert Distance(ins[k], outs[k]) == Distance(ins[0], outs[0]);
    }
  }

  /** The gates between selected partitions. */
  function PlacedLinks(base: int, stride: int, ins: seq<nat>, outs: seq<nat>): (r: seq<Link>)
    requires |ins| == |outs| && forall k {:trigger ins[k]} | 0 <= k < |ins| :: Place(base, stride, ins[k]) >= 0
    requires forall k {:trigger outs[k]} | 0 <= k < |outs| :: Place(base, stride, outs[k]) >= 0
    ensures |r| == |ins|
    ensures forall k {:trigger r[k]} | 0 <= k < |r| ::
              r[k].from == Place(base, stride, ins[k]) && r[k].to == Place(base, stride, outs[k])
  {
    Links(Places(base, stride, ins), Places(base, stride, outs))
  }

  lemma LinksReach(base: int, stride: int, ins: seq<nat>, outs: seq<nat>, d: int, s: seq<Link>)
    requires |s| == |ins| == |outs| && forall k {:trigger outs[k]} | 0 <= k < |outs| :: outs[k] - d == ins[k]
    requires forall k {:trigger s[k]} | 0 <= k < |s| ::
              s[k].from == Place(base, stride, ins[k]) && s[k].to == Place(base, stride, outs[k])
    ensures forall k {:trigger s[k]} | 0 <= k < |s| :: s[k].to - s[k].from == stride * d
  {
    forall k {:trigger s[k]} | 0 <= k < |s|
      ensures s[k].to - s[k].from == stride * d
    {
      PlaceDifference(base, stride, ins[k], outs[k]);
      assert outs[k] - d == ins[k];
    }
  }

  lemma LinksApart(base: int, stride: int, ins: seq<nat>, outs: seq<nat>, step: int, s: seq<Link>)
    requires |s| == |ins| == |outs| && Periodic(ins) && (|ins| > 1 ==> step == Distance(ins[0], ins[1]))
    requires forall k {:trigger s[k]} | 0 <= k < |s| ::
              s[k].from == Place(base, stride, ins[k]) && s[k].to == Place(base, stride, outs[k])
    ensures Apart(s, stride * step)
  {
    forall k {:trigger s[k]} | 0 < k < |s|
      ensures s[k].from - s[k - 1].from == stride * step
    {
      Period(ins, k - 1);
      PlaceDifference(base, stride, ins[k - 1], ins[k]);
      assert Distance(ins[k - 1], ins[k]) == step;
    }
  }

  /** Selected partitions spread the gates evenly, so that a legal cycle on positions is legal on the array. */
  lemma LegalPlaced(g: GateType, inputs: seq<nat>, o: nat, ins: seq<nat>, outs: seq<nat>, base: int, stride: int,
                    total: nat, n: nat)
    requires (g.NOT? || g.NOR?) && Legal(inputs, o, ins, outs) && Selects(total, base, stride, n)
    requires forall k {:trigger ins[k]} {:trigger outs[k]} | 0 <= k < |outs| :: ins[k] < n && outs[k] < n
    ensures LegalLinks(inputs, o, Links(Places(base, stride, ins), Places(base, stride, outs)))
  {
    var s := PlacedLinks(base, stride, ins, outs);
    var d, step := Distance(ins[0], outs[0]), if |ins| > 1 then Distance(ins[0], ins[1]) else 1;
    LegalUniform(g, inputs, o, ins, outs);
    hide Place, LegalLinks;
    LinksReach(base, stride, ins, outs, d, s);
    LinksApart(base, stride, ins, outs, step, s);
    if |ins| > 1 {
      ScaledStep(stride, d, step);
    }
    NoReach(stride, d);
    LegalSpread(inputs, o, s, stride * step, stride * d);
  }

  lemma NoReach(stride: int, d: int)
    requires stride != 0
    ensures stride * d == 0 <==> d == 0
  {
  }

  /** Neighbouring gates lie `step` apart. */
  ghost predicate Apart(s: seq<Link>, step: int) {
    forall k {:trigger s[k]} | 0 < k < |s| :: s[k].from - s[k - 1].from == step
  }

  lemma {:induction false} Climbs(s: seq<Link>, step: int, i: nat, j: nat)
    requires Apart(s, step) && i < j < |s|
    ensures step > 0 ==> s[i].from < s[j].from
    ensures step < 0 ==> s[i].from > s[j].from
  {
    assert s[j].from - s[j - 1].from == step;
    if i < j - 1 {
      Climbs(s, step, i, j - 1);
    }
  }

  lemma LegalClimbing(inputs: seq<nat>, o: nat, s: seq<Link>, step: int, d: int)
    requires |s| >= 1 && Apart(s, step) && (|s| > 1 ==> -step < d < step)
    requires forall k {:trigger s[k]} | 0 <= k < |s| :: s[k].to - s[k].from == d
    requires d == 0 ==> o !in inputs && forall i, j | 0 <= i < j < |inputs| :: inputs[i] != inputs[j]
    ensures LegalLinks(inputs, o, s)
  {
    forall i, j | 0 <= i < j < |s|
      ensures s[i].from < s[j].from
    {
      Climbs(s, step, i, j);
    }
    SortedIncreasing(s);
    hide Sorted, Legal;
    LegalAscending(inputs, o, s, step, d);
  }

  lemma LegalFalling(inputs: seq<nat>, o: nat, s: seq<Link>, step: int, d: int)
    requires |s| > 1 && Apart(s, step) && step < d < -step
    requires forall k {:trigger s[k]} | 0 <= k < |s| :: s[k].to - s[k].from == d
    requires d == 0 ==> o !in inputs && forall i, j | 0 <= i < j < |inputs| :: inputs[i] != inputs[j]
    ensures LegalLinks(inputs, o, s)
  {
    forall i, j | 0 <= i < j < |s|
      ensures s[i].from > s[j].from
    {
      Climbs(s, step, i, j);
    }
    SortedDecreasing(s);
    hide Sorted, Legal;
    BackwardsApart(s, step);
    LegalAscending(inputs, o, Backwards(s), -step, d);
  }

  lemma BackwardsApart(s: seq<Link>, step: int)
    requires Apart(s, step)
    ensures Apart(Backwards(s), -step)
  {
    var r := Backwards(s);
    forall k {:trigger r[k]} | 0 < k < |r|
      ensures r[k].from - r[k - 1].from == -step
    {
      assert s[|s| - k].from - s[|s| - k - 1].from == step;
    }
  }

  /** Gates at equal distances, of reach `d` less than the distance, are legal once sorted. */
  lemma LegalSpread(inputs: seq<nat>, o: nat, s: seq<Link>, step: int, d: int)
    requires |s| >= 1 && Apart(s, step) && (|s| > 1 ==> -step < d < step || step < d < -step)
    requires forall k {:trigger s[k]} | 0 <= k < |s| :: s[k].to - s[k].from == d
    requires d == 0 ==> o !in inputs && forall i, j | 0 <= i < j < |inputs| :: inputs[i] != inputs[j]
    ensures LegalLinks(inputs, o, s)
  {
    hide LegalLinks;
    if |s| == 1 || step > 0 {
      LegalClimbing(inputs, o, s, step, d);
    } else {
      LegalFalling(inputs, o, s, step, d);
    }
  }

  lemma LegalAscending(inputs: seq<nat>, o: nat, s: seq<Link>, step: int, d: int)
    requires |s| >= 1 && Apart(s, step) && (|s| > 1 ==> -step < d < step)
    requires forall k {:trigger s[k]} | 0 <= k < |s| :: s[k].to - s[k].from == d
    requires d == 0 ==> o !in inputs && forall i, j | 0 <= i < j < |inputs| :: inputs[i] != inputs[j]
    ensures Legal(inputs, o, Froms(s), Tos(s))
  {
    var ins, outs := Froms(s), Tos(s);
    forall k {:trigger ins[k + 2]} | 0 <= k && k + 2 < |ins|
      ensures Distance(ins[k + 1], ins[k + 2]) == Distance(ins[k], ins[k + 1])
    {
      assert s[k + 2].from - s[k + 1].from == step && s[k + 1].from - s[k].from == step;
    }
    assert |s| > 1 ==> s[1].from - s[0].from == step;
  }

  /** The word at every address has a bit in each of `n` partitions. */
  ghost predicate Wide(m: seq<Word>, n: nat) {
    forall a {:trigger m[a]} | 0 <= a < |m| :: |m[a]| == n
  }

  /** `m` shows the selected partitions of `columns`, and the other partitions are those of `origin`. */
  ghost predicate Window(columns: seq<Word>, origin: seq<Word>, total: nat, base: int, stride: int, n: nat,
                         m: seq<Word>) {
    && Wide(columns, total) && Wide(origin, total) && |columns| == |origin| == |m| && Wide(m, n)
    && Selects(total, base, stride, n)
    && (forall a {:trigger columns[a], m[a]} | 0 <= a < |m| :: Shows(columns[a], base, stride, m[a]))
    && (forall a {:trigger columns[a], origin[a]} | 0 <= a < |m| :: Beside(columns[a], origin[a], base, stride, n))
  }

  ghost predicate Shows(w: Word, base: int, stride: int, v: Word) {
    forall k {:trigger v[k]} {:trigger Place(base, stride, k)} | 0 <= k < |v| ::
      0 <= Place(base, stride, k) < |w| && v[k] == w[Place(base, stride, k)]
  }

  /** Partition `p` is selected. */
  ghost predicate Chosen(base: int, stride: int, n: nat, p: int) {
    exists k {:trigger Place(base, stride, k)} :: 0 <= k < n && Place(base, stride, k) == p
  }

  ghost predicate Beside(w: Word, w0: Word, base: int, stride: int, n: nat) {
    |w| == |w0| && forall p {:trigger w[p]} | 0 <= p < |w| && !Chosen(base, stride, n, p) :: w[p] == w0[p]
  }

  /** The selected partitions evolve as an array of their own. */
  lemma GateOnWindow(g: GateType, columns: seq<Word>, origin: seq<Word>, total: nat, base: int, stride: int, n: nat,
                     m: seq<Word>, inputs: seq<nat>, o: nat, d: int, outs: seq<nat>)
    requires Window(columns, origin, total, base, stride, n, m)
    requires o < |m| && forall i | 0 <= i < |inputs| :: inputs[i] < |m|
    requires g.NOT? ==> |inputs| >= 1
    requires g.NOR? ==> |inputs| >= 2
    requires forall k {:trigger outs[k]} | 0 <= k < |outs| :: outs[k] < n && 0 <= outs[k] - d < n
    ensures forall k {:trigger outs[k]} | 0 <= k < |outs| ::
              0 <= Place(base, stride, outs[k]) < total && 0 <= Place(base, stride, outs[k]) - stride * d < total
    ensures var w := GateWord(g, columns, total, inputs, o, stride * d, Places(base, stride, outs));
            && Shows(w, base, stride, GateWord(g, m, n, inputs, o, d, outs))
            && Beside(w, columns[o], base, stride, n)
  {
    var ps := SelectedPlaces(base, stride, total, n, outs, d);
    var w, v := GateWord(g, columns, total, inputs, o, stride * d, ps), GateWord(g, m, n, inputs, o, d, outs);
    forall k {:trigger v[k]} {:trigger Place(base, stride, k)} | 0 <= k < n
      ensures 0 <= Place(base, stride, k) < total && v[k] == w[Place(base, stride, k)]
    {
      var p := Place(base, stride, k);
      assert m[o][k] == columns[o][p];
      ListedPlace(base, stride, outs, ps, k);
      if k in outs && |inputs| >= 1 {
        var i :| 0 <= i < |outs| && outs[i] == k;
        PlaceDifference(base, stride, k - d, k);
        assert m[inputs[0]][k - d] == columns[inputs[0]][Place(base, stride, k - d)];
        assert |inputs| >= 2 ==> m[inputs[1]][k - d] == columns[inputs[1]][Place(base, stride, k - d)];
      }
    }
    forall p {:trigger w[p]} | 0 <= p < total && !Chosen(base, stride, n, p)
      ensures w[p] == columns[o][p]
    {
      assert p in ps ==> Chosen(base, stride, n, p) by { PlacesChosen(base, stride, n, outs, ps, p); }
    }
  }

  lemma SelectedPlaces(base: int, stride: int, total: nat, n: nat, outs: seq<nat>, d: int) returns (ps: seq<nat>)
    requires Selects(total, base, stride, n)
    requires forall k {:trigger outs[k]} | 0 <= k < |outs| :: outs[k] < n && 0 <= outs[k] - d < n
    ensures forall k {:trigger outs[k]} | 0 <= k < |outs| ::
              0 <= Place(base, stride, outs[k]) < total && 0 <= Place(base, stride, outs[k]) - stride * d < total
    ensures ps == Places(base, stride, outs)
    ensures forall k {:trigger ps[k]} | 0 <= k < |ps| :: 0 <= ps[k] < total && 0 <= ps[k] - stride * d < total
  {
    forall k {:trigger outs[k]} | 0 <= k < |outs|
      ensures 0 <= Place(base, stride, outs[k]) < total && 0 <= Place(base, stride, outs[k]) - stride * d < total
    {
      PlaceDifference(base, stride, outs[k] - d, outs[k]);
    }
    ps := Places(base, stride, outs);
  }

  lemma PlacesChosen(base: int, stride: int, n: nat, outs: seq<nat>, ps: seq<nat>, p: int)
    requires |ps| == |outs| && forall i {:trigger ps[i]} | 0 <= i < |ps| :: ps[i] == Place(base, stride, outs[i])
    requires forall i {:trigger outs[i]} | 0 <= i < |outs| :: outs[i] < n
    ensures p in ps ==> Chosen(base, stride, n, p)
  {
    if p in ps {
      var i :| 0 <= i < |ps| && ps[i] == p;
      assert Place(base, stride, outs[i]) == p;
    }
  }

  lemma ListedPlace(base: int, stride: int, outs: seq<nat>, ps: seq<nat>, k: nat)
    requires stride != 0 && |ps| == |outs|
    requires forall i {:trigger ps[i]} | 0 <= i < |ps| :: ps[i] == Place(base, stride, outs[i])
    ensures Place(base, stride, k) in ps <==> k in outs
  {
    if k in outs {
      var i :| 0 <= i < |outs| && outs[i] == k;
      assert ps[i] == Place(base, stride, k);
    }
    if Place(base, stride, k) in ps {
      var i :| 0 <= i < |ps| && ps[i] == Place(base, stride, k);
      PlaceInjective(base, stride, outs[i], k);
    }
  }

  /** Replacing one word and its view keeps the window. */
  lemma WindowKept(columns: seq<Word>, columns': seq<Word>, origin: seq<Word>, total: nat, base: int, stride: int,
                   n: nat, m: seq<Word>, o: nat, w: Word, v: Word)
    requires Window(columns, origin, total, base, stride, n, m) && o < |m| && columns' == columns[o := w]
    requires |w| == total && |v| == n && Shows(w, base, stride, v) && Beside(w, columns[o], base, stride, n)
    ensures Window(columns', origin, total, base, stride, n, m[o := v])
  {
    assert Beside(columns[o], origin[o], base, stride, n);
    forall p {:trigger w[p]} | 0 <= p < total && !Chosen(base, stride, n, p)
      ensures w[p] == origin[o][p]
    {
      assert columns[o][p] == origin[o][p];
    }
  }

  /** A cycle on selected partitions keeps the window: `ps` are their numbers in the array, `reach` their distance
      there. */
  lemma WindowStep(g: GateType, columns: seq<Word>, origin: seq<Word>, total: nat, base: int, stride: int, n: nat,
                   m: seq<Word>, inputs: seq<nat>, o: nat, d: int, outs: seq<nat>, ps: seq<nat>, reach: int)
    requires Window(columns, origin, total, base, stride, n, m)
    requires o < |m| && forall i | 0 <= i < |inputs| :: inputs[i] < |m|
    requires g.NOT? ==> |inputs| >= 1
    requires g.NOR? ==> |inputs| >= 2
    requires forall k {:trigger outs[k]} | 0 <= k < |outs| :: outs[k] < n && 0 <= outs[k] - d < n
    requires (forall k {:trigger outs[k]} | 0 <= k < |outs| :: Place(base, stride, outs[k]) >= 0)
    requires ps == Places(base, stride, outs)
    requires reach == stride * d
    ensures forall k {:trigger ps[k]} | 0 <= k < |ps| :: ps[k] < total && 0 <= ps[k] - reach < total
    ensures Window(columns[o := GateWord(g, columns, total, inputs, o, reach, ps)], origin, total, base, stride, n,
                   m[o := GateWord(g, m, n, inputs, o, d, outs)])
  {
    var ps' := SelectedPlaces(base, stride, total, n, outs, d);
    GateOnWindow(g, columns, origin, total, base, stride, n, m, inputs, o, d, outs);
    var w, v := GateWord(g, columns, total, inputs, o, stride * d, ps), GateWord(g, m, n, inputs, o, d, outs);
    WindowKept(columns, columns[o := w], origin, total, base, stride, n, m, o, w, v);
  }

  /** A routine that keeps the window, from any array to any other, leaves all partitions outside it alone, and the
      array holds in partition `base + k * stride` what the window shows at `k`. */
  lemma OutsideKept(columns: seq<Word>, columns': seq<Word>, origin: seq<Word>, total: nat, base: int, stride: int,
                    n: nat, m: seq<Word>, m': seq<Word>, a: nat, p: nat, k: nat)
    requires Window(columns, origin, total, base, stride, n, m) && Window(columns', origin, total, base, stride, n, m')
    requires a < |columns| && p < total
    ensures !Chosen(base, stride, n, p) ==> columns'[a][p] == columns[a][p]
    ensures k < n && p == base + k * stride ==> Chosen(base, stride, n, p) && columns'[a][p] == m'[a][k]
  {
    assert |columns[a]| == |columns'[a]| == total && |m'[a]| == n;
    assert Beside(columns[a], origin[a], base, stride, n) && Beside(columns'[a], origin[a], base, stride, n);
    assert Shows(columns'[a], base, stride, m'[a]);
    assert Place(base, stride, k) == base + k * stride;
  }

  /** The selected partitions lie in the array at distances scaled by the stride. */
  lemma PlacesFit(base: int, stride: int, total: nat, n: nat, ins: seq<nat>, outs: seq<nat>)
    requires Selects(total, base, stride, n) && |ins| == |outs| >= 1
    requires forall k {:trigger ins[k]} {:trigger outs[k]} | 0 <= k < |outs| :: ins[k] < n && outs[k] < n
    ensures forall k {:trigger ins[k]} {:trigger outs[k]} | 0 <= k < |outs| ::
              0 <= Place(base, stride, ins[k]) < total && 0 <= Place(base, stride, outs[k]) < total
    ensures Distance(Places(base, stride, ins)[0], Places(base, stride, outs)[0]) == stride * Distance(ins[0], outs[0])
  {
    forall k {:trigger ins[k]} {:trigger outs[k]} | 0 <= k < |outs|
      ensures 0 <= Place(base, stride, ins[k]) < total && 0 <= Place(base, stride, outs[k]) < total
    {
    }
    PlaceDifference(base, stride, ins[0], outs[0]);
  }

  /** The array together with the partitions that a routine is asked to work on (the argument `partitions` of the
      source): `memory` shows those, numbered from 0, and `origin` holds what stood in the other ones. */
  class ParallelSimulator {
    const total: nat
    const base: int
    const stride: int
    const n: nat
    ghost const origin: seq<Word>
    var columns: seq<Word>
    ghost var memory: seq<Word>
    var latency: nat
    var energy: nat
    var maxUsed: nat

    ghost predicate Valid()
      reads this
    {
      Wide(memory, n) && Window(columns, origin, total, base, stride, n, memory)
    }

    /** The cleared array, all partitions selected. */
    constructor (numCols: nat, numPartitions: nat)
      requires numPartitions >= 1
      ensures Valid() && total == n == numPartitions && |memory| == numCols / numPartitions
      ensures latency == 0 && energy == 0 && maxUsed == 0
    {
      total, base, stride, n := numPartitions, 0, 1, numPartitions;
      columns := seq(numCols / numPartitions, _ => Fill(false, numPartitions));
      origin, memory := columns, columns;
      latency, energy, maxUsed := 0, 0, 0;
    }

    /** Any array, with the partitions `first`, `first + step`, ... selected. */
    constructor Over(contents: seq<Word>, numPartitions: nat, first: int, step: int, count: nat)
      requires Wide(contents, numPartitions) && Selects(numPartitions, first, step, count)
      ensures Valid() && total == numPartitions && base == first && stride == step && n == count
      ensures columns == origin == contents
      ensures latency == 0 && energy == 0 && maxUsed == 0
    {
      total, base, stride, n := numPartitions, first, step, count;
      columns, origin := contents, contents;
      memory := seq(|contents|, a requires 0 <= a < |contents| =>
        seq(count, k requires 0 <= k < count &&
            0 <= Place(first, step, k) < |contents[a]| => contents[a][Place(first, step, k)]));
      latency, energy, maxUsed := 0, 0, 0;
    }

    /** One cycle on the partitions `ins` and `outs` of the array, listed in any order. */
    method Perform(g: GateType, inputs: seq<nat>, o: nat, ins: seq<nat>, outs: seq<nat>)
      requires Wide(columns, total) && o < |columns| && forall i | 0 <= i < |inputs| :: inputs[i] < |columns|
      requires g.NOT? ==> |inputs| >= 1
      requires g.NOR? ==> |inputs| >= 2
      requires |ins| == |outs| >= 1
      requires forall k {:trigger ins[k]} {:trigger outs[k]} | 0 <= k < |outs| :: ins[k] < total && outs[k] < total
      requires if g.NOT? || g.NOR? then LegalLinks(inputs, o, Links(ins, outs)) else ins == outs
      modifies this`columns, this`latency, this`energy, this`maxUsed
      ensures forall k {:trigger outs[k]} | 0 <= k < |outs| :: outs[k] - Distance(ins[0], outs[0]) == ins[k]
      ensures columns == old(columns)[o := GateWord(g, old(columns), total, inputs, o, Distance(ins[0], outs[0]), outs)]
      ensures forall p {:trigger columns[o][p]} | 0 <= p < total && p !in outs :: columns[o][p] == old(columns)[o][p]
      ensures var m := old(columns);
              forall k {:trigger outs[k]} | 0 <= k < |outs| ::
                columns[o][outs[k]] == match g
                                       case INIT0 => false
                                       case INIT1 => true
                                       case NOT => m[o][outs[k]] && !m[inputs[0]][ins[k]]
                                       case NOR => m[o][outs[k]] && !(m[inputs[0]][ins[k]] || m[inputs[1]][ins[k]])
      ensures latency == old(latency) + 1 && energy == old(energy) + |outs|
      ensures maxUsed == if old(maxUsed) < o then o else old(maxUsed)
    {
      if g.NOT? || g.NOR? {
        Asserted(inputs, o, Froms(Sorted(Links(ins, outs))), Tos(Sorted(Links(ins, outs))));
        UniformDistance(inputs, o, ins, outs);
      }
      hide Legal, LegalLinks;
      ghost var w := GateWord(g, columns, total, inputs, o, Distance(ins[0], outs[0]), outs);
      GateBits(g, columns, total, inputs, o, Distance(ins[0], outs[0]), ins, outs, w);
      columns := columns[o := GateWord(g, columns, total, inputs, o, Distance(ins[0], outs[0]), outs)];
      assert columns[o] == w;
      latency, energy := latency + 1, energy + |outs|;
      maxUsed := if maxUsed < o then o else maxUsed;
    }

    /** One cycle on positions among the selected partitions. */
    method Gate(g: GateType, inputs: seq<nat>, o: nat, ins: seq<nat>, outs: seq<nat>)
      requires Valid() && o < |memory| && forall i | 0 <= i < |inputs| :: inputs[i] < |memory|
      requires g.NOT? ==> |inputs| >= 1
      requires g.NOR? ==> |inputs| >= 2
      requires |ins| == |outs| >= 1
      requires forall k {:trigger ins[k]} {:trigger outs[k]} | 0 <= k < |outs| :: ins[k] < n && outs[k] < n
      requires if g.NOT? || g.NOR? then Legal(inputs, o, ins, outs) else ins == outs
      modifies this
      ensures Valid()
      ensures forall k {:trigger outs[k]} | 0 <= k < |outs| :: outs[k] - Distance(ins[0], outs[0]) == ins[k]
      ensures memory == old(memory)[o := GateWord(g, old(memory), n, inputs, o, Distance(ins[0], outs[0]), outs)]
      ensures latency == old(latency) + 1 && energy == old(energy) + |outs|
    {
      ghost var d, m, before := Distance(ins[0], outs[0]), memory, columns;
      LegalUniform(g, inputs, o, ins, outs);
      PlacesFit(base, stride, total, n, ins, outs);
      var from, to := Places(base, stride, ins), Places(base, stride, outs);
      if g.NOT? || g.NOR? {
        LegalPlaced(g, inputs, o, ins, outs, base, stride, total, n);
      }
      WindowStep(g, before, origin, total, base, stride, n, m, inputs, o, d, outs, to, Distance(from[0], to[0]));
      hide Window, Place, Legal, LegalLinks;
      Perform(g, inputs, o, from, to);
      memory := m[o := GateWord(g, m, n, inputs, o, d, outs)];
    }
  }
}
