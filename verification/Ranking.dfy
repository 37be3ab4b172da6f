/** RankingEngine of f6_dashboard.py: competition ranks and the best four configurations. */
module Ranking {

  class ConfigResult {
    const throughput: real
    const efficiency: real
    const area: real
    var throughputRank: nat
    var efficiencyRank: nat
    var combinedScore: nat

    constructor (throughput: real, efficiency: real, area: real)
      ensures this.throughput == throughput && this.efficiency == efficiency && this.area == area
    {
      this.throughput, this.efficiency, this.area := throughput, efficiency, area;
      throughputRank, efficiencyRank, combinedScore := 0, 0, 0;
    }
  }

  /** Which metric is ranked, and which attribute receives the rank. */
  datatype Metric = Throughput | Efficiency

  function Key(metric: Metric, r: ConfigResult): real {
    match metric
    case Throughput => r.throughput
    case Efficiency => r.efficiency
  }

  function Rank(metric: Metric, r: ConfigResult): nat
    reads r
  {
    match metric
    case Throughput => r.throughputRank
    case Efficiency => r.efficiencyRank
  }

  /** A position in the list of results with its sort key, compared component by component. */
  datatype Entry = Entry(index: nat, first: real, second: real, third: real)

  predicate Before(e: Entry, f: Entry) {
    e.first < f.first || (e.first == f.first && (e.second < f.second || (e.second == f.second && e.third <= f.third)))
  }

  function Insert(e: Entry, s: seq<Entry>): (r: seq<Entry>)
    ensures multiset(r) == multiset(s) + multiset{e}
  {
    if s == [] then [e]
    else if Before(e, s[0]) then [e] + s
    else
      assert s == [s[0]] + s[1..];
      [s[0]] + Insert(e, s[1..])
  }

  /** What Python's `sorted` returns: stable insertion. */
  function Sort(s: seq<Entry>): (r: seq<Entry>)
    ensures multiset(r) == multiset(s)
  {
    if s == [] then []
    else
      assert s == [s[0]] + s[1..];
      Insert(s[0], Sort(s[1..]))
  }

  ghost predicate Ordered(s: seq<Entry>) {
    forall i, j | 0 <= i < j < |s| :: Before(s[i], s[j])
  }

  lemma {:induction false} InsertOrdered(e: Entry, s: seq<Entry>)
    requires Ordered(s)
    ensures Ordered(Insert(e, s))
  {
    if s != [] && !Before(e, s[0]) {
      var rest := Insert(e, s[1..]);
      InsertOrdered(e, s[1..]);
      forall f | f in rest
        ensures Before(s[0], f)
      {
        assert f in multiset(rest);
        assert f in multiset(s[1..]) + multiset{e};
      }
    }
  }

  lemma {:induction false} SortOrdered(s: seq<Entry>)
    ensures Ordered(Sort(s))
  {
    if s != [] {
      SortOrdered(s[1..]);
      InsertOrdered(s[0], Sort(s[1..]));
    }
  }

  /** The order that a stable sort produces: ties keep the order of their positions. */
  predicate Sooner(e: Entry, f: Entry) {
    || e.first < f.first
    || (e.first == f.first &&
         (e.second < f.second ||
           (e.second == f.second && (e.third < f.third || (e.third == f.third && e.index < f.index)))))
  }

  ghost predicate Stable(s: seq<Entry>) {
    forall i, j | 0 <= i < j < |s| :: Sooner(s[i], s[j])
  }

  lemma {:induction false} InsertStable(e: Entry, s: seq<Entry>)
    requires Stable(s) && forall f | f in s :: e.index < f.index
    ensures Stable(Insert(e, s))
  {
    if s != [] {
      if Before(e, s[0]) {
        assert forall f | f in s :: Sooner(e, f);
      } else {
        var rest := Insert(e, s[1..]);
        InsertStable(e, s[1..]);
        forall f | f in rest
          ensures Sooner(s[0], f)
        {
          assert f in multiset(rest);
          assert f in multiset(s[1..]) + multiset{e};
        }
      }
    }
  }

  lemma {:induction false} SortStable(s: seq<Entry>)
    requires forall i, j | 0 <= i < j < |s| :: s[i].index < s[j].index
    ensures Stable(Sort(s))
  {
    if s != [] {
      SortStable(s[1..]);
      forall f | f in Sort(s[1..])
        ensures s[0].index < f.index
      {
        assert f in multiset(Sort(s[1..]));
        assert f in s[1..];
      }
      InsertStable(s[0], Sort(s[1..]));
    }
  }

  /** How many entries have a strictly smaller first component than `v`. */
  function Count(s: seq<Entry>, v: real): nat {
    if s == [] then 0 else Count(s[1..], v) + if s[0].first < v then 1 else 0
  }

  lemma {:induction false} CountInsert(e: Entry, s: seq<Entry>, v: real)
    ensures Count(Insert(e, s), v) == Count(s, v) + if e.first < v then 1 else 0
  {
    if s != [] && !Before(e, s[0]) {
      CountInsert(e, s[1..], v);
      assert Insert(e, s)[1..] == Insert(e, s[1..]);
    } else {
      assert Insert(e, s)[1..] == s;
    }
  }

  lemma {:induction false} CountSort(s: seq<Entry>, v: real)
    ensures Count(Sort(s), v) == Count(s, v)
  {
    if s != [] {
      CountSort(s[1..], v);
      CountInsert(s[0], Sort(s[1..]), v);
    }
  }

  lemma {:induction false} CountPrefix(s: seq<Entry>, i: nat, v: real)
    requires i <= |s| && (forall k | 0 <= k < i :: s[k].first < v) && (forall k | i <= k < |s| :: s[k].first >= v)
    ensures Count(s, v) == i
  {
    if s != [] {
      CountPrefix(s[1..], if i == 0 then 0 else i - 1, v);
    }
  }

  /** How many of the first `n` results have a strictly better metric than `v`. */
  function Better(results: seq<ConfigResult>, metric: Metric, descending: bool, v: real, n: nat): nat
    requires n <= |results|
  {
    if n == 0 then 0
    else
      var k := Key(metric, results[n - 1]);
      Better(results, metric, descending, v, n - 1) + if (if descending then k > v else k < v) then 1 else 0
  }

  /** The positions of the results with a strictly better metric. */
  ghost function Winners(results: seq<ConfigResult>, metric: Metric, descending: bool, v: real, n: nat): set<int>
    requires n <= |results|
  {
    set j | 0 <= j < n && if descending then Key(metric, results[j]) > v else Key(metric, results[j]) < v
  }

  lemma WinnersNext(results: seq<ConfigResult>, metric: Metric, descending: bool, v: real, n: nat)
    requires n < |results|
    ensures var k, w := Key(metric, results[n]), Winners(results, metric, descending, v, n);
            && n !in w
            && Winners(results, metric, descending, v, n + 1) ==
                 if (if descending then k > v else k < v) then w + {n} else w
  {
  }

  lemma {:induction false} BetterIs(results: seq<ConfigResult>, metric: Metric, descending: bool, v: real, n: nat)
    requires n <= |results|
    ensures Better(results, metric, descending, v, n) == |Winners(results, metric, descending, v, n)|
  {
    if n == 0 {
      assert Winners(results, metric, descending, v, 0) == {};
    } else {
      hide Winners;
      BetterIs(results, metric, descending, v, n - 1);
      WinnersNext(results, metric, descending, v, n - 1);
    }
  }

  /** The sort key: larger metrics first when `descending`. */
  function SortKey(metric: Metric, descending: bool, r: ConfigResult): real {
    if descending then 0.0 - Key(metric, r) else Key(metric, r)
  }

  function Entries(results: seq<ConfigResult>, metric: Metric, descending: bool): (r: seq<Entry>)
    ensures |r| == |results|
    ensures forall i {:trigger r[i]} | 0 <= i < |r| ::
              r[i] == Entry(i, SortKey(metric, descending, results[i]), 0.0, 0.0)
  {
    seq(|results|, i requires 0 <= i < |results| => Entry(i, SortKey(metric, descending, results[i]), 0.0, 0.0))
  }

  lemma {:induction false} CountEntries(results: seq<ConfigResult>, metric: Metric, descending: bool, i: nat, n: nat)
    requires i < |results| && n <= |results|
    ensures var es := Entries(results, metric, descending);
            Count(es[n..], es[i].first) + Better(results, metric, descending, Key(metric, results[i]), n) ==
              Better(results, metric, descending, Key(metric, results[i]), |results|)
    decreases |results| - n
  {
    var es := Entries(results, metric, descending);
    if n < |results| {
      CountEntries(results, metric, descending, i, n + 1);
      assert es[n..][1..] == es[n + 1..];
      assert es[n..][0] == es[n];
    }
  }

  /** Sorted entries name every position once. */
  lemma SortedPositions(es: seq<Entry>, s: seq<Entry>)
    requires multiset(s) == multiset(es) && forall i {:trigger es[i]} | 0 <= i < |es| :: es[i].index == i
    ensures |s| == |es|
    ensures forall k {:trigger s[k]} | 0 <= k < |s| :: s[k].index < |es| && es[s[k].index] == s[k]
    ensures forall i | 0 <= i < |es| :: es[i] in s
    ensures forall j, k | 0 <= j < k < |s| :: s[j].index != s[k].index
  {
    assert |multiset(s)| == |multiset(es)|;
    forall k | 0 <= k < |s|
      ensures s[k].index < |es| && es[s[k].index] == s[k]
    {
      assert s[k] in multiset(s);
      assert s[k] in es;
    }
    forall i | 0 <= i < |es|
      ensures es[i] in s
    {
      assert es[i] in multiset(es);
    }
    forall j, k | 0 <= j < k < |s|
      ensures s[j].index != s[k].index
    {
      if s[j].index == s[k].index {
        TwiceListed(s, j, k);
        OnceListed(es, s[j].index);
      }
    }
  }

  lemma TwiceListed(s: seq<Entry>, j: nat, k: nat)
    requires j < k < |s| && s[j] == s[k]
    ensures multiset(s)[s[j]] >= 2
  {
    assert s == s[..k] + [s[k]] + s[k + 1..];
    assert s[j] in s[..k];
    assert multiset(s) == multiset(s[..k]) + multiset{s[k]} + multiset(s[k + 1..]);
  }

  lemma OnceListed(es: seq<Entry>, i: nat)
    requires i < |es| && forall k {:trigger es[k]} | 0 <= k < |es| :: es[k].index == k
    ensures multiset(es)[es[i]] == 1
  {
    assert es == es[..i] + [es[i]] + es[i + 1..];
    assert es[i] !in es[..i] && es[i] !in es[i + 1..];
    assert multiset(es) == multiset(es[..i]) + multiset{es[i]} + multiset(es[i + 1..]);
  }

  /** Every sorted entry carries the sort key of the result it names, so entries of one result have one key. */
  ghost predicate Keyed(results: seq<ConfigResult>, metric: Metric, descending: bool, s: seq<Entry>) {
    forall k {:trigger s[k]} | 0 <= k < |s| ::
      s[k].index < |results| && s[k].first == SortKey(metric, descending, results[s[k].index])
  }

  /** What ranking by `metric` leaves alone. */
  twostate predicate OthersKept(results: seq<ConfigResult>, metric: Metric)
    reads results
  {
    forall r {:trigger r in results} | r in results ::
      r.combinedScore == old(r.combinedScore) && forall m | m != metric :: Rank(m, r) == old(Rank(m, r))
  }

  method SetRank(r: ConfigResult, metric: Metric, rank: nat)
    modifies r
    ensures Rank(metric, r) == rank && r.combinedScore == old(r.combinedScore)
    ensures forall m | m != metric :: Rank(m, r) == old(Rank(m, r))
  {
    match metric {
      case Throughput => r.throughputRank := rank;
      case Efficiency => r.efficiencyRank := rank;
    }
  }

  /** The positions `0..i` of the sorted list carry their ranks. */
  ghost predicate RankedTo(results: seq<ConfigResult>, metric: Metric, s: seq<Entry>, i: nat)
    requires i <= |s| && forall k {:trigger s[k]} | 0 <= k < |s| :: s[k].index < |results|
    reads results
  {
    forall k {:trigger s[k]} | 0 <= k < i :: Rank(metric, results[s[k].index]) == 1 + Count(s, s[k].first)
  }

  /** The rank of a group of ties that starts at position `i`. */
  lemma GroupRank(s: seq<Entry>, i: nat)
    requires Ordered(s) && i < |s| && (i > 0 ==> s[i - 1].first < s[i].first)
    ensures Count(s, s[i].first) == i
  {
    forall k | 0 <= k < i
      ensures s[k].first < s[i].first
    {
      assert k < i - 1 ==> Before(s[k], s[i - 1]);
    }
    forall k | i <= k < |s|
      ensures s[k].first >= s[i].first
    {
      assert k > i ==> Before(s[i], s[k]);
    }
    CountPrefix(s, i, s[i].first);
  }

  /** One group of ties, `i..j`, receives its rank. */
  method RankGroup(results: seq<ConfigResult>, metric: Metric, descending: bool, s: seq<Entry>, i: nat, j: nat,
                   rank: nat)
    requires i <= j <= |s| && Keyed(results, metric, descending, s) && RankedTo(results, metric, s, i)
    requires forall k {:trigger s[k]} | i <= k < j :: rank == 1 + Count(s, s[k].first)
    modifies results
    ensures RankedTo(results, metric, s, j)
    ensures OthersKept(results, metric)
  {
    for k := i to j
      invariant RankedTo(results, metric, s, k)
      invariant OthersKept(results, metric)
    {
      SetRank(results[s[k].index], metric, rank);
      assert forall a {:trigger s[a]} | 0 <= a < k && results[s[a].index] == results[s[k].index] ::
               s[a].first == s[k].first;
    }
  }

  /** The ranking loop over the sorted list. */
  method RankSorted(results: seq<ConfigResult>, metric: Metric, descending: bool, s: seq<Entry>)
    requires Ordered(s) && Keyed(results, metric, descending, s)
    modifies results
    ensures RankedTo(results, metric, s, |s|)
    ensures OthersKept(results, metric)
  {
    var currentRank, i := 1, 0;
    while i < |s|
      invariant 0 <= i <= |s| && currentRank == i + 1 && (0 < i < |s| ==> s[i - 1].first < s[i].first)
      invariant RankedTo(results, metric, s, i)
      invariant OthersKept(results, metric)
    {
      var value, j := s[i].first, i;
      while j < |s| && s[j].first == value
        invariant i <= j <= |s| && forall k {:trigger s[k]} | i <= k < j :: s[k].first == value
      {
        j := j + 1;
      }
      GroupRank(s, i);
      RankGroup(results, metric, descending, s, i, j, currentRank);
      assert j < |s| ==> Before(s[j - 1], s[j]);
      currentRank, i := j + 1, j;
    }
  }

  lemma AllRanked(results: seq<ConfigResult>, metric: Metric, descending: bool, s: seq<Entry>, i: nat)
    requires s == Sort(Entries(results, metric, descending)) && i < |results|
    requires (forall k {:trigger s[k]} | 0 <= k < |s| :: s[k].index < |results|) && RankedTo(results, metric, s, |s|)
    ensures Rank(metric, results[i]) == 1 + Better(results, metric, descending, Key(metric, results[i]), |results|)
  {
    var es := Entries(results, metric, descending);
    SortedPositions(es, s);
    assert es[i] in s;
    var k :| 0 <= k < |s| && s[k] == es[i];
    CountSort(es, es[i].first);
    CountEntries(results, metric, descending, i, 0);
    assert es[0..] == es;
  }

  /** _assign_competition_ranks: every result's rank is one more than the number of results with a strictly better
      key. */
  method AssignCompetitionRanks(results: seq<ConfigResult>, metric: Metric, descending: bool)
    modifies results
    ensures forall i {:trigger results[i]} | 0 <= i < |results| ::
              Rank(metric, results[i]) ==
                1 + |set j | 0 <= j < |results| && if descending then Key(metric, results[j]) > Key(metric, results[i])
                                                   else Key(metric, results[j]) < Key(metric, results[i])|
    ensures OthersKept(results, metric)
  {
    var s := Sort(Entries(results, metric, descending));
    SortOrdered(Entries(results, metric, descending));
    SortedPositions(Entries(results, metric, descending), s);
    RankSorted(results, metric, descending, s);
    forall i | 0 <= i < |results|
      ensures Rank(metric, results[i]) ==
                1 + |set j | 0 <= j < |results| && if descending then Key(metric, results[j]) > Key(metric, results[i])
                                                   else Key(metric, results[j]) < Key(metric, results[i])|
    {
      AllRanked(results, metric, descending, s, i);
      BetterIs(results, metric, descending, Key(metric, results[i]), |results|);
    }
  }

  /** The final sort key of the result at position `i`. */
  function Final(results: seq<ConfigResult>, i: nat): Entry
    requires i < |results|
    reads results
  {
    Entry(i, results[i].combinedScore as real, results[i].area, 0.0 - results[i].throughput)
  }

  /** Different positions in order, none of which an unlisted position precedes. */
  ghost predicate Best(results: seq<ConfigResult>, chosen: seq<nat>)
    reads results
  {
    && (forall k {:trigger chosen[k]} | 0 <= k < |chosen| :: chosen[k] < |results|)
    && (forall j, k | 0 <= j < k < |chosen| ::
          chosen[j] != chosen[k] && Sooner(Final(results, chosen[j]), Final(results, chosen[k])))
    && (forall i {:trigger Behind(results, chosen, i)} | 0 <= i < |results| && i !in chosen ::
          Behind(results, chosen, i))
  }

  /** Position `i` precedes none of the chosen ones. */
  ghost predicate Behind(results: seq<ConfigResult>, chosen: seq<nat>, i: nat)
    requires i < |results| && forall k {:trigger chosen[k]} | 0 <= k < |chosen| :: chosen[k] < |results|
    reads results
  {
    forall k {:trigger chosen[k]} | 0 <= k < |chosen| :: Sooner(Final(results, chosen[k]), Final(results, i))
  }

  /** The order of two results in the attributes themselves. */
  lemma FinalOrder(results: seq<ConfigResult>, i: nat, j: nat)
    requires i < |results| && j < |results| && Sooner(Final(results, i), Final(results, j))
    ensures var r, q := results[i], results[j];
            || r.combinedScore < q.combinedScore
            || (r.combinedScore == q.combinedScore &&
                 (r.area < q.area ||
                   (r.area == q.area &&
                     (r.throughput > q.throughput || (r.throughput == q.throughput && i < j)))))
  {
  }

  /** rank: competition ranks for both metrics, their sum as the score, and the best four results (or all), in the order
      of score, area and negated throughput, ties in the order of the list. */
  method RankResults(results: seq<ConfigResult>) returns (top: seq<ConfigResult>, ghost chosen: seq<nat>)
    modifies results
    ensures forall i {:trigger results[i]} | 0 <= i < |results| ::
              && results[i].throughputRank ==
                   1 + |set j | 0 <= j < |results| && results[j].throughput > results[i].throughput|
              && results[i].efficiencyRank ==
                   1 + |set j | 0 <= j < |results| && results[j].efficiency > results[i].efficiency|
              && results[i].combinedScore == results[i].throughputRank + results[i].efficiencyRank
    ensures |top| == |chosen| == if |results| < 4 then |results| else 4
    ensures forall k {:trigger chosen[k]} {:trigger top[k]} | 0 <= k < |chosen| ::
              chosen[k] < |results| && top[k] == results[chosen[k]]
    ensures forall j, k {:trigger top[j], top[k]} | 0 <= j < k < |top| ::
              || top[j].combinedScore < top[k].combinedScore
              || (top[j].combinedScore == top[k].combinedScore &&
                   (top[j].area < top[k].area ||
                     (top[j].area == top[k].area &&
                       (top[j].throughput > top[k].throughput ||
                         (top[j].throughput == top[k].throughput && chosen[j] < chosen[k])))))
    ensures forall k, i {:trigger top[k], results[i]} | 0 <= k < |top| && 0 <= i < |results| && i !in chosen ::
              || top[k].combinedScore < results[i].combinedScore
              || (top[k].combinedScore == results[i].combinedScore &&
                   (top[k].area < results[i].area ||
                     (top[k].area == results[i].area &&
                       (top[k].throughput > results[i].throughput ||
                         (top[k].throughput == results[i].throughput && chosen[k] < i)))))
  {
    hide Best, Sooner, Final;
    if |results| == 0 {
      return [], [];
    }
    ScoreAll(results);
    top, chosen := TopFour(results);
    BestPositions(results, chosen);
    forall j, k | 0 <= j < k < |top|
      ensures || top[j].combinedScore < top[k].combinedScore
              || (top[j].combinedScore == top[k].combinedScore &&
                   (top[j].area < top[k].area ||
                     (top[j].area == top[k].area &&
                       (top[j].throughput > top[k].throughput ||
                         (top[j].throughput == top[k].throughput && chosen[j] < chosen[k])))))
    {
      BestOrder(results, chosen, j, k);
    }
    forall k, i | 0 <= k < |top| && 0 <= i < |results| && i !in chosen
      ensures || top[k].combinedScore < results[i].combinedScore
              || (top[k].combinedScore == results[i].combinedScore &&
                   (top[k].area < results[i].area ||
                     (top[k].area == results[i].area &&
                       (top[k].throughput > results[i].throughput ||
                         (top[k].throughput == results[i].throughput && chosen[k] < i)))))
    {
      BestOmits(results, chosen, k, i);
    }
  }

  lemma BestPositions(results: seq<ConfigResult>, chosen: seq<nat>)
    requires Best(results, chosen)
    ensures forall k {:trigger chosen[k]} | 0 <= k < |chosen| :: chosen[k] < |results|
  {
  }

  lemma BestOrder(results: seq<ConfigResult>, chosen: seq<nat>, j: nat, k: nat)
    requires Best(results, chosen) && j < k < |chosen| && chosen[j] < |results| && chosen[k] < |results|
    ensures var r, q := results[chosen[j]], results[chosen[k]];
            || r.combinedScore < q.combinedScore
            || (r.combinedScore == q.combinedScore &&
                 (r.area < q.area ||
                   (r.area == q.area &&
                     (r.throughput > q.throughput || (r.throughput == q.throughput && chosen[j] < chosen[k])))))
  {
    hide Sooner, Final;
    FinalOrder(results, chosen[j], chosen[k]);
  }

  lemma BestOmits(results: seq<ConfigResult>, chosen: seq<nat>, k: nat, i: nat)
    requires Best(results, chosen) && k < |chosen| && chosen[k] < |results| && i < |results| && i !in chosen
    ensures var r, q := results[chosen[k]], results[i];
            || r.combinedScore < q.combinedScore
            || (r.combinedScore == q.combinedScore &&
                 (r.area < q.area ||
                   (r.area == q.area &&
                     (r.throughput > q.throughput || (r.throughput == q.throughput && chosen[k] < i)))))
  {
    hide Sooner, Final;
    assert Behind(results, chosen, i);
    FinalOrder(results, chosen[k], i);
  }

  /** Both ranks and their sum for every result. */
  method ScoreAll(results: seq<ConfigResult>)
    modifies results
    ensures forall i {:trigger results[i]} | 0 <= i < |results| ::
              && results[i].throughputRank ==
                   1 + |set j | 0 <= j < |results| && results[j].throughput > results[i].throughput|
              && results[i].efficiencyRank ==
                   1 + |set j | 0 <= j < |results| && results[j].efficiency > results[i].efficiency|
              && results[i].combinedScore == results[i].throughputRank + results[i].efficiencyRank
  {
    AssignCompetitionRanks(results, Throughput, true);
    forall i | 0 <= i < |results|
      ensures results[i].throughputRank ==
                1 + |set j | 0 <= j < |results| && results[j].throughput > results[i].throughput|
    {
      ThroughputRanked(results, i, true);
    }
    label ranked:
    AssignCompetitionRanks(results, Efficiency, true);
    forall i | 0 <= i < |results|
      ensures results[i].throughputRank == old@ranked(results[i].throughputRank)
      ensures results[i].efficiencyRank ==
                1 + |set j | 0 <= j < |results| && results[j].efficiency > results[i].efficiency|
    {
      assert results[i] in results;
      assert Rank(Throughput, results[i]) == old@ranked(Rank(Throughput, results[i]));
      EfficiencyRanked(results, i, true);
    }
    label scored:
    Score(results);
    forall i | 0 <= i < |results|
      ensures results[i].throughputRank == old@scored(results[i].throughputRank)
      ensures results[i].efficiencyRank == old@scored(results[i].efficiencyRank)
    {
      assert results[i] in results;
    }
  }

  lemma ThroughputRanked(results: seq<ConfigResult>, i: nat, descending: bool)
    requires i < |results|
    requires var v := Key(Throughput, results[i]);
             Rank(Throughput, results[i]) ==
               1 + |set j | 0 <= j < |results| && if descending then Key(Throughput, results[j]) > v
                                                  else Key(Throughput, results[j]) < v|
    ensures descending ==>
              results[i].throughputRank ==
                1 + |set j | 0 <= j < |results| && results[j].throughput > results[i].throughput|
  {
    var v := Key(Throughput, results[i]);
    var won := set j | 0 <= j < |results| && if descending then Key(Throughput, results[j]) > v
                                             else Key(Throughput, results[j]) < v;
    assert descending ==> won == set j | 0 <= j < |results| && results[j].throughput > results[i].throughput;
  }

  lemma EfficiencyRanked(results: seq<ConfigResult>, i: nat, descending: bool)
    requires i < |results|
    requires var v := Key(Efficiency, results[i]);
             Rank(Efficiency, results[i]) ==
               1 + |set j | 0 <= j < |results| && if descending then Key(Efficiency, results[j]) > v
                                                  else Key(Efficiency, results[j]) < v|
    ensures descending ==>
              results[i].efficiencyRank ==
                1 + |set j | 0 <= j < |results| && results[j].efficiency > results[i].efficiency|
  {
    var v := Key(Efficiency, results[i]);
    var won := set j | 0 <= j < |results| && if descending then Key(Efficiency, results[j]) > v
                                             else Key(Efficiency, results[j]) < v;
    assert descending ==> won == set j | 0 <= j < |results| && results[j].efficiency > results[i].efficiency;
  }

  /** All results with their final sort keys. */
  function Finals(results: seq<ConfigResult>): (r: seq<Entry>)
    reads results
    ensures |r| == |results|
    ensures forall i {:trigger r[i]} | 0 <= i < |r| :: r[i] == Final(results, i)
  {
    seq(|results|, i requires 0 <= i < |results| reads results => Final(results, i))
  }

  /** The positions of the first four entries, or of all. */
  function FirstFour(s: seq<Entry>): (r: seq<nat>)
    ensures |r| == if |s| < 4 then |s| else 4
    ensures forall k {:trigger r[k]} | 0 <= k < |r| :: r[k] == s[k].index
  {
    seq(if |s| < 4 then |s| else 4, k requires 0 <= k < |s| => s[k].index)
  }

  /** The first four of the results sorted by score, area and negated throughput. */
  method TopFour(results: seq<ConfigResult>) returns (top: seq<ConfigResult>, ghost chosen: seq<nat>)
    ensures |top| == |chosen| == if |results| < 4 then |results| else 4
    ensures Best(results, chosen)
    ensures forall k {:trigger chosen[k]} | 0 <= k < |chosen| :: top[k] == results[chosen[k]]
  {
    hide Best, Sort;
    var es := Finals(results);
    var s := Sort(es);
    SortedPositions(es, s);
    var best := FirstFour(s);
    Chosen(results, es, s, best);
    top := seq(|best|, k requires 0 <= k < |best| => results[best[k]]);
    chosen := best;
  }

  /** The sum of both ranks. */
  method Score(results: seq<ConfigResult>)
    modifies results
    ensures forall i {:trigger results[i]} | 0 <= i < |results| ::
              results[i].combinedScore == results[i].throughputRank + results[i].efficiencyRank
    ensures forall r {:trigger r in results} | r in results ::
              r.throughputRank == old(r.throughputRank) && r.efficiencyRank == old(r.efficiencyRank)
  {
    for k := 0 to |results|
      invariant forall i {:trigger results[i]} | 0 <= i < k ::
                results[i].combinedScore == results[i].throughputRank + results[i].efficiencyRank
      invariant forall r {:trigger r in results} | r in results ::
                r.throughputRank == old(r.throughputRank) && r.efficiencyRank == old(r.efficiencyRank)
    {
      var r := results[k];
      r.combinedScore := r.throughputRank + r.efficiencyRank;
    }
  }

  lemma ListedIsChosen(s: seq<Entry>, chosen: seq<nat>, p: nat)
    requires p < |chosen| <= |s|
    requires forall k {:trigger chosen[k]} | 0 <= k < |chosen| :: chosen[k] == s[k].index
    ensures s[p].index in chosen
  {
    assert chosen[p] == s[p].index;
  }

  /** A position outside the first entries of the sorted list does not precede them. */
  lemma NotSooner(es: seq<Entry>, s: seq<Entry>, chosen: seq<nat>, i: nat, k: nat)
    requires Stable(s) && multiset(s) == multiset(es) && i < |es| && es[i].index == i && i !in chosen
    requires k < |chosen| <= |s|
    requires forall k {:trigger chosen[k]} | 0 <= k < |chosen| :: chosen[k] == s[k].index
    ensures Sooner(s[k], es[i])
  {
    assert es[i] in multiset(es);
    assert es[i] in s;
    var p :| 0 <= p < |s| && s[p] == es[i];
    if p < |chosen| {
      ListedIsChosen(s, chosen, p);
      assert false;
    }
    assert Sooner(s[k], s[p]);
  }

  /** The first entries of a sorted list name different positions, in order. */
  lemma ChosenOrdered(s: seq<Entry>, chosen: seq<nat>, j: nat, k: nat)
    requires Stable(s) && |chosen| <= |s| && j < k < |chosen|
    requires forall j, k | 0 <= j < k < |s| :: s[j].index != s[k].index
    requires forall k {:trigger chosen[k]} | 0 <= k < |chosen| :: chosen[k] == s[k].index
    ensures chosen[j] != chosen[k] && Sooner(s[j], s[k])
  {
    hide Sooner;
    StableAt(s, j, k);
  }

  lemma ChosenFinal(results: seq<ConfigResult>, es: seq<Entry>, s: seq<Entry>, chosen: seq<nat>, k: nat)
    requires |es| == |results| && forall i {:trigger es[i]} | 0 <= i < |es| :: es[i] == Final(results, i)
    requires k < |chosen| <= |s| && chosen[k] == s[k].index && s[k].index < |es| && es[s[k].index] == s[k]
    ensures chosen[k] < |results| && Final(results, chosen[k]) == s[k]
  {
    assert es[chosen[k]] == Final(results, chosen[k]);
  }

  lemma Chosen(results: seq<ConfigResult>, es: seq<Entry>, s: seq<Entry>, chosen: seq<nat>)
    requires |es| == |results| && (forall i {:trigger es[i]} | 0 <= i < |es| :: es[i] == Final(results, i))
    requires s == Sort(es)
    requires |chosen| <= |s| && forall k {:trigger chosen[k]} | 0 <= k < |chosen| :: chosen[k] == s[k].index
    ensures Best(results, chosen)
  {
    SortStable(es);
    SortedPositions(es, s);
    hide Sooner, Stable, Sort;
    forall k {:trigger chosen[k]} | 0 <= k < |chosen|
      ensures chosen[k] < |results| && Final(results, chosen[k]) == s[k]
    {
      ChosenFinal(results, es, s, chosen, k);
    }
    forall j, k | 0 <= j < k < |chosen|
      ensures chosen[j] != chosen[k] && Sooner(Final(results, chosen[j]), Final(results, chosen[k]))
    {
      ChosenOrdered(s, chosen, j, k);
    }
    forall i {:trigger Behind(results, chosen, i)} | 0 <= i < |results| && i !in chosen
      ensures Behind(results, chosen, i)
    {
      ChosenBehind(results, es, s, chosen, i);
    }
  }

  lemma ChosenBehind(results: seq<ConfigResult>, es: seq<Entry>, s: seq<Entry>, chosen: seq<nat>, i: nat)
    requires |es| == |results| && forall i {:trigger es[i]} | 0 <= i < |es| :: es[i] == Final(results, i)
    requires Stable(s) && multiset(s) == multiset(es) && i < |results| && i !in chosen && |chosen| <= |s|
    requires forall k {:trigger chosen[k]} | 0 <= k < |chosen| :: chosen[k] == s[k].index
    requires forall k {:trigger chosen[k]} | 0 <= k < |chosen| ::
               chosen[k] < |results| && Final(results, chosen[k]) == s[k]
    ensures Behind(results, chosen, i)
  {
    hide Sooner, Stable;
    assert es[i] == Final(results, i);
    forall k {:trigger chosen[k]} | 0 <= k < |chosen|
      ensures Sooner(Final(results, chosen[k]), Final(results, i))
    {
      NotSooner(es, s, chosen, i, k);
    }
  }

  lemma StableAt(s: seq<Entry>, j: nat, k: nat)
    requires Stable(s) && j < k < |s|
    ensures Sooner(s[j], s[k])
  {
  }
}
