/** The exhaustive search for the distribution of an NDRange's work-groups over the islands that
    finishes soonest (cpp/algo_simple.cc). The search writes one shared vector while it recurses;
    here it is proved to visit every distribution exactly once, in decreasing lexicographic order,
    and to keep the first of the cheapest ones. */
module AlgoSimple {

  const UNSUITABLE_ISLAND: int := -13

  // ---------- Distributions, without reference to the search ----------

  /** The number of work-groups that d places on the islands from i on. */
  ghost function Placed(d: seq<int>, i: nat): int
    requires i <= |d|
    decreases |d| - i
  {
    if i == |d| then 0 else (if d[i] == UNSUITABLE_ISLAND then 0 else d[i]) + Placed(d, i + 1)
  }

  /** d agrees with v before island i, leaves the islands that v marks unsuitable marked, and
      places n work-groups on the other islands from i on. */
  ghost predicate IsDistribution(d: seq<int>, n: int, v: seq<int>, i: nat)
    requires i <= |v|
  {
    |d| == |v| && d[..i] == v[..i] &&
    (forall j :: i <= j < |v| ==> if v[j] == UNSUITABLE_ISLAND then d[j] == UNSUITABLE_ISLAND else d[j] >= 0) &&
    Placed(d, i) == n
  }

  ghost function SuitableFrom(v: seq<int>, i: nat): (k: nat)
    requires i <= |v|
    decreases |v| - i
  {
    if i == |v| then 0 else (if v[i] == UNSUITABLE_ISLAND then 0 else 1) + SuitableFrom(v, i + 1)
  }

  /** The two vectors mark the same islands from i on. */
  ghost predicate SameMarks(v: seq<int>, w: seq<int>, i: nat) {
    |v| == |w| && forall j :: i <= j < |v| ==> (v[j] == UNSUITABLE_ISLAND <==> w[j] == UNSUITABLE_ISLAND)
  }

  ghost predicate LexGreater(a: seq<int>, b: seq<int>) {
    |a| == |b| && exists k :: 0 <= k < |a| && GreaterAt(a, b, k)
  }

  ghost predicate GreaterAt(a: seq<int>, b: seq<int>, k: nat)
    requires k < |a| && k < |b|
  {
    a[k] > b[k] && forall j :: 0 <= j < k ==> a[j] == b[j]
  }

  /** Pascal's triangle. */
  ghost function Choose(n: nat, k: nat): nat {
    if k == 0 then 1 else if n == 0 then 0 else Choose(n - 1, k - 1) + Choose(n - 1, k)
  }

  // ---------- The leaves of the search ----------

  /** The vectors that the search started at island i with n work-groups hands to CalculateTotal. */
  ghost function Leaves(n: nat, i: nat, v: seq<int>): seq<seq<int>>
    requires i <= |v|
    decreases |v| - i, n + 2
  {
    if i == |v| then if n == 0 then [v] else []
    else if v[i] == UNSUITABLE_ISLAND then Leaves(n, i + 1, v)
    else LeavesFrom(n, 0, i, v)
  }

  /** The part of them from the round of the loop that leaves c work-groups to later islands. */
  ghost function LeavesFrom(n: nat, c: nat, i: nat, v: seq<int>): seq<seq<int>>
    requires i < |v| && c <= n + 1
    decreases |v| - i, n + 1 - c
  {
    if c == n + 1 then [] else Leaves(c, i + 1, v[i := n - c]) + LeavesFrom(n, c + 1, i, v)
  }

  lemma {:induction false} PlacedOnlyLooksAhead(d: seq<int>, e: seq<int>, i: nat)
    requires |d| == |e| && i <= |d| && d[i..] == e[i..]
    ensures Placed(d, i) == Placed(e, i)
    decreases |d| - i
  {
    if i < |d| {
      assert d[i] == d[i..][0] == e[i..][0] == e[i];
      assert d[i + 1..] == d[i..][1..] == e[i..][1..] == e[i + 1..];
      PlacedOnlyLooksAhead(d, e, i + 1);
    }
  }

  lemma {:induction false} PlacedIsNotNegative(d: seq<int>, v: seq<int>, i: nat)
    requires i <= |v| == |d|
    requires forall j :: i <= j < |v| ==> if v[j] == UNSUITABLE_ISLAND then d[j] == UNSUITABLE_ISLAND else d[j] >= 0
    ensures Placed(d, i) >= 0
    decreases |d| - i
  {
    if i < |d| {
      PlacedIsNotNegative(d, v, i + 1);
    }
  }

  lemma {:induction false} LeavesOnlyLookAhead(n: nat, i: nat, v: seq<int>, w: seq<int>)
    requires |v| == |w| && i <= |v| && v[..i] == w[..i] && SameMarks(v, w, i)
    ensures Leaves(n, i, v) == Leaves(n, i, w)
    decreases |v| - i, n + 2
  {
    if i == |v| {
      assert v == v[..i] == w[..i] == w;
    } else if v[i] == UNSUITABLE_ISLAND {
      assert v[..i + 1] == v[..i] + [v[i]] == w[..i + 1];
      LeavesOnlyLookAhead(n, i + 1, v, w);
    } else {
      LeavesFromOnlyLookAhead(n, 0, i, v, w);
    }
  }

  lemma {:induction false} LeavesFromOnlyLookAhead(n: nat, c: nat, i: nat, v: seq<int>, w: seq<int>)
    requires |v| == |w| && i < |v| && c <= n + 1 && v[..i] == w[..i] && SameMarks(v, w, i + 1)
    ensures LeavesFrom(n, c, i, v) == LeavesFrom(n, c, i, w)
    decreases |v| - i, n + 1 - c
  {
    if c <= n {
      var v', w' := v[i := n - c], w[i := n - c];
      assert v'[..i + 1] == v[..i] + [n - c] == w'[..i + 1];
      LeavesOnlyLookAhead(c, i + 1, v', w');
      LeavesFromOnlyLookAhead(n, c + 1, i, v, w);
    }
  }

  /** Whatever a vector holds at or after island i when the search enters it (the leftovers of an
      earlier branch), the leaves are the same: every leftover is overwritten before a leaf. */
  lemma StaleEntriesAreOverwritten(n: nat, i: nat, v: seq<int>, w: seq<int>)
    requires |v| == |w| && i <= |v| && v[..i] == w[..i] && SameMarks(v, w, i)
    ensures Leaves(n, i, v) == Leaves(n, i, w)
    ensures forall d :: d in Leaves(n, i, v) <==> IsDistribution(d, n, w, i)
  {
    LeavesOnlyLookAhead(n, i, v, w);
    forall d
      ensures d in Leaves(n, i, w) <==> IsDistribution(d, n, w, i)
    {
      LeafIffDistribution(d, n, i, w);
    }
  }

  lemma {:induction false} LeafIffDistribution(d: seq<int>, n: nat, i: nat, v: seq<int>)
    requires i <= |v|
    ensures d in Leaves(n, i, v) <==> IsDistribution(d, n, v, i)
    decreases |v| - i, n + 2
  {
    if i == |v| {
      assert v[..i] == v;
      if |d| == |v| {
        assert d[..i] == d;
      }
    } else if v[i] == UNSUITABLE_ISLAND {
      LeafIffDistribution(d, n, i + 1, v);
      if |d| == |v| {
        assert v[..i + 1] == v[..i] + [v[i]];
        assert d[..i + 1] == d[..i] + [d[i]];
        assert d[..i + 1] == v[..i + 1] <==> d[..i] == v[..i] && d[i] == v[i];
      }
    } else {
      LeafFromIffDistribution(d, n, 0, i, v);
      if IsDistribution(d, n, v, i) {
        PlacedIsNotNegative(d, v, i + 1);
      }
    }
  }

  lemma {:induction false} LeafFromIffDistribution(d: seq<int>, n: nat, c: nat, i: nat, v: seq<int>)
    requires i < |v| && c <= n + 1 && v[i] != UNSUITABLE_ISLAND
    ensures d in LeavesFrom(n, c, i, v) <==> IsDistribution(d, n, v, i) && d[i] <= n - c
    decreases |v| - i, n + 1 - c
  {
    if c == n + 1 {
      if IsDistribution(d, n, v, i) {
        assert d[i] >= 0;
      }
    } else {
      var v' := v[i := n - c];
      LeafIffDistribution(d, c, i + 1, v');
      LeafFromIffDistribution(d, n, c + 1, i, v);
      HeadFixed(d, n, c, i, v);
    }
  }

  /** Placing n - c work-groups on island i and c after it is a distribution of n from i on. */
  lemma HeadFixed(d: seq<int>, n: nat, c: nat, i: nat, v: seq<int>)
    requires i < |v| && c <= n && v[i] != UNSUITABLE_ISLAND
    ensures IsDistribution(d, c, v[i := n - c], i + 1) <==> IsDistribution(d, n, v, i) && d[i] == n - c
  {
    var v' := v[i := n - c];
    if |d| == |v| {
      assert v'[..i + 1] == v[..i] + [n - c];
      assert d[..i + 1] == d[..i] + [d[i]];
      assert d[..i + 1] == v'[..i + 1] <==> d[..i] == v[..i] && d[i] == n - c;
    }
  }

  // ---------- Order: each distribution once, larger ones first ----------

  ghost predicate Decreasing(s: seq<seq<int>>) {
    forall p, q :: 0 <= p < q < |s| ==> LexGreater(s[p], s[q])
  }

  lemma {:induction false} LeavesDecrease(n: nat, i: nat, v: seq<int>)
    requires i <= |v|
    ensures Decreasing(Leaves(n, i, v))
    decreases |v| - i, n + 2
  {
    if i < |v| {
      if v[i] == UNSUITABLE_ISLAND {
        LeavesDecrease(n, i + 1, v);
      } else {
        LeavesFromDecrease(n, 0, i, v);
      }
    }
  }

  lemma {:induction false} LeavesFromDecrease(n: nat, c: nat, i: nat, v: seq<int>)
    requires i < |v| && c <= n + 1 && v[i] != UNSUITABLE_ISLAND
    ensures Decreasing(LeavesFrom(n, c, i, v))
    decreases |v| - i, n + 1 - c
  {
    if c <= n {
      hide LexGreater;
      var a, b := Leaves(c, i + 1, v[i := n - c]), LeavesFrom(n, c + 1, i, v);
      LeavesDecrease(c, i + 1, v[i := n - c]);
      LeavesFromDecrease(n, c + 1, i, v);
      forall p, q | 0 <= p < |a| && 0 <= q < |b|
        ensures LexGreater(a[p], b[q])
      {
        RoundsDecrease(n, c, i, v, a[p], b[q]);
      }
      DecreasingConcat(a, b);
    }
  }

  /** A leaf of one round of the loop is greater than one of a later round. */
  lemma RoundsDecrease(n: nat, c: nat, i: nat, v: seq<int>, d: seq<int>, e: seq<int>)
    requires i < |v| && c <= n && v[i] != UNSUITABLE_ISLAND
    requires d in Leaves(c, i + 1, v[i := n - c]) && e in LeavesFrom(n, c + 1, i, v)
    ensures LexGreater(d, e)
  {
    hide Leaves, LeavesFrom, LexGreater;
    LeafIffDistribution(d, c, i + 1, v[i := n - c]);
    HeadFixed(d, n, c, i, v);
    LeafFromIffDistribution(e, n, c + 1, i, v);
    AgreeBefore(d, e, v, i);
  }

  lemma AgreeBefore(a: seq<int>, b: seq<int>, v: seq<int>, i: nat)
    requires i < |a| == |b| == |v| && a[..i] == v[..i] == b[..i] && a[i] > b[i]
    ensures LexGreater(a, b)
  {
    forall j | 0 <= j < i
      ensures a[j] == b[j]
    {
      assert a[j] == a[..i][j] == b[..i][j] == b[j];
    }
    assert GreaterAt(a, b, i);
  }

  lemma DecreasingConcat(a: seq<seq<int>>, b: seq<seq<int>>)
    requires Decreasing(a) && Decreasing(b)
    requires forall p, q :: 0 <= p < |a| && 0 <= q < |b| ==> LexGreater(a[p], b[q])
    ensures Decreasing(a + b)
  {
    var s := a + b;
    forall p, q | 0 <= p < q < |s|
      ensures LexGreater(s[p], s[q])
    {
      assert s[p] == if p < |a| then a[p] else b[p - |a|];
      assert s[q] == if q < |a| then a[q] else b[q - |a|];
    }
  }

  lemma LexGreaterIsStrict(a: seq<int>, b: seq<int>)
    requires LexGreater(a, b)
    ensures a != b && !LexGreater(b, a)
  {
    var k :| 0 <= k < |a| && GreaterAt(a, b, k);
  }

  // ---------- Number of leaves ----------

  lemma {:induction false} LeavesCount(n: nat, i: nat, v: seq<int>)
    requires i <= |v|
    ensures |Leaves(n, i, v)| ==
            if SuitableFrom(v, i) == 0 then if n == 0 then 1 else 0
            else Choose(n + SuitableFrom(v, i) - 1, SuitableFrom(v, i) - 1)
    decreases |v| - i, n + 2
  {
    if i < |v| {
      if v[i] == UNSUITABLE_ISLAND {
        LeavesCount(n, i + 1, v);
      } else {
        var k := SuitableFrom(v, i + 1);
        LeavesFromCount(n, 0, i, v);
        if k > 0 {
          ChooseAboveTop(k - 1, k);
        }
      }
    }
  }

  lemma {:induction false} LeavesFromCount(n: nat, c: nat, i: nat, v: seq<int>)
    requires i < |v| && c <= n + 1 && v[i] != UNSUITABLE_ISLAND
    ensures var k := SuitableFrom(v, i + 1);
            |LeavesFrom(n, c, i, v)| ==
            if k == 0 then if c == 0 then 1 else 0
            else Choose(n + k, k) - Choose(c + k - 1, k)
    decreases |v| - i, n + 1 - c
  {
    if c <= n {
      var v' := v[i := n - c];
      LeavesCount(c, i + 1, v');
      SuitableOnlyLooksAhead(v, v', i + 1);
      LeavesFromCount(n, c + 1, i, v);
    }
  }

  lemma {:induction false} SuitableOnlyLooksAhead(v: seq<int>, w: seq<int>, i: nat)
    requires |v| == |w| && i <= |v| && v[i..] == w[i..]
    ensures SuitableFrom(v, i) == SuitableFrom(w, i)
    decreases |v| - i
  {
    if i < |v| {
      assert v[i] == v[i..][0] == w[i..][0] == w[i];
      assert v[i + 1..] == v[i..][1..] == w[i..][1..] == w[i + 1..];
      SuitableOnlyLooksAhead(v, w, i + 1);
    }
  }

  lemma {:induction false} ChooseAboveTop(n: nat, k: nat)
    requires n < k
    ensures Choose(n, k) == 0
  {
    if n > 0 {
      ChooseAboveTop(n - 1, k - 1);
      ChooseAboveTop(n - 1, k);
    }
  }

  /** The search over n work-groups reaches a leaf once for each distribution of n and for no other
      vector, in strictly decreasing lexicographic order, and C(n + k - 1, k - 1) times in all for k
      suitable islands. */
  lemma EnumeratesExactlyOnce(n: nat, v: seq<int>)
    ensures forall d :: d in Leaves(n, 0, v) <==> IsDistribution(d, n, v, 0)
    ensures forall p, q :: 0 <= p < q < |Leaves(n, 0, v)| ==>
                             LexGreater(Leaves(n, 0, v)[p], Leaves(n, 0, v)[q]) &&
                               Leaves(n, 0, v)[p] != Leaves(n, 0, v)[q]
    ensures SuitableFrom(v, 0) > 0 ==>
              |Leaves(n, 0, v)| == Choose(n + SuitableFrom(v, 0) - 1, SuitableFrom(v, 0) - 1) > 0
  {
    StaleEntriesAreOverwritten(n, 0, v, v);
    LeavesDecrease(n, 0, v);
    LeavesCount(n, 0, v);
    var s := Leaves(n, 0, v);
    forall p, q | 0 <= p < q < |s|
      ensures LexGreater(s[p], s[q]) && s[p] != s[q]
    {
      LexGreaterIsStrict(s[p], s[q]);
    }
    if SuitableFrom(v, 0) > 0 {
      ChoosePositive(n + SuitableFrom(v, 0) - 1, SuitableFrom(v, 0) - 1);
    }
  }

  lemma {:induction false} ChoosePositive(n: nat, k: nat)
    requires k <= n
    ensures Choose(n, k) > 0
  {
    if k > 0 {
      ChoosePositive(n - 1, k - 1);
    }
  }

  // ---------- Makespan ----------

  datatype Costs = Costs(perWorkGroup: seq<int>, inProgress: seq<int>, reconf: seq<int>)

  predicate CostsFor(costs: Costs, k: nat) {
    |costs.perWorkGroup| == |costs.inProgress| == |costs.reconf| == k
  }

  /** When island i would be done with its share. */
  function IslandCost(d: seq<int>, costs: Costs, i: nat): int
    requires i < |d| && CostsFor(costs, |d|)
  {
    d[i] * costs.perWorkGroup[i] + costs.inProgress[i] + costs.reconf[i]
  }

  /** m is the time at which the last island given work is done (0 when all are done by then). */
  ghost predicate IsMakespan(m: int, d: seq<int>, costs: Costs)
    requires CostsFor(costs, |d|)
  {
    m >= 0 &&
    (forall i :: 0 <= i < |d| && d[i] > 0 ==> IslandCost(d, costs, i) <= m) &&
    (m == 0 || exists i :: 0 <= i < |d| && d[i] > 0 && IslandCost(d, costs, i) == m)
  }

  /** The makespan of d among its first i islands. */
  ghost function Makespan(d: seq<int>, costs: Costs, i: nat): (m: int)
    requires CostsFor(costs, |d|) && i <= |d|
    ensures m >= 0 && forall j :: 0 <= j < i && d[j] > 0 ==> IslandCost(d, costs, j) <= m
    ensures m == 0 || exists j :: 0 <= j < i && d[j] > 0 && IslandCost(d, costs, j) == m
    ensures i == |d| ==> IsMakespan(m, d, costs)
  {
    if i == 0 then 0
    else
      var before := Makespan(d, costs, i - 1);
      if d[i - 1] > 0 && IslandCost(d, costs, i - 1) > before then IslandCost(d, costs, i - 1) else before
  }

  lemma MakespanIsUnique(m: int, m': int, d: seq<int>, costs: Costs)
    requires CostsFor(costs, |d|) && IsMakespan(m, d, costs) && IsMakespan(m', d, costs)
    ensures m == m'
  {
  }

  /** d is no slower than e, and wins a tie by being lexicographically greater. */
  ghost predicate Preferred(d: seq<int>, e: seq<int>, costs: Costs)
    requires |d| == |e| && CostsFor(costs, |d|)
  {
    var m, m' := Makespan(d, costs, |d|), Makespan(e, costs, |e|);
    m < m' || (m == m' && (d == e || LexGreater(d, e)))
  }

  /** d distributes n over the islands that v marks as suitable, and no other way is preferred. */
  ghost predicate Optimal(d: seq<int>, n: int, v: seq<int>, costs: Costs) {
    IsDistribution(d, n, v, 0) && CostsFor(costs, |v|) &&
    forall e :: IsDistribution(e, n, v, 0) ==> Preferred(d, e, costs)
  }

  /** There is only one such distribution: it is a function of the work, the islands and the costs. */
  lemma OptimalIsUnique(d: seq<int>, e: seq<int>, n: int, v: seq<int>, costs: Costs)
    requires Optimal(d, n, v, costs) && Optimal(e, n, v, costs)
    ensures d == e
  {
    hide IsDistribution, LexGreater;
    assert |d| == |v| == |e| by {
      SameLength(d, n, v);
      SameLength(e, n, v);
    }
    assert Preferred(d, e, costs) && Preferred(e, d, costs);
    if LexGreater(d, e) {
      LexGreaterIsStrict(d, e);
    }
  }

  lemma SameLength(d: seq<int>, n: int, v: seq<int>)
    requires IsDistribution(d, n, v, 0)
    ensures |d| == |v|
  {
  }

  /** What the search has recorded after the given leaves. */
  ghost predicate Recorded(leaves: seq<seq<int>>, currentMin: int, result: seq<int>, k: nat, costs: Costs)
    requires CostsFor(costs, k)
  {
    if leaves == [] then currentMin == -1
    else
      exists f: nat :: FirstBest(f, leaves, currentMin, result, k, costs)
  }

  /** The f-th leaf is the first of the cheapest, and is the one recorded. */
  ghost predicate FirstBest(f: nat, leaves: seq<seq<int>>, currentMin: int, result: seq<int>, k: nat, costs: Costs)
    requires CostsFor(costs, k)
  {
    f < |leaves| && leaves[f] == result && |result| == k && IsMakespan(currentMin, result, costs) &&
    forall p :: 0 <= p < |leaves| ==> |leaves[p]| == k && NoWorseThan(leaves[p], currentMin, p < f, costs)
  }

  /** A makespan of m is no worse than d's, and better when strict. */
  ghost predicate NoWorseThan(d: seq<int>, m: int, strict: bool, costs: Costs)
    requires CostsFor(costs, |d|)
  {
    if strict then m < Makespan(d, costs, |d|) else m <= Makespan(d, costs, |d|)
  }

  lemma NothingRecorded(result: seq<int>, k: nat, costs: Costs)
    requires CostsFor(costs, k)
    ensures Recorded([], -1, result, k, costs)
  {
  }

  lemma RecordLeaf(leaves: seq<seq<int>>, currentMin: int, result: seq<int>, d: seq<int>, max: int, costs: Costs)
    requires CostsFor(costs, |d|) && Recorded(leaves, currentMin, result, |d|, costs)
    requires IsMakespan(max, d, costs)
    ensures var better := max < currentMin || currentMin < 0;
            Recorded(leaves + [d], if better then max else currentMin, if better then d else result, |d|, costs)
  {
    var after := leaves + [d];
    var better := max < currentMin || currentMin < 0;
    MakespanIsUnique(Makespan(d, costs, |d|), max, d, costs);
    if leaves == [] {
      assert FirstBest(0, after, max, d, |d|, costs);
    } else {
      var f: nat :| FirstBest(f, leaves, currentMin, result, |d|, costs);
      if better {
        assert FirstBest(|leaves|, after, max, d, |d|, costs);
      } else {
        assert FirstBest(f, after, currentMin, result, |d|, costs);
      }
    }
  }

  /** What the search leaves behind when it has seen every distribution of n: an optimal one, the
      lexicographically greatest of the optimal ones. */
  lemma RecordedIsBest(n: nat, v: seq<int>, currentMin: int, result: seq<int>, costs: Costs)
    requires CostsFor(costs, |v|) && Recorded(Leaves(n, 0, v), currentMin, result, |v|, costs)
    requires Leaves(n, 0, v) != []
    ensures Optimal(result, n, v, costs) && IsMakespan(currentMin, result, costs)
  {
    var s := Leaves(n, 0, v);
    var f: nat :| FirstBest(f, s, currentMin, result, |v|, costs);
    EnumeratesExactlyOnce(n, v);
    assert result in s;
    forall e | IsDistribution(e, n, v, 0)
      ensures Preferred(result, e, costs)
    {
      assert e in s;
      var p :| 0 <= p < |s| && s[p] == e;
      assert NoWorseThan(e, currentMin, p < f, costs);
      MakespanIsUnique(Makespan(result, costs, |result|), currentMin, result, costs);
      assert f < p ==> LexGreater(s[f], s[p]);
    }
  }

  // ---------- The object ----------

  class AlgoSimple {
    const numIslands: nat
    var wgsPerIslands: seq<int>
    var workInProgressCost: seq<int>
    var currentWorkPotentialCost: seq<int>
    var currentWorkReconfCost: seq<int>
    var result: seq<int>
    var currentMin: int
    ghost var leaves: seq<seq<int>>  // the vectors CalculateTotal has been called on since the search began

    ghost predicate Valid()
      reads this
    {
      |wgsPerIslands| == |result| == numIslands && CostsFor(TheCosts(), numIslands)
    }

    function TheCosts(): Costs
      reads this
    {
      Costs(currentWorkPotentialCost, workInProgressCost, currentWorkReconfCost)
    }

    constructor (numSched: nat)
      ensures Valid() && numIslands == numSched && currentMin == -1 && leaves == []
    {
      numIslands := numSched;
      wgsPerIslands := seq(numSched, _ => 0);
      workInProgressCost := seq(numSched, _ => 0);
      currentWorkPotentialCost := seq(numSched, _ => 0);
      currentWorkReconfCost := seq(numSched, _ => 0);
      result := seq(numSched, _ => 0);
      currentMin := -1;
      leaves := [];
    }

    method CalculateTotal()
      requires Valid() && Recorded(leaves, currentMin, result, numIslands, TheCosts())
      modifies this`currentMin, this`result, this`leaves
      ensures Valid() && Recorded(leaves, currentMin, result, numIslands, TheCosts())
      ensures leaves == old(leaves) + [wgsPerIslands]
      ensures result == old(result) || result == wgsPerIslands
    {
      hide Recorded;
      var max := 0;
      var i := 0;
      while i < numIslands
        invariant 0 <= i <= numIslands && max >= 0
        invariant forall j :: 0 <= j < i && wgsPerIslands[j] > 0 ==> IslandCost(wgsPerIslands, TheCosts(), j) <= max
        invariant max == 0 ||
                  exists j :: 0 <= j < i && wgsPerIslands[j] > 0 && IslandCost(wgsPerIslands, TheCosts(), j) == max
      {
        if wgsPerIslands[i] > 0 {
          var wgsCost := wgsPerIslands[i] * currentWorkPotentialCost[i] + workInProgressCost[i] +
            currentWorkReconfCost[i];
          assert wgsCost == IslandCost(wgsPerIslands, TheCosts(), i);
          if wgsCost > max {
            max := wgsCost;
          }
        }
        i := i + 1;
      }
      RecordLeaf(leaves, currentMin, result, wgsPerIslands, max, TheCosts());
      if max < currentMin || currentMin < 0 {
        currentMin := max;
        result := wgsPerIslands;
      }
      leaves := leaves + [wgsPerIslands];
    }

    /** From island startIndex on, tries every way of placing numItems work-groups. The vector is
        shared by all the branches: what a branch leaves in it from startIndex on is arbitrary. */
    method RecursiveFunction(numItems: nat, startIndex: nat)
      requires Valid() && startIndex <= numIslands
      requires Recorded(leaves, currentMin, result, numIslands, TheCosts())
      modifies this`wgsPerIslands, this`currentMin, this`result, this`leaves
      ensures Valid() && Recorded(leaves, currentMin, result, numIslands, TheCosts())
      ensures leaves == old(leaves) + Leaves(numItems, startIndex, old(wgsPerIslands))
      ensures wgsPerIslands[..startIndex] == old(wgsPerIslands)[..startIndex]
      ensures SameMarks(wgsPerIslands, old(wgsPerIslands), startIndex)
      ensures leaves == old(leaves) ==> result == old(result)
      decreases numIslands - startIndex
    {
      hide Recorded;
      if startIndex == numIslands {
        if numItems == 0 {
          CalculateTotal();
        }
        return;
      }
      if wgsPerIslands[startIndex] == UNSUITABLE_ISLAND {
        ghost var was := wgsPerIslands;
        RecursiveFunction(numItems, startIndex + 1);
        assert wgsPerIslands[startIndex] == wgsPerIslands[..startIndex + 1][startIndex] ==
          was[..startIndex + 1][startIndex];
        assert wgsPerIslands[..startIndex] == wgsPerIslands[..startIndex + 1][..startIndex] == was[..startIndex];
        return;
      }
      ghost var entry, seen := wgsPerIslands, leaves;
      var counter := 0;
      while counter < numItems + 1
        invariant 0 <= counter <= numItems + 1
        invariant Valid() && Recorded(leaves, currentMin, result, numIslands, TheCosts())
        invariant wgsPerIslands[..startIndex] == entry[..startIndex]
        invariant SameMarks(wgsPerIslands, entry, startIndex)
        invariant leaves + LeavesFrom(numItems, counter, startIndex, wgsPerIslands) ==
                  seen + LeavesFrom(numItems, 0, startIndex, entry)
        invariant |leaves| >= |seen| && (leaves == seen ==> result == old(result))
      {
        ghost var before, done := wgsPerIslands, leaves;
        wgsPerIslands := wgsPerIslands[startIndex := numItems - counter];
        ghost var branch := wgsPerIslands;
        RecursiveFunction(counter, startIndex + 1);
        BranchDone(numItems, counter, startIndex, before, branch, wgsPerIslands);
        assert leaves + LeavesFrom(numItems, counter + 1, startIndex, wgsPerIslands) ==
               done + LeavesFrom(numItems, counter, startIndex, before);
        counter := counter + 1;
      }
    }

    /** Marks the unsuitable islands and reads the costs of the others; nothing is placed yet. */
    method Prepare(suitable: seq<bool>, remaining: seq<nat>, reconf: seq<nat>, perWorkGroup: seq<nat>)
      requires Valid()
      requires |suitable| == |remaining| == |reconf| == |perWorkGroup| == numIslands
      modifies this
      ensures Valid() && TheCosts() == CostsAt(suitable, remaining, reconf, perWorkGroup)
      ensures wgsPerIslands == result == Marked(suitable) && currentMin == -1 && leaves == []
    {
      hide CostsAt;
      currentMin := -1;
      leaves := [];
      var i := 0;
      while i < numIslands
        invariant 0 <= i <= numIslands && Valid() && currentMin == -1 && leaves == []
        invariant forall j :: 0 <= j < i ==> wgsPerIslands[j] == result[j] == Marked(suitable)[j]
        invariant forall j :: 0 <= j < i ==>
                    currentWorkPotentialCost[j] == (if suitable[j] then perWorkGroup[j] else UNSUITABLE_ISLAND) &&
                    workInProgressCost[j] == (if suitable[j] then remaining[j] else UNSUITABLE_ISLAND) &&
                    currentWorkReconfCost[j] == if suitable[j] then reconf[j] else UNSUITABLE_ISLAND
      {
        if !suitable[i] {
          wgsPerIslands := wgsPerIslands[i := UNSUITABLE_ISLAND];
          workInProgressCost := workInProgressCost[i := UNSUITABLE_ISLAND];
          currentWorkPotentialCost := currentWorkPotentialCost[i := UNSUITABLE_ISLAND];
          currentWorkReconfCost := currentWorkReconfCost[i := UNSUITABLE_ISLAND];
          result := result[i := UNSUITABLE_ISLAND];
        } else {
          wgsPerIslands := wgsPerIslands[i := 0];
          workInProgressCost := workInProgressCost[i := remaining[i]];
          currentWorkReconfCost := currentWorkReconfCost[i := reconf[i]];
          currentWorkPotentialCost := currentWorkPotentialCost[i := perWorkGroup[i]];
          result := result[i := 0];
        }
        i := i + 1;
      }
      CostsRead(suitable, remaining, reconf, perWorkGroup);
    }

    lemma CostsRead(suitable: seq<bool>, remaining: seq<nat>, reconf: seq<nat>, perWorkGroup: seq<nat>)
      requires Valid()
      requires |suitable| == |remaining| == |reconf| == |perWorkGroup| == numIslands
      requires forall j :: 0 <= j < numIslands ==>
                 currentWorkPotentialCost[j] == (if suitable[j] then perWorkGroup[j] else UNSUITABLE_ISLAND) &&
                 workInProgressCost[j] == (if suitable[j] then remaining[j] else UNSUITABLE_ISLAND) &&
                 currentWorkReconfCost[j] == if suitable[j] then reconf[j] else UNSUITABLE_ISLAND
      ensures TheCosts() == CostsAt(suitable, remaining, reconf, perWorkGroup)
    {
    }

    /** Marks the unsuitable islands, reads the costs and searches. The parameters are what the
        resource check, the schedulers and the cost tracker answer for each island. */
    method FindDistribution(numWgs: nat, suitable: seq<bool>, remaining: seq<nat>, reconf: seq<nat>,
                            perWorkGroup: seq<nat>)
      requires Valid()
      requires |suitable| == |remaining| == |reconf| == |perWorkGroup| == numIslands
      modifies this
      ensures Valid()
      ensures TheCosts() == CostsAt(suitable, remaining, reconf, perWorkGroup)
      ensures leaves == Leaves(numWgs, 0, Marked(suitable))
      ensures numWgs > 0 && (forall i :: 0 <= i < numIslands ==> !suitable[i]) ==> result == Marked(suitable)
      ensures numWgs == 0 || (exists i :: 0 <= i < numIslands && suitable[i]) ==>
                Optimal(result, numWgs, Marked(suitable), TheCosts()) && IsMakespan(currentMin, result, TheCosts())
    {
      hide Recorded, IsMakespan, Optimal, Leaves, SameMarks;
      Prepare(suitable, remaining, reconf, perWorkGroup);
      ghost var marked := wgsPerIslands;
      NothingRecorded(result, numIslands, TheCosts());
      RecursiveFunction(numWgs, 0);
      assert leaves == Leaves(numWgs, 0, marked);
      LeavesExist(numWgs, suitable);
      if leaves != [] {
        RecordedIsBest(numWgs, marked, currentMin, result, TheCosts());
      }
    }
  }

  lemma BranchDone(n: nat, c: nat, i: nat, before: seq<int>, branch: seq<int>, after: seq<int>)
    requires i < |before| == |after| && c <= n && branch == before[i := n - c]
    requires after[..i + 1] == branch[..i + 1] && SameMarks(after, branch, i + 1)
    requires before[i] != UNSUITABLE_ISLAND
    ensures after[..i] == before[..i] && SameMarks(after, before, i)
    ensures LeavesFrom(n, c, i, before) == Leaves(c, i + 1, branch) + LeavesFrom(n, c + 1, i, after)
  {
    assert after[..i] == after[..i + 1][..i] == branch[..i + 1][..i] == before[..i];
    assert after[i] == after[..i + 1][i] == branch[..i + 1][i] == n - c;
    LeavesFromOnlyLookAhead(n, c + 1, i, before, after);
  }

  /** The vector as the first loop of route_ndrange leaves it. */
  ghost function Marked(suitable: seq<bool>): (v: seq<int>)
    ensures |v| == |suitable|
    ensures forall i :: 0 <= i < |v| ==> v[i] == if suitable[i] then 0 else UNSUITABLE_ISLAND
  {
    seq(|suitable|, i requires 0 <= i < |suitable| => if suitable[i] then 0 else UNSUITABLE_ISLAND)
  }

  ghost function MarkedWith(suitable: seq<bool>, x: seq<nat>): (v: seq<int>)
    requires |x| == |suitable|
    ensures |v| == |suitable|
    ensures forall i :: 0 <= i < |v| ==> v[i] == if suitable[i] then x[i] else UNSUITABLE_ISLAND
  {
    seq(|suitable|, i requires 0 <= i < |suitable| => if suitable[i] then x[i] else UNSUITABLE_ISLAND)
  }

  /** The costs the search works with: those asked for suitable islands, marks for all others. */
  ghost function CostsAt(suitable: seq<bool>, remaining: seq<nat>, reconf: seq<nat>, perWorkGroup: seq<nat>): Costs
    requires |suitable| == |remaining| == |reconf| == |perWorkGroup|
  {
    Costs(MarkedWith(suitable, perWorkGroup), MarkedWith(suitable, remaining), MarkedWith(suitable, reconf))
  }

  lemma LeavesExist(n: nat, suitable: seq<bool>)
    ensures Leaves(n, 0, Marked(suitable)) != [] <==> n == 0 || exists i :: 0 <= i < |suitable| && suitable[i]
  {
    var v := Marked(suitable);
    LeavesCount(n, 0, v);
    SuitableExists(v, 0);
    if SuitableFrom(v, 0) > 0 {
      EnumeratesExactlyOnce(n, v);
    }
    assert forall i :: 0 <= i < |v| ==> (suitable[i] <==> v[i] != UNSUITABLE_ISLAND);
  }

  lemma {:induction false} SuitableExists(v: seq<int>, i: nat)
    requires i <= |v|
    ensures SuitableFrom(v, i) > 0 <==> exists j :: i <= j < |v| && v[j] != UNSUITABLE_ISLAND
    decreases |v| - i
  {
    if i < |v| {
      SuitableExists(v, i + 1);
    }
  }
}
