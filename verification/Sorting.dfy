/** The in-place sort of the XPath engine: three-way partition around a median of three, recursion on
    the smaller side only, insertion sort for 16 elements or fewer
    (aux-src/pugixml/pugixml.cc:7380-7466). Ranges are [lo, hi) of an array. */
module Sorting {

  // ---------- Orders ----------

  /** pred decides between any two distinct elements, transitively. */
  ghost predicate OrdersDistinct<T>(pred: (T, T) -> bool, m: multiset<T>) {
    (forall x, y :: x in m && y in m && x != y ==> pred(x, y) == !pred(y, x)) &&
    forall x, y, z :: x in m && y in m && z in m && x != y && y != z && x != z && pred(x, y) && pred(y, z) ==>
      pred(x, z)
  }

  ghost predicate Irreflexive<T>(pred: (T, T) -> bool, m: multiset<T>) {
    forall x :: x in m ==> !pred(x, x)
  }

  ghost predicate NoDuplicates<T>(m: multiset<T>) {
    forall x :: x in m ==> m[x] == 1
  }

  /** What the sort needs of its input: an order of the different elements, and that none occurs twice
      that the comparator calls less than itself. */
  ghost predicate Sortable<T>(pred: (T, T) -> bool, m: multiset<T>) {
    OrdersDistinct(pred, m) && forall x :: x in m && pred(x, x) ==> m[x] == 1
  }

  ghost predicate Leq<T>(pred: (T, T) -> bool, x: T, y: T) {
    x == y || pred(x, y)
  }

  ghost predicate Sorted<T>(pred: (T, T) -> bool, s: seq<T>, lo: nat, hi: nat)
    requires hi <= |s|
  {
    forall i, j :: lo <= i < j < hi ==> Leq(pred, s[i], s[j])
  }

  // ---------- Rearrangements ----------

  /** t is s with the elements at [lo, hi) in another order. */
  ghost predicate Rearranged<T>(s: seq<T>, t: seq<T>, lo: nat, hi: nat) {
    lo <= hi <= |s| == |t| && s[..lo] == t[..lo] && s[hi..] == t[hi..] && multiset(s[lo..hi]) == multiset(t[lo..hi])
  }

  lemma RearrangedTransitive<T>(s: seq<T>, t: seq<T>, u: seq<T>, lo: nat, hi: nat)
    requires Rearranged(s, t, lo, hi) && Rearranged(t, u, lo, hi)
    ensures Rearranged(s, u, lo, hi)
  {
  }

  lemma RearrangedWider<T>(s: seq<T>, t: seq<T>, b: nat, e: nat, lo: nat, hi: nat)
    requires Rearranged(s, t, b, e) && lo <= b && e <= hi <= |s|
    ensures Rearranged(s, t, lo, hi)
  {
    assert s[..lo] == s[..b][..lo] && t[..lo] == t[..b][..lo];
    assert s[hi..] == s[e..][hi - e..] && t[hi..] == t[e..][hi - e..];
    Parts(s, b, e, lo, hi);
    Parts(t, b, e, lo, hi);
    assert s[lo..b] == s[..b][lo..] && t[lo..b] == t[..b][lo..];
    assert s[e..hi] == s[e..][..hi - e] && t[e..hi] == t[e..][..hi - e];
  }

  lemma Parts<T>(s: seq<T>, b: nat, e: nat, lo: nat, hi: nat)
    requires lo <= b <= e <= hi <= |s|
    ensures multiset(s[lo..hi]) == multiset(s[lo..b]) + multiset(s[b..e]) + multiset(s[e..hi])
  {
    assert s[lo..hi] == s[lo..b] + s[b..e] + s[e..hi];
  }

  ghost function Exchange<T>(s: seq<T>, i: nat, j: nat): (t: seq<T>)
    requires i < |s| && j < |s|
    ensures |t| == |s|
  {
    s[i := s[j]][j := s[i]]
  }

  lemma ExchangeAll<T>(s: seq<T>, i: nat, j: nat)
    requires i < |s| && j < |s|
    ensures multiset(Exchange(s, i, j)) == multiset(s)
  {
  }

  lemma ExchangeWithin<T>(s: seq<T>, i: nat, j: nat, lo: nat, hi: nat)
    requires lo <= i < hi && lo <= j < hi <= |s|
    ensures var t := Exchange(s, i, j);
      t[..lo] == s[..lo] && t[hi..] == s[hi..] && t[lo..hi] == Exchange(s[lo..hi], i - lo, j - lo)
  {
  }

  lemma Swapped<T>(s: seq<T>, i: nat, j: nat, lo: nat, hi: nat)
    requires lo <= i < hi && lo <= j < hi <= |s|
    ensures Rearranged(s, Exchange(s, i, j), lo, hi)
  {
    hide Exchange;
    ExchangeWithin(s, i, j, lo, hi);
    ExchangeAll(s[lo..hi], i - lo, j - lo);
  }

  /** A property of all elements of the range survives its rearrangement. */
  lemma RearrangedKeeps<T>(s: seq<T>, t: seq<T>, lo: nat, hi: nat, j: nat) returns (i: nat)
    requires Rearranged(s, t, lo, hi) && lo <= j < hi
    ensures lo <= i < hi && s[i] == t[j]
  {
    assert t[j] == t[lo..hi][j - lo];
    assert t[j] in multiset(t[lo..hi]);
    assert t[j] in s[lo..hi];
    var k :| 0 <= k < hi - lo && s[lo..hi][k] == t[j];
    i := lo + k;
  }

  lemma RearrangedOutside<T>(s: seq<T>, t: seq<T>, lo: nat, hi: nat)
    requires Rearranged(s, t, lo, hi)
    ensures |s| == |t| && forall i :: 0 <= i < |s| && !(lo <= i < hi) ==> s[i] == t[i]
  {
    forall i | 0 <= i < |s| && !(lo <= i < hi)
      ensures s[i] == t[i]
    {
      if i < lo {
        assert s[i] == s[..lo][i] == t[..lo][i];
      } else {
        assert s[i] == s[hi..][i - hi] == t[hi..][i - hi];
      }
    }
  }

  lemma SortableRange<T>(pred: (T, T) -> bool, s: seq<T>, lo: nat, hi: nat, b: nat, e: nat)
    requires lo <= b <= e <= hi <= |s| && Sortable(pred, multiset(s[lo..hi]))
    ensures Sortable(pred, multiset(s[b..e]))
  {
    Parts(s, b, e, lo, hi);
    assert multiset(s[b..e]) <= multiset(s[lo..hi]);
    assert forall x :: x in multiset(s[b..e]) ==> multiset(s[b..e])[x] <= multiset(s[lo..hi])[x];
  }

  lemma SortableSame<T>(pred: (T, T) -> bool, s: seq<T>, t: seq<T>, lo: nat, hi: nat)
    requires Rearranged(s, t, lo, hi) && Sortable(pred, multiset(s[lo..hi]))
    ensures Sortable(pred, multiset(t[lo..hi]))
  {
  }

  lemma OrderDecides<T>(pred: (T, T) -> bool, m: multiset<T>, x: T, y: T)
    requires OrdersDistinct(pred, m) && x in m && y in m
    ensures Leq(pred, x, y) || pred(y, x)
  {
  }

  lemma LeqTransitive<T>(pred: (T, T) -> bool, m: multiset<T>, x: T, y: T, z: T)
    requires OrdersDistinct(pred, m) && x in m && y in m && z in m
    requires Leq(pred, x, y) && Leq(pred, y, z)
    ensures Leq(pred, x, z)
  {
  }

  // ---------- Insertion sort ----------

  /** The range [lo, it] is sorted but for the hole; val belongs before everything after the hole. */
  ghost predicate HoleAt<T>(pred: (T, T) -> bool, s: seq<T>, lo: nat, hole: nat, it: nat, val: T) {
    lo <= hole <= it < |s| &&
    (forall i, j :: lo <= i < j <= it && i != hole && j != hole ==> Leq(pred, s[i], s[j])) &&
    forall j :: hole < j <= it ==> pred(val, s[j])
  }

  lemma HoleMoves<T>(pred: (T, T) -> bool, s: seq<T>, lo: nat, hole: nat, it: nat, val: T)
    requires HoleAt(pred, s, lo, hole, it, val) && hole > lo && pred(val, s[hole - 1])
    ensures HoleAt(pred, Shifted(s, hole), lo, hole - 1, it, val)
  {
  }

  lemma FromPred<T>(pred: (T, T) -> bool, x: T, y: T)
    requires pred(x, y)
    ensures Leq(pred, x, y)
  {
  }

  /** What stands in front of the hole comes before val, as the last of it does. */
  lemma FrontBelow<T>(pred: (T, T) -> bool, m: multiset<T>, s: seq<T>, lo: nat, hole: nat, val: T, i: nat)
    requires OrdersDistinct(pred, m) && lo <= i < hole <= |s|
    requires s[i] in m && s[hole - 1] in m && val in m
    requires i < hole - 1 ==> Leq(pred, s[i], s[hole - 1])
    requires !pred(val, s[hole - 1])
    ensures Leq(pred, s[i], val)
  {
    hide OrdersDistinct;
    OrderDecides(pred, m, s[hole - 1], val);
    if i < hole - 1 {
      LeqTransitive(pred, m, s[i], s[hole - 1], val);
    }
  }

  lemma HoleFilled<T>(pred: (T, T) -> bool, s: seq<T>, lo: nat, hole: nat, it: nat, hi: nat, val: T)
    requires HoleAt(pred, s, lo, hole, it, val) && it < hi <= |s|
    requires hole == lo || !pred(val, s[hole - 1])
    requires OrdersDistinct(pred, multiset(Filled(s, hole, val)[lo..hi]))
    ensures Sorted(pred, Filled(s, hole, val), lo, it + 1)
  {
    hide OrdersDistinct, Leq;
    var t := s[hole := val];
    var m := multiset(t[lo..hi]);
    forall i | lo <= i < hi
      ensures t[i] in m
    {
      assert t[i] == t[lo..hi][i - lo];
    }
    forall i | lo <= i < hole
      ensures Leq(pred, s[i], val)
    {
      assert t[hole - 1] in m && t[hole] in m && t[i] in m;
      FrontBelow(pred, m, s, lo, hole, val, i);
    }
    forall j | hole < j <= it
      ensures Leq(pred, val, s[j])
    {
      FromPred(pred, val, s[j]);
    }
  }

  ghost function Shifted<T>(s: seq<T>, hole: nat): (t: seq<T>)
    requires 0 < hole < |s|
    ensures |t| == |s|
  {
    s[hole := s[hole - 1]]
  }

  ghost function Filled<T>(s: seq<T>, hole: nat, val: T): (t: seq<T>)
    requires hole < |s|
    ensures |t| == |s|
  {
    s[hole := val]
  }

  lemma ExchangeIsShift<T>(s: seq<T>, hole: nat, val: T)
    requires 0 < hole < |s|
    ensures Exchange(Filled(s, hole, val), hole - 1, hole) == Filled(Shifted(s, hole), hole - 1, val)
  {
  }

  lemma HoleSwap<T>(before: seq<T>, s: seq<T>, lo: nat, hole: nat, hi: nat, val: T)
    requires lo < hole < hi <= |s| && Rearranged(before, Filled(s, hole, val), lo, hi)
    ensures Rearranged(before, Filled(Shifted(s, hole), hole - 1, val), lo, hi)
  {
    hide Rearranged, Exchange, Filled, Shifted;
    var t := Filled(s, hole, val);
    ExchangeIsShift(s, hole, val);
    Swapped(t, hole - 1, hole, lo, hi);
    RearrangedTransitive(before, t, Exchange(t, hole - 1, hole), lo, hi);
  }

  method MoveUp<T>(a: array<T>, hole: nat)
    requires 0 < hole < a.Length
    modifies a
    ensures a[..] == Shifted(old(a[..]), hole)
  {
    a[hole] := a[hole - 1];
  }

  method Fill<T>(a: array<T>, hole: nat, val: T)
    requires hole < a.Length
    modifies a
    ensures a[..] == Filled(old(a[..]), hole, val)
  {
    a[hole] := val;
  }

  method InsertionSort<T(==)>(a: array<T>, lo: nat, hi: nat, pred: (T, T) -> bool)
    requires lo <= hi <= a.Length && OrdersDistinct(pred, multiset(a[lo..hi]))
    modifies a
    ensures Rearranged(old(a[..]), a[..], lo, hi)
    ensures Sorted(pred, a[..], lo, hi)
  {
    hide Rearranged, OrdersDistinct, HoleAt, Sorted, Leq, Shifted, Filled;
    SortedOne(pred, a[..], lo);
    ghost var was := a[..];
    RearrangedItself(was, lo, hi);
    if lo == hi {
      return;
    }
    var it := lo + 1;
    while it != hi
      invariant lo < it <= hi
      invariant Rearranged(was, a[..], lo, hi) && Sorted(pred, a[..], lo, it)
    {
      var val := a[it];
      var hole := it;
      HoleOpens(pred, a[..], lo, it);
      while hole > lo && pred(val, a[hole - 1])
        invariant lo <= hole <= it
        invariant Rearranged(was, Filled(a[..], hole, val), lo, hi) && HoleAt(pred, a[..], lo, hole, it, val)
      {
        HoleMoves(pred, a[..], lo, hole, it, val);
        HoleSwap(was, a[..], lo, hole, hi, val);
        MoveUp(a, hole);
        hole := hole - 1;
      }
      OrdersSame(pred, was, Filled(a[..], hole, val), lo, hi);
      HoleFilled(pred, a[..], lo, hole, it, hi, val);
      Fill(a, hole, val);
      it := it + 1;
    }
  }

  lemma RearrangedItself<T>(s: seq<T>, lo: nat, hi: nat)
    requires lo <= hi <= |s|
    ensures Rearranged(s, s, lo, hi)
  {
  }

  lemma SortedOne<T>(pred: (T, T) -> bool, s: seq<T>, lo: nat)
    ensures lo <= |s| ==> Sorted(pred, s, lo, lo)
    ensures lo < |s| ==> Sorted(pred, s, lo, lo + 1)
  {
  }

  lemma HoleOpens<T>(pred: (T, T) -> bool, s: seq<T>, lo: nat, it: nat)
    requires lo <= it < |s| && Sorted(pred, s, lo, it)
    ensures HoleAt(pred, s, lo, it, it, s[it]) && Filled(s, it, s[it]) == s
  {
  }

  lemma OrdersSame<T>(pred: (T, T) -> bool, s: seq<T>, t: seq<T>, lo: nat, hi: nat)
    requires Rearranged(s, t, lo, hi) && lo <= hi <= |s| && OrdersDistinct(pred, multiset(s[lo..hi]))
    ensures |t| == |s| && OrdersDistinct(pred, multiset(t[lo..hi]))
  {
  }

  // ---------- Three-way partition ----------

  method Swap<T>(a: array<T>, i: nat, j: nat)
    requires i < a.Length && j < a.Length
    modifies a
    ensures a[..] == Exchange(old(a[..]), i, j)
  {
    var temp := a[i];
    a[i] := a[j];
    a[j] := temp;
  }

  ghost predicate Less<T>(pred: (T, T) -> bool, x: T, pivot: T) {
    pred(x, pivot)
  }

  ghost predicate Equal<T>(pred: (T, T) -> bool, x: T, pivot: T) {
    !pred(x, pivot) && x == pivot
  }

  ghost predicate Greater<T>(pred: (T, T) -> bool, x: T, pivot: T) {
    !pred(x, pivot) && x != pivot
  }

  /** The first loop's four groups: = < ? > with boundaries eq, lt and gt. */
  ghost predicate FourGroups<T>(pred: (T, T) -> bool, s: seq<T>, pivot: T, lo: nat, eq: nat, lt: nat, gt: nat,
                                hi: nat) {
    lo <= eq <= lt <= gt <= hi <= |s| &&
    (forall i :: lo <= i < eq ==> Equal(pred, s[i], pivot)) &&
    (forall i :: eq <= i < lt ==> Less(pred, s[i], pivot)) &&
    forall i :: gt <= i < hi ==> Greater(pred, s[i], pivot)
  }

  lemma GroupsGrow<T>(pred: (T, T) -> bool, s: seq<T>, pivot: T, lo: nat, eq: nat, lt: nat, gt: nat, hi: nat)
    requires FourGroups(pred, s, pivot, lo, eq, lt, gt, hi) && lt < gt
    ensures pred(s[lt], pivot) ==> FourGroups(pred, s, pivot, lo, eq, lt + 1, gt, hi)
    ensures !pred(s[lt], pivot) && s[lt] == pivot ==> FourGroups(pred, Exchange(s, eq, lt), pivot, lo, eq + 1, lt + 1,
            gt, hi)
    ensures !pred(s[lt], pivot) && s[lt] != pivot ==> FourGroups(pred, Exchange(s, lt, gt - 1), pivot, lo, eq, lt,
            gt - 1, hi)
  {
  }

  /** The swap-back loop after k swaps, with e elements equal to the pivot and l below it: the
      ordered picture before the two cursors meet, and the final one from then on. */
  ghost predicate SwappedBack<T>(pred: (T, T) -> bool, s: seq<T>, pivot: T, lo: nat, e: nat, l: nat, k: nat, hi: nat) {
    k <= e && lo + e + l <= hi <= |s| && (forall i :: lo + e + l <= i < hi ==> Greater(pred, s[i], pivot)) &&
    if k <= l then
      (forall i :: lo <= i < lo + k ==> Less(pred, s[i], pivot)) &&
      (forall i :: lo + k <= i < lo + e ==> Equal(pred, s[i], pivot)) &&
      (forall i :: lo + e <= i < lo + e + l - k ==> Less(pred, s[i], pivot)) &&
      (forall i :: lo + e + l - k <= i < lo + e + l ==> Equal(pred, s[i], pivot))
    else
      (forall i :: lo <= i < lo + l ==> Less(pred, s[i], pivot)) &&
      forall i :: lo + l <= i < lo + e + l ==> Equal(pred, s[i], pivot)
  }

  lemma SwapBackStep<T>(pred: (T, T) -> bool, s: seq<T>, pivot: T, lo: nat, e: nat, l: nat, k: nat, hi: nat)
    requires SwappedBack(pred, s, pivot, lo, e, l, k, hi) && k < e
    ensures var i, j := lo + k, lo + e + l - k - 1;
            SwappedBack(pred, Exchange(s, i, j), pivot, lo, e, l, k + 1, hi)
  {
  }

  /** The finished partition. */
  ghost predicate Split<T>(pred: (T, T) -> bool, s: seq<T>, pivot: T, lo: nat, eqbeg: nat, eqend: nat, hi: nat) {
    lo <= eqbeg <= eqend <= hi <= |s| &&
    (forall i :: lo <= i < eqbeg ==> Less(pred, s[i], pivot)) &&
    (forall i :: eqbeg <= i < eqend ==> Equal(pred, s[i], pivot)) &&
    forall i :: eqend <= i < hi ==> Greater(pred, s[i], pivot)
  }

  lemma SplitDone<T>(pred: (T, T) -> bool, s: seq<T>, pivot: T, lo: nat, e: nat, l: nat, hi: nat)
    requires SwappedBack(pred, s, pivot, lo, e, l, e, hi)
    ensures Split(pred, s, pivot, lo, lo + l, lo + e + l, hi)
  {
  }

  /** For any comparator whatever: the range is rearranged into elements that the comparator puts
      below the pivot, elements equal to it, and the rest. */
  method Partition3<T(==)>(a: array<T>, lo: nat, hi: nat, pivot: T, pred: (T, T) -> bool)
      returns (eqbeg: nat, eqend: nat)
    requires lo <= hi <= a.Length
    modifies a
    ensures Rearranged(old(a[..]), a[..], lo, hi)
    ensures Split(pred, a[..], pivot, lo, eqbeg, eqend, hi)
  {
    hide Rearranged, FourGroups, SwappedBack, Split, Less, Equal, Greater, Exchange;
    ghost var was := a[..];
    RearrangedItself(was, lo, hi);
    var eq, lt, gt := lo, lo, hi;
    GroupsStart(pred, a[..], pivot, lo, hi);
    while lt < gt
      invariant lo <= eq <= lt <= gt <= hi
      invariant Rearranged(was, a[..], lo, hi) && FourGroups(pred, a[..], pivot, lo, eq, lt, gt, hi)
    {
      GroupsGrow(pred, a[..], pivot, lo, eq, lt, gt, hi);
      if pred(a[lt], pivot) {
        lt := lt + 1;
      } else if a[lt] == pivot {
        SwapIn(was, a[..], eq, lt, lo, hi);
        Swap(a, eq, lt);
        eq, lt := eq + 1, lt + 1;
      } else {
        gt := gt - 1;
        SwapIn(was, a[..], lt, gt, lo, hi);
        Swap(a, lt, gt);
      }
    }
    eqbeg := SwapBack(a, lo, eq, gt, hi, pivot, pred, was);
    eqend := gt;
  }

  /** Moves the equal elements from the front to the middle; when there are more of them than
      elements below the pivot, the two cursors cross and go on. */
  method SwapBack<T(==)>(a: array<T>, lo: nat, eq: nat, gt: nat, hi: nat, ghost pivot: T, ghost pred: (T, T) -> bool,
                    ghost was: seq<T>)
    returns (eqbeg: nat)
    requires lo <= eq <= gt <= hi <= a.Length
    requires Rearranged(was, a[..], lo, hi) && FourGroups(pred, a[..], pivot, lo, eq, gt, gt, hi)
    modifies a
    ensures Rearranged(was, a[..], lo, hi) && Split(pred, a[..], pivot, lo, eqbeg, gt, hi)
  {
    hide Rearranged, FourGroups, SwappedBack, Split, Less, Equal, Greater, Exchange;
    ghost var e, l := eq - lo, gt - eq;
    SwapBackStart(pred, a[..], pivot, lo, eq, gt, hi);
    eqbeg := gt;
    var it := lo;
    while it != eq
      invariant lo <= it <= eq && eqbeg == gt - (it - lo)
      invariant Rearranged(was, a[..], lo, hi) && SwappedBack(pred, a[..], pivot, lo, e, l, it - lo, hi)
    {
      eqbeg := eqbeg - 1;
      SwapBackStep(pred, a[..], pivot, lo, e, l, it - lo, hi);
      SwapIn(was, a[..], it, eqbeg, lo, hi);
      Swap(a, it, eqbeg);
      it := it + 1;
    }
    SplitDone(pred, a[..], pivot, lo, e, l, hi);
  }

  lemma GroupsStart<T>(pred: (T, T) -> bool, s: seq<T>, pivot: T, lo: nat, hi: nat)
    requires lo <= hi <= |s|
    ensures FourGroups(pred, s, pivot, lo, lo, lo, hi, hi)
  {
  }

  lemma SwapBackStart<T>(pred: (T, T) -> bool, s: seq<T>, pivot: T, lo: nat, eq: nat, gt: nat, hi: nat)
    requires FourGroups(pred, s, pivot, lo, eq, gt, gt, hi)
    ensures lo <= eq <= gt <= hi <= |s| && SwappedBack(pred, s, pivot, lo, eq - lo, gt - eq, 0, hi)
  {
  }

  lemma SwapIn<T>(was: seq<T>, s: seq<T>, i: nat, j: nat, lo: nat, hi: nat)
    requires Rearranged(was, s, lo, hi) && lo <= i < hi && lo <= j < hi <= |s|
    ensures Rearranged(was, Exchange(s, i, j), lo, hi)
  {
    Swapped(s, i, j, lo, hi);
    RearrangedTransitive(was, s, Exchange(s, i, j), lo, hi);
  }

  // ---------- The sort ----------

  /** Which of the three positions holds the median: of the other two, one element is at or below it
      and one at or above. The source swaps its local copies of the iterators, not the elements. */
  method Median3<T(==)>(a: array<T>, first: nat, middle: nat, last: nat, pred: (T, T) -> bool)
    returns (m: nat, ghost below: nat, ghost above: nat)
    requires first < middle < last < a.Length && Sortable(pred, multiset(a[first..last + 1]))
    ensures {below, m, above} == {first, middle, last}
    ensures Leq(pred, a[below], a[m]) && Leq(pred, a[m], a[above])
    ensures exists k :: first <= k <= last && !pred(a[k], a[m])
  {
    hide Sortable;
    ghost var s := a[..];
    assert s[first..last + 1] == a[first..last + 1];
    var f, mid, l := first, middle, last;
    if pred(a[mid], a[f]) { mid, f := f, mid; }
    if pred(a[l], a[mid]) { l, mid := mid, l; }
    if pred(a[mid], a[f]) { mid, f := f, mid; }
    m, below, above := mid, f, l;
    ThreeInOrder(pred, s, first, middle, last);
    MedianIsNotTop(pred, s, first, middle, last, f, m, l);
  }

  /** The order between the three elements is total and transitive. */
  lemma ThreeInOrder<T>(pred: (T, T) -> bool, s: seq<T>, first: nat, middle: nat, last: nat)
    requires first < middle < last < |s| && Sortable(pred, multiset(s[first..last + 1]))
    ensures forall x, y :: x in {first, middle, last} && y in {first, middle, last} ==>
            Leq(pred, s[x], s[y]) ||
            pred(s[y], s[x])
    ensures forall x, y, z :: x in {first, middle, last} && y in {first, middle, last} && z in {first, middle, last} ==>
                                (Leq(pred, s[x], s[y]) && Leq(pred, s[y], s[z]) ==> Leq(pred, s[x], s[z]))
    ensures forall x, y :: x in {first, middle, last} && y in {first, middle, last} && pred(s[x], s[y]) ==>
            Leq(pred, s[x], s[y])
  {
    var m := multiset(s[first..last + 1]);
    forall x | x in {first, middle, last}
      ensures s[x] in m
    {
      assert s[first..last + 1][x - first] == s[x];
    }
  }

  lemma MedianIsNotTop<T>(pred: (T, T) -> bool, s: seq<T>, first: nat, middle: nat, last: nat, f: nat, m: nat, l: nat)
    requires first < middle < last < |s| && Sortable(pred, multiset(s[first..last + 1]))
    requires {f, m, l} == {first, middle, last} && Leq(pred, s[m], s[l])
    ensures exists k :: first <= k <= last && !pred(s[k], s[m])
  {
    var r := s[first..last + 1];
    var ms := multiset(r);
    assert r[m - first] == s[m] && r[l - first] == s[l];
    assert s[m] in ms && s[l] in ms;
    PresentTwice(r, if l < m then l - first else m - first, if l < m then m - first else l - first);
    assert pred(s[m], s[m]) ==> s[m] != s[l];
  }

  lemma PresentTwice<T>(r: seq<T>, i: nat, j: nat)
    requires i < j < |r|
    ensures r[i] == r[j] ==> r[i] in multiset(r) && multiset(r)[r[i]] >= 2
  {
    var a, b := r[..j], r[j..];
    assert r == a + b;
    assert multiset(r)[r[i]] == multiset(a)[r[i]] + multiset(b)[r[i]];
    assert r[i] == a[i] && r[i] in multiset(a);
    assert r[j] == b[0] && r[j] in multiset(b);
  }

  /** A strict total order, or distinct elements, leaves neither side of the split with everything. */
  lemma SplitIsProper<T>(pred: (T, T) -> bool, s: seq<T>, pivot: T, lo: nat, eqbeg: nat, eqend: nat, hi: nat, i: nat,
                         k: nat)
    requires Split(pred, s, pivot, lo, eqbeg, eqend, hi)
    requires lo <= i < hi && s[i] == pivot
    requires lo <= k < hi && !pred(s[k], pivot)
    ensures eqbeg < hi && lo < eqend
  {
  }

  /** The loop on one side of a split gets shorter exactly when the comparator leaves some element
      at or above the pivot: not, for one, when it calls every copy of one element less than itself. */
  lemma SideIsShorterIff<T>(pred: (T, T) -> bool, s: seq<T>, pivot: T, lo: nat, eqbeg: nat, eqend: nat, hi: nat)
    requires Split(pred, s, pivot, lo, eqbeg, eqend, hi) && lo < hi
    ensures eqbeg < hi <==> exists k :: lo <= k < hi && !pred(s[k], pivot)
    ensures eqend > lo <==> exists k :: lo <= k < hi && (pred(s[k], pivot) || s[k] == pivot)
  {
    if eqbeg < hi {
      assert !pred(s[eqbeg], pivot);
    }
    if eqend > lo {
      assert pred(s[lo], pivot) || s[lo] == pivot;
    }
  }

  /** Sorted but for two disjoint ranges. */
  ghost predicate SortedBut<T>(pred: (T, T) -> bool, s: seq<T>, lo: nat, hi: nat, b1: nat, e1: nat, b2: nat, e2: nat) {
    hi <= |s| && forall i, j :: lo <= i < j < hi && !(b1 <= i && j < e1) && !(b2 <= i && j < e2) ==>
      Leq(pred, s[i], s[j])
  }

  /** Splitting the range left to sort leaves two. */
  lemma SplitSorts<T>(pred: (T, T) -> bool, s: seq<T>, t: seq<T>, pivot: T, lo: nat, hi: nat, b: nat, eqbeg: nat,
                      eqend: nat, e: nat)
    requires lo <= b <= e <= hi && SortedBut(pred, s, lo, hi, b, e, e, e) && Rearranged(s, t, b, e)
    requires Split(pred, t, pivot, b, eqbeg, eqend, e)
    requires OrdersDistinct(pred, multiset(t[b..e])) && pivot in multiset(t[b..e])
    ensures SortedBut(pred, t, lo, hi, b, eqbeg, eqend, e)
  {
    RearrangedSorts(pred, s, t, lo, hi, b, e, e, e);
    forall i, j | b <= i < j < e && !(j < eqbeg) && !(eqend <= i)
      ensures Leq(pred, t[i], t[j])
    {
      assert t[b..e][i - b] == t[i] && t[b..e][j - b] == t[j];
      OrderDecides(pred, multiset(t[b..e]), pivot, t[j]);
      LeqTransitive(pred, multiset(t[b..e]), t[i], pivot, t[j]);
    }
  }

  /** What was in order across the borders of a range stays so when the range is rearranged. */
  lemma RearrangedSorts<T>(pred: (T, T) -> bool, s: seq<T>, t: seq<T>, lo: nat, hi: nat, b: nat, e: nat, b2: nat,
                           e2: nat)
    requires lo <= b <= e <= hi && (e2 <= b || e <= b2 || b2 == e2)
    requires SortedBut(pred, s, lo, hi, b, e, b2, e2) && Rearranged(s, t, b, e)
    ensures SortedBut(pred, t, lo, hi, b, e, b2, e2)
  {
    RearrangedOutside(s, t, b, e);
    forall i, j | lo <= i < j < hi && !(b <= i && j < e) && !(b2 <= i && j < e2)
      ensures Leq(pred, t[i], t[j])
    {
      var i', j' := i, j;
      if b <= i < e {
        i' := RearrangedKeeps(s, t, b, e, i);
      } else if b <= j < e {
        j' := RearrangedKeeps(s, t, b, e, j);
      }
      assert s[i'] == t[i] && s[j'] == t[j];
    }
  }

  lemma RangeSorted<T>(pred: (T, T) -> bool, s: seq<T>, lo: nat, hi: nat, b: nat, e: nat, b2: nat, e2: nat)
    requires SortedBut(pred, s, lo, hi, b, e, b2, e2) && e <= |s| && Sorted(pred, s, b, e)
    ensures SortedBut(pred, s, lo, hi, b2, e2, e2, e2)
  {
  }

  function Pow2(d: nat): (p: nat)
    ensures p > 0
  {
    if d == 0 then 1 else 2 * Pow2(d - 1)
  }

  /** The binary logarithm, rounded down. */
  ghost function Log2(n: nat): (d: nat)
    ensures n < Pow2(d + 1) && (n > 0 ==> Pow2(d) <= n)
  {
    if n < 2 then 0 else 1 + Log2(n / 2)
  }

  /** Sorts [lo, hi). The recursion is on the smaller side of each split only: the budget is spent
      by one with every nested call, so that a budget of the binary logarithm of the length bounds
      the depth of the recursion by it. */
  method Sort<T(==)>(a: array<T>, lo: nat, hi: nat, pred: (T, T) -> bool, ghost budget: nat)
    requires lo <= hi <= a.Length && Sortable(pred, multiset(a[lo..hi]))
    requires hi - lo < Pow2(budget + 1)
    modifies a
    ensures Rearranged(old(a[..]), a[..], lo, hi)
    ensures Sorted(pred, a[..], lo, hi)
    decreases budget
  {
    hide Rearranged, Sortable, SortedBut, Sorted, OrdersDistinct, Split, Pow2;
    ghost var was := a[..];
    RearrangedItself(was, lo, hi);
    NothingSorted(pred, was, lo, hi);
    var begin, end := lo, hi;
    while end - begin > 16
      invariant lo <= begin <= end <= hi
      invariant Rearranged(was, a[..], lo, hi) && SortedBut(pred, a[..], lo, hi, begin, end, end, end)
      decreases end - begin
    {
      SortablePart(pred, was, a[..], lo, hi, begin, end);
      var middle := begin + (end - begin) / 2;
      var median, below, above := Median3(a, begin, middle, end - 1, pred);
      ghost var s := a[..];
      var eqbeg, eqend := Partition3(a, begin, end, a[median], pred);
      ghost var t := a[..];
      SplitProgress(pred, was, s, t, lo, hi, begin, end, median, eqbeg, eqend);
      SpendBudget(budget, hi - lo, if eqbeg - begin > end - eqend then end - eqend else eqbeg - begin);
      if eqbeg - begin > end - eqend {
        Sort(a, eqend, end, pred, budget - 1);
        SideSorted(pred, was, t, a[..], lo, hi, eqend, end, begin, eqbeg);
        end := eqbeg;
      } else {
        Sort(a, begin, eqbeg, pred, budget - 1);
        SideSorted(pred, was, t, a[..], lo, hi, begin, eqbeg, eqend, end);
        begin := eqend;
      }
    }
    SortablePart(pred, was, a[..], lo, hi, begin, end);
    ghost var s := a[..];
    InsertionSort(a, begin, end, pred);
    SideSorted(pred, was, s, a[..], lo, hi, begin, end, end, end);
    AllSorted(pred, a[..], lo, hi, end);
  }

  /** The smaller side is at most half of the range. */
  lemma SpendBudget(budget: nat, n: nat, side: nat)
    requires 2 <= n < Pow2(budget + 1) && 2 * side <= n
    ensures budget > 0 && side < Pow2(budget)
  {
    assert Pow2(0) == 1;
    assert Pow2(budget + 1) == 2 * Pow2(budget);
  }

  lemma NothingSorted<T>(pred: (T, T) -> bool, s: seq<T>, lo: nat, hi: nat)
    requires hi <= |s|
    ensures SortedBut(pred, s, lo, hi, lo, hi, hi, hi)
  {
  }

  lemma AllSorted<T>(pred: (T, T) -> bool, s: seq<T>, lo: nat, hi: nat, e: nat)
    requires SortedBut(pred, s, lo, hi, e, e, e, e)
    ensures hi <= |s| && Sorted(pred, s, lo, hi)
  {
  }

  lemma SortablePart<T>(pred: (T, T) -> bool, was: seq<T>, s: seq<T>, lo: nat, hi: nat, b: nat, e: nat)
    requires lo <= b <= e <= hi && Rearranged(was, s, lo, hi) && hi <= |was| && Sortable(pred, multiset(was[lo..hi]))
    ensures hi <= |s| && Sortable(pred, multiset(s[b..e])) && OrdersDistinct(pred, multiset(s[b..e]))
  {
    SortableSame(pred, was, s, lo, hi);
    SortableRange(pred, s, lo, hi, b, e);
  }

  /** One side of a split, once sorted, leaves the other. */
  lemma SideSorted<T>(pred: (T, T) -> bool, was: seq<T>, s: seq<T>, t: seq<T>, lo: nat, hi: nat, b: nat, e: nat,
                      b2: nat, e2: nat)
    requires lo <= b <= e <= hi && (e2 <= b || e <= b2 || b2 == e2)
    requires Rearranged(was, s, lo, hi) && Rearranged(s, t, b, e) && hi <= |s|
    requires SortedBut(pred, s, lo, hi, b, e, b2, e2) || SortedBut(pred, s, lo, hi, b2, e2, b, e)
    requires e <= |t| && Sorted(pred, t, b, e)
    ensures Rearranged(was, t, lo, hi) && SortedBut(pred, t, lo, hi, b2, e2, e2, e2)
  {
    hide Rearranged, Sorted;
    RearrangedWider(s, t, b, e, lo, hi);
    RearrangedTransitive(was, s, t, lo, hi);
    RearrangedSorts(pred, s, t, lo, hi, b, e, b2, e2);
    RangeSorted(pred, t, lo, hi, b, e, b2, e2);
  }

  lemma SplitProgress<T>(pred: (T, T) -> bool, was: seq<T>, s: seq<T>, t: seq<T>, lo: nat, hi: nat,
                         b: nat, e: nat, median: nat, eqbeg: nat, eqend: nat)
    requires lo <= b < e <= hi && Rearranged(was, s, lo, hi) && Rearranged(s, t, b, e) && hi <= |s|
    requires SortedBut(pred, s, lo, hi, b, e, e, e)
    requires b <= median < e && Split(pred, t, s[median], b, eqbeg, eqend, e)
    requires Sortable(pred, multiset(s[b..e])) && exists k :: b <= k < e && !pred(s[k], s[median])
    ensures Rearranged(was, t, lo, hi) && SortedBut(pred, t, lo, hi, b, eqbeg, eqend, e)
    ensures b <= eqbeg <= eqend <= e && eqbeg < e && b < eqend && e <= |t|
    ensures Sortable(pred, multiset(t[eqend..e])) && Sortable(pred, multiset(t[b..eqbeg]))
  {
    hide Rearranged, SortedBut, Sortable, OrdersDistinct, Split;
    RearrangedWider(s, t, b, e, lo, hi);
    RearrangedTransitive(was, s, t, lo, hi);
    SortableSame(pred, s, t, b, e);
    SortableOrders(pred, multiset(t[b..e]));
    SplitBounds(pred, t, s[median], b, eqbeg, eqend, e);
    SortableRange(pred, t, b, e, eqend, e);
    SortableRange(pred, t, b, e, b, eqbeg);
    var k :| b <= k < e && !pred(s[k], s[median]);
    RearrangedBack(s, t, b, e);
    var i' := RearrangedKeeps(t, s, b, e, median);
    var k' := RearrangedKeeps(t, s, b, e, k);
    SplitIsProper(pred, t, s[median], b, eqbeg, eqend, e, i', k');
    assert t[b..e][i' - b] == s[median];
    SplitSorts(pred, s, t, s[median], lo, hi, b, eqbeg, eqend, e);
  }

  lemma SortableOrders<T>(pred: (T, T) -> bool, m: multiset<T>)
    requires Sortable(pred, m)
    ensures OrdersDistinct(pred, m)
  {
  }

  lemma SplitBounds<T>(pred: (T, T) -> bool, s: seq<T>, pivot: T, lo: nat, eqbeg: nat, eqend: nat, hi: nat)
    requires Split(pred, s, pivot, lo, eqbeg, eqend, hi)
    ensures lo <= eqbeg <= eqend <= hi <= |s|
  {
  }

  lemma RearrangedBack<T>(s: seq<T>, t: seq<T>, lo: nat, hi: nat)
    requires Rearranged(s, t, lo, hi)
    ensures Rearranged(t, s, lo, hi)
  {
  }
}
