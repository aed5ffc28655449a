/** What the XPath engine does with the array of a node set: bring it into document order
    (aux-src/pugixml/pugixml.cc:8708-8744) and drop duplicates (7357-7378, 8852-8858). */
module NodeSets {
  import opened XmlTree
  import opened DocumentOrder
  import S = Sorting

  datatype SetType = TypeUnsorted | TypeSorted | TypeSortedReverse

  // ---------- Document order as the comparator of the sort ----------

  predicate ComesBefore(t: Node, a: XNode, b: XNode) {
    Position(DocumentList(t), a) < Position(DocumentList(t), b) || (a == b && a.OfAttribute?)
  }

  /** DocumentOrderComparator's answers as a function value. */
  function DocumentOrderOf(t: Node): (XNode, XNode) -> bool {
    (a, b) => ComesBefore(t, a, b)
  }

  ghost predicate NodesOf(t: Node, s: seq<XNode>) {
    forall i :: 0 <= i < |s| ==> ValidXNode(t, s[i])
  }

  ghost predicate AttributesOnce(s: seq<XNode>) {
    forall x :: x in s && x.OfAttribute? ==> multiset(s)[x] == 1
  }

  /** Its answers order any nodes, and sort them if and only if no attribute is there twice. */
  lemma DocumentOrderSorts(t: Node, s: seq<XNode>)
    requires NodesOf(t, s)
    ensures S.OrdersDistinct(DocumentOrderOf(t), multiset(s))
    ensures AttributesOnce(s) <==> S.Sortable(DocumentOrderOf(t), multiset(s))
  {
    var pred := DocumentOrderOf(t);
    forall x, y | x in multiset(s) && y in multiset(s) && x != y
      ensures pred(x, y) == !pred(y, x)
      ensures pred(x, y) == (Position(DocumentList(t), x) < Position(DocumentList(t), y))
    {
      XBeforeIsPosition(t, x, y);
    }
  }

  // ---------- Reversal ----------

  ghost predicate IsReverse<T>(s: seq<T>, r: seq<T>, lo: nat, hi: nat) {
    lo <= hi <= |s| == |r| && r[..lo] == s[..lo] && r[hi..] == s[hi..] &&
    forall i :: lo <= i < hi ==> r[i] == s[hi - 1 - (i - lo)]
  }

  method Reverse<T>(a: array<T>, lo: nat, hi: nat)
    requires lo <= hi <= a.Length
    modifies a
    ensures IsReverse(old(a[..]), a[..], lo, hi)
  {
    var begin, end := lo, hi;
    while end - begin > 1
      invariant lo <= begin <= hi && begin - lo == hi - end && begin <= end
      invariant forall i :: 0 <= i < lo || hi <= i < a.Length || begin <= i < end ==> a[i] == old(a[i])
      invariant forall i :: lo <= i < begin || end <= i < hi ==> a[i] == old(a[hi - 1 - (i - lo)])
    {
      end := end - 1;
      a[begin], a[end] := a[end], a[begin];
      begin := begin + 1;
    }
  }

  // ---------- The order a set is in, and sorting it ----------

  ghost predicate InOrderAt<T>(pred: (T, T) -> bool, x: T, y: T, kind: SetType) {
    match kind
    case TypeUnsorted => true
    case TypeSorted => S.Leq(pred, x, y)
    case TypeSortedReverse => S.Leq(pred, y, x)
  }

  ghost predicate InOrder<T>(pred: (T, T) -> bool, s: seq<T>, lo: nat, hi: nat, kind: SetType)
    requires hi <= |s|
  {
    forall i, j :: lo <= i < j < hi ==> InOrderAt(pred, s[i], s[j], kind)
  }

  lemma NoDuplicatesAt<T>(s: seq<T>, lo: nat, hi: nat)
    requires lo <= hi <= |s| && S.NoDuplicates(multiset(s[lo..hi]))
    ensures forall i, j :: lo <= i < j < hi ==> s[i] != s[j]
    ensures forall i :: lo <= i < hi ==> s[i] in multiset(s[lo..hi])
  {
    forall i | lo <= i < hi
      ensures s[i] in multiset(s[lo..hi])
    {
      assert s[lo..hi][i - lo] == s[i];
    }
    forall i, j | lo <= i < j < hi
      ensures s[i] != s[j]
    {
      S.PresentTwice(s[lo..hi], i - lo, j - lo);
      assert s[lo..hi][i - lo] == s[i] && s[lo..hi][j - lo] == s[j];
    }
  }

  /** In order by those answers: positions in the document of different nodes increase, or decrease
      for the reverse. */
  lemma InOrderIsDocumentOrder(t: Node, s: seq<XNode>, lo: nat, hi: nat, kind: SetType)
    requires lo <= hi <= |s| && NodesOf(t, s[lo..hi]) && !kind.TypeUnsorted?
    ensures InOrder(DocumentOrderOf(t), s, lo, hi, kind) <==>
            forall i, j :: lo <= i < j < hi && s[i] != s[j] ==> InPosition(t, s[i], s[j], kind)
  {
    hide DocumentList;
    var pred := DocumentOrderOf(t);
    forall i, j | lo <= i < j < hi
      ensures s[i] != s[j] ==> (InOrderAt(pred, s[i], s[j], kind) <==> InPosition(t, s[i], s[j], kind))
    {
      assert s[lo..hi][i - lo] == s[i] && s[lo..hi][j - lo] == s[j];
    }
  }

  ghost predicate InPosition(t: Node, x: XNode, y: XNode, kind: SetType) {
    if kind.TypeSortedReverse? then Position(DocumentList(t), y) < Position(DocumentList(t), x)
    else Position(DocumentList(t), x) < Position(DocumentList(t), y)
  }

  /** Neighbours in order, for a transitive order, are all that needs checking. */
  lemma OneMoreInOrder<T>(pred: (T, T) -> bool, s: seq<T>, lo: nat, k: nat, hi: nat, kind: SetType)
    requires lo < k < hi <= |s| && S.OrdersDistinct(pred, multiset(s[lo..hi]))
    requires InOrder(pred, s, lo, k, kind)
    requires kind.TypeSorted? ==> pred(s[k - 1], s[k])
    requires kind.TypeSortedReverse? ==> !pred(s[k - 1], s[k])
    ensures InOrder(pred, s, lo, k + 1, kind)
  {
    hide S.OrdersDistinct;
    forall i | lo <= i < k
      ensures InOrderAt(pred, s[i], s[k], kind)
    {
      BeforeNext(pred, s, lo, i, k, hi, kind);
    }
  }

  lemma BeforeNext<T>(pred: (T, T) -> bool, s: seq<T>, lo: nat, i: nat, k: nat, hi: nat, kind: SetType)
    requires lo <= i < k < hi <= |s| && S.OrdersDistinct(pred, multiset(s[lo..hi]))
    requires i < k - 1 ==> InOrderAt(pred, s[i], s[k - 1], kind)
    requires kind.TypeSorted? ==> pred(s[k - 1], s[k])
    requires kind.TypeSortedReverse? ==> !pred(s[k - 1], s[k])
    ensures InOrderAt(pred, s[i], s[k], kind)
  {
    var m := multiset(s[lo..hi]);
    MembersOf(s, lo, hi);
    S.OrderDecides(pred, m, s[k], s[k - 1]);
    if i < k - 1 {
      hide S.OrdersDistinct;
      if kind.TypeSorted? {
        S.LeqTransitive(pred, m, s[i], s[k - 1], s[k]);
      } else if kind.TypeSortedReverse? {
        S.LeqTransitive(pred, m, s[k], s[k - 1], s[i]);
      }
    }
  }

  lemma MembersOf<T>(s: seq<T>, lo: nat, hi: nat)
    requires lo <= hi <= |s|
    ensures forall i :: lo <= i < hi ==> s[i] in multiset(s[lo..hi])
  {
    forall i | lo <= i < hi
      ensures s[i] in multiset(s[lo..hi])
    {
      assert s[lo..hi][i - lo] == s[i];
    }
  }

  lemma Decided<T>(pred: (T, T) -> bool, m: multiset<T>, x: T, y: T)
    requires S.OrdersDistinct(pred, m) && x in m && y in m && x != y
    ensures pred(x, y) == !pred(y, x)
  {
  }

  /** Two pairs of neighbours are ordered differently. */
  ghost predicate Mixed<T>(pred: (T, T) -> bool, s: seq<T>, lo: nat, hi: nat)
    requires hi <= |s|
  {
    exists i :: lo < i && i + 1 < hi && Turns(pred, s, lo, i)
  }

  ghost predicate Turns<T>(pred: (T, T) -> bool, s: seq<T>, lo: nat, i: nat)
    requires lo + 1 < |s| && i + 1 < |s|
  {
    pred(s[i], s[i + 1]) != pred(s[lo], s[lo + 1])
  }

  /** The order is told from the answers for neighbours; only when they differ is none reported. */
  method GetOrder<T(==)>(a: array<T>, lo: nat, hi: nat, pred: (T, T) -> bool) returns (kind: SetType)
    requires lo <= hi <= a.Length && S.OrdersDistinct(pred, multiset(a[lo..hi]))
    ensures InOrder(pred, a[..], lo, hi, kind)
    ensures kind.TypeUnsorted? <==> Mixed(pred, a[..], lo, hi)
  {
    hide S.OrdersDistinct, InOrder;
    ghost var s := a[..];
    if hi - lo < 2 {
      ShortInOrder(pred, s, lo, hi);
      return TypeSorted;
    }
    assert s[lo..hi] == a[lo..hi];
    var first := pred(a[lo], a[lo + 1]);
    ghost var guess := if first then TypeSorted else TypeSortedReverse;
    FewInOrder(pred, s, lo, guess);
    OneMoreInOrder(pred, s, lo, lo + 1, hi, guess);
    var it := lo + 1;
    while it + 1 < hi
      invariant lo + 1 <= it < hi && InOrder(pred, s, lo, it + 1, guess)
      invariant forall i :: lo < i < it ==> !Turns(pred, s, lo, i)
    {
      if pred(a[it], a[it + 1]) != first {
        assert Turns(pred, s, lo, it);
        Unordered(pred, s, lo, hi);
        return TypeUnsorted;
      }
      OneMoreInOrder(pred, s, lo, it + 1, hi, guess);
      it := it + 1;
    }
    return if first then TypeSorted else TypeSortedReverse;
  }

  lemma FewInOrder<T>(pred: (T, T) -> bool, s: seq<T>, lo: nat, kind: SetType)
    requires lo + 1 <= |s|
    ensures InOrder(pred, s, lo, lo + 1, kind)
  {
  }

  lemma ShortInOrder<T>(pred: (T, T) -> bool, s: seq<T>, lo: nat, hi: nat)
    requires hi <= |s| && hi < lo + 2
    ensures InOrder(pred, s, lo, hi, TypeSorted)
  {
  }

  lemma Unordered<T>(pred: (T, T) -> bool, s: seq<T>, lo: nat, hi: nat)
    requires hi <= |s|
    ensures InOrder(pred, s, lo, hi, TypeUnsorted)
  {
  }

  /** Without duplicates differing answers mean that neither order is there; with them a set in order
      can be taken for unsorted. */
  lemma MixedIff<T>(pred: (T, T) -> bool, s: seq<T>, lo: nat, hi: nat)
    requires lo <= hi <= |s| && S.OrdersDistinct(pred, multiset(s[lo..hi])) && S.NoDuplicates(multiset(s[lo..hi]))
    ensures Mixed(pred, s, lo, hi) <==>
            !InOrder(pred, s, lo, hi, TypeSorted) && !InOrder(pred, s, lo, hi, TypeSortedReverse)
  {
    if i :| lo < i && i + 1 < hi && Turns(pred, s, lo, i) {
      NeitherWay(pred, s, lo, i, hi);
    } else {
      NotMixed(pred, s, lo, hi);
    }
  }

  /** For one: equal numbers in front of a larger one are in order, and reported as unsorted. */
  lemma OrderedYetMixed()
    ensures var pred := (x: int, y: int) => x < y;
      InOrder(pred, [1, 1, 2], 0, 3, TypeSorted) && Mixed(pred, [1, 1, 2], 0, 3)
  {
    var pred := (x: int, y: int) => x < y;
    assert Turns(pred, [1, 1, 2], 0, 1);
  }

  lemma NotMixed<T>(pred: (T, T) -> bool, s: seq<T>, lo: nat, hi: nat)
    requires lo <= hi <= |s| && S.OrdersDistinct(pred, multiset(s[lo..hi])) && !Mixed(pred, s, lo, hi)
    ensures InOrder(pred, s, lo, hi, TypeSorted) || InOrder(pred, s, lo, hi, TypeSortedReverse)
  {
    hide S.OrdersDistinct;
    if lo + 1 < hi {
      hide InOrder;
      var guess := if pred(s[lo], s[lo + 1]) then TypeSorted else TypeSortedReverse;
      FewInOrder(pred, s, lo, guess);
      OneMoreInOrder(pred, s, lo, lo + 1, hi, guess);
      var k := lo + 2;
      while k < hi
        invariant lo + 2 <= k <= hi && InOrder(pred, s, lo, k, guess)
      {
        assert !Turns(pred, s, lo, k - 1);
        OneMoreInOrder(pred, s, lo, k, hi, guess);
        k := k + 1;
      }
    }
  }

  /** Two pairs of neighbours that are ordered differently leave neither order possible. */
  lemma NeitherWay<T>(pred: (T, T) -> bool, s: seq<T>, lo: nat, it: nat, hi: nat)
    requires lo < it && it + 1 < hi <= |s| && Turns(pred, s, lo, it)
    requires S.OrdersDistinct(pred, multiset(s[lo..hi])) && S.NoDuplicates(multiset(s[lo..hi]))
    ensures !InOrder(pred, s, lo, hi, TypeSorted) && !InOrder(pred, s, lo, hi, TypeSortedReverse)
  {
    var m := multiset(s[lo..hi]);
    NoDuplicatesAt(s, lo, hi);
    Decided(pred, m, s[lo], s[lo + 1]);
    Decided(pred, m, s[it], s[it + 1]);
    hide S.OrdersDistinct, S.NoDuplicates;
    assert forall kind :: InOrder(pred, s, lo, hi, kind) ==>
      InOrderAt(pred, s[lo], s[lo + 1], kind) && InOrderAt(pred, s[it], s[it + 1], kind);
  }

  lemma SortedInOrder<T>(pred: (T, T) -> bool, t: seq<T>, lo: nat, hi: nat)
    requires hi <= |t| && S.Sorted(pred, t, lo, hi)
    ensures InOrder(pred, t, lo, hi, TypeSorted)
  {
  }

  lemma ReverseInOrder<T>(pred: (T, T) -> bool, s: seq<T>, r: seq<T>, lo: nat, hi: nat, kind: SetType)
    requires IsReverse(s, r, lo, hi) && InOrder(pred, s, lo, hi, kind) && !kind.TypeUnsorted?
    ensures InOrder(pred, r, lo, hi, if kind.TypeSorted? then TypeSortedReverse else TypeSorted)
    ensures S.Rearranged(s, r, lo, hi)
  {
    ReverseRearranges(s[lo..hi], r[lo..hi]);
    forall i, j | lo <= i < j < hi
      ensures if kind.TypeSorted? then S.Leq(pred, r[j], r[i]) else S.Leq(pred, r[i], r[j])
    {
      assert InOrderAt(pred, s[hi - 1 - (j - lo)], s[hi - 1 - (i - lo)], kind);
      assert r[i] == s[hi - 1 - (i - lo)] && r[j] == s[hi - 1 - (j - lo)];
    }
  }

  lemma {:induction false} ReverseRearranges<T>(s: seq<T>, r: seq<T>)
    requires |s| == |r| && forall i :: 0 <= i < |s| ==> r[i] == s[|s| - 1 - i]
    ensures multiset(s) == multiset(r)
  {
    if s == [] {
      assert r == [];
    } else {
      assert s == [s[0]] + s[1..];
      assert r == r[..|r| - 1] + [s[0]];
      ReverseRearranges(s[1..], r[..|r| - 1]);
    }
  }

  /** Whatever order the set is in, and whatever is known of it, it ends up in document order, or in
      reverse document order when that is asked for, with the same nodes. */
  method XPathSort(t: Node, a: array<XNode>, lo: nat, hi: nat, kind: SetType, rev: bool) returns (order: SetType)
    requires lo <= hi <= a.Length && NodesOf(t, a[lo..hi]) && AttributesOnce(a[lo..hi])
    requires InOrder(DocumentOrderOf(t), a[..], lo, hi, kind)
    modifies a
    ensures order == if rev then TypeSortedReverse else TypeSorted
    ensures S.Rearranged(old(a[..]), a[..], lo, hi)
    ensures InOrder(DocumentOrderOf(t), a[..], lo, hi, order)
  {
    hide S.Rearranged, InOrder, S.Sorted, S.Sortable, S.OrdersDistinct, IsReverse, DocumentOrderOf, NodesOf, Mixed,
      AttributesOnce;
    ghost var was := a[..];
    assert was[lo..hi] == a[lo..hi];
    var cmp := DocumentOrderOf(t);
    order := if rev then TypeSortedReverse else TypeSorted;
    S.RearrangedItself(was, lo, hi);
    DocumentOrderSorts(t, was[lo..hi]);
    var kind' := kind;
    if kind == TypeUnsorted {
      var sorted := GetOrder(a, lo, hi, cmp);
      if sorted == TypeUnsorted {
        S.Sort(a, lo, hi, cmp, S.Log2(hi - lo));
        SortedInOrder(cmp, a[..], lo, hi);
        kind' := TypeSorted;
      } else {
        kind' := sorted;
      }
    }
    if kind' != order {
      ghost var s := a[..];
      Reverse(a, lo, hi);
      ReverseInOrder(cmp, s, a[..], lo, hi, kind');
      S.RearrangedTransitive(was, s, a[..], lo, hi);
    }
  }

  // ---------- Duplicates ----------

  /** s without the elements that repeat their predecessor. */
  ghost function Compressed<T>(s: seq<T>): (r: seq<T>) {
    if |s| < 2 then s
    else
      var init := s[..|s| - 1];
      if s[|s| - 1] == s[|s| - 2] then Compressed(init) else Compressed(init) + [s[|s| - 1]]
  }

  /** Equal elements stand next to each other. */
  ghost predicate Grouped<T>(s: seq<T>) {
    forall i, j, k :: 0 <= i < k < j < |s| && s[i] == s[j] ==> s[k] == s[i]
  }

  lemma {:induction false} CompressedOnce<T>(s: seq<T>)
    requires Grouped(s)
    ensures forall x :: x in Compressed(s) <==> x in s
    ensures forall i, j :: 0 <= i < j < |Compressed(s)| ==> Compressed(s)[i] != Compressed(s)[j]
  {
    if |s| >= 2 {
      var init, x := s[..|s| - 1], s[|s| - 1];
      assert s == init + [x];
      assert forall i :: 0 <= i < |init| ==> init[i] == s[i];
      CompressedOnce(init);
      forall i | 0 <= i < |init| && init[i] == x
        ensures s[|s| - 2] == x
      {
        assert s[i] == s[|s| - 1];
      }
      assert x != s[|s| - 2] ==> x !in init;
      assert x !in init ==> x !in Compressed(init);
    }
  }

  lemma {:induction false} CompressedLast<T>(s: seq<T>)
    requires s != []
    ensures Compressed(s) != [] && Compressed(s)[|Compressed(s)| - 1] == s[|s| - 1] && |Compressed(s)| <= |s|
  {
    if |s| >= 2 {
      CompressedLast(s[..|s| - 1]);
    }
  }

  lemma SortedIsGrouped<T>(pred: (T, T) -> bool, s: seq<T>)
    requires S.OrdersDistinct(pred, multiset(s)) && S.Sorted(pred, s, 0, |s|)
    ensures Grouped(s)
  {
    forall i, j, k | 0 <= i < k < j < |s| && s[i] == s[j]
      ensures s[k] == s[i]
    {
      assert S.Leq(pred, s[i], s[k]) && S.Leq(pred, s[k], s[j]);
      assert s[i] in multiset(s) && s[k] in multiset(s);
    }
  }

  lemma CompressedNext<T>(s: seq<T>, lo: nat, k: nat)
    requires lo < k < |s|
    ensures Compressed(s[lo..k]) != [] && Compressed(s[lo..k])[|Compressed(s[lo..k])| - 1] == s[k - 1]
    ensures |Compressed(s[lo..k])| <= k - lo
    ensures Compressed(s[lo..k + 1]) == Compressed(s[lo..k]) + if s[k] == s[k - 1] then [] else [s[k]]
  {
    CompressedLast(s[lo..k]);
    assert s[lo..k + 1][..k - lo] == s[lo..k];
  }

  lemma CompressedOne<T>(s: seq<T>, lo: nat)
    requires lo < |s|
    ensures Compressed(s[lo..lo + 1]) == s[lo..lo + 1]
  {
  }

  lemma CompressedNone<T>()
    ensures Compressed<T>([]) == []
  {
  }

  /** Drops repetitions in place and returns the new end. */
  method Unique<T(==)>(a: array<T>, lo: nat, hi: nat) returns (end: nat)
    requires lo <= hi <= a.Length
    modifies a
    ensures lo <= end <= hi && a[lo..end] == Compressed(old(a[lo..hi]))
    ensures a[..lo] == old(a[..lo]) && a[hi..] == old(a[hi..])
  {
    hide Compressed;
    ghost var s := a[..];
    CompressedNone<T>();
    if lo < hi {
      CompressedOne(s, lo);
    }
    var begin := lo;
    while hi - begin > 1 && a[begin] != a[begin + 1]
      invariant lo <= begin <= hi && (begin == hi ==> lo == hi) && a[..] == s
      invariant lo < hi ==> Compressed(s[lo..begin + 1]) == s[lo..begin + 1]
    {
      CompressedNext(s, lo, begin + 1);
      assert s[lo..begin + 2] == s[lo..begin + 1] + [s[begin + 1]];
      begin := begin + 1;
    }
    if begin == hi {
      assert s[lo..hi] == [];
      return begin;
    }
    assert a[..begin + 1] == s[..lo] + s[lo..begin + 1];
    end := MergeUnique(a, lo, begin, hi);
    assert a[lo..end] == a[..end][lo..];
    assert a[..lo] == a[..end][..lo];
  }

  lemma TailStep<T>(s: seq<T>, b: seq<T>, c: seq<T>, begin: nat)
    requires begin < |s| == |b| == |c| && b[begin..] == s[begin..] && c[begin + 1..] == b[begin + 1..]
    ensures b[begin] == s[begin] && c[begin + 1..] == s[begin + 1..]
  {
    assert b[begin] == b[begin..][0];
    assert b[begin + 1..] == b[begin..][1..] && s[begin + 1..] == s[begin..][1..];
  }

  lemma LastKept<T>(b: seq<T>, write: nat, front: seq<T>, kept: seq<T>)
    requires write < |b| && b[..write + 1] == front + kept && kept != []
    ensures b[write] == kept[|kept| - 1]
  {
    assert b[write] == b[..write + 1][write];
  }

  /** The second loop: what is kept ends at `write`. */
  method MergeUnique<T(==)>(a: array<T>, ghost lo: nat, head: nat, hi: nat) returns (end: nat)
    requires lo <= head < hi <= a.Length
    requires a[..head + 1] == a[..lo] + Compressed(a[lo..head + 1])
    modifies a
    ensures lo <= end <= hi && a[..end] == old(a[..lo]) + Compressed(old(a[lo..hi])) && a[hi..] == old(a[hi..])
  {
    hide Compressed;
    ghost var s := a[..];
    var write := head;
    var begin := head + 1;
    while begin != hi
      invariant lo <= write < begin <= hi
      invariant a[..write + 1] == s[..lo] + Compressed(s[lo..begin])
      invariant a[begin..] == s[begin..]
    {
      CompressedNext(s, lo, begin);
      ghost var b, kept := a[..], Compressed(s[lo..begin]);
      LastKept(b, write, s[..lo], kept);
      if a[begin] != a[write] {
        TailStep(s, b, b, begin);
        write := write + 1;
        Put(a, write, begin);
        KeptGrows(a[..write + 1], s[..lo], kept, s[begin]);
      }
      TailStep(s, b, a[..], begin);
      begin := begin + 1;
    }
    end := write + 1;
  }

  lemma KeptGrows<T>(b: seq<T>, front: seq<T>, kept: seq<T>, x: T)
    requires b == front + kept + [x]
    ensures b == front + (kept + [x])
  {
  }

  method Put<T>(a: array<T>, write: nat, begin: nat)
    requires write <= begin < a.Length
    modifies a
    ensures a[..write + 1] == old(a[..write]) + [old(a[begin])]
    ensures a[begin + 1..] == old(a[begin + 1..])
  {
    a[write] := a[begin];
  }

  /** After duplicates are removed the set holds each of its nodes exactly once. `address` stands for
      the comparison of object addresses, which orders distinct nodes in some strict total way. */
  method RemoveDuplicates<T(==)>(a: array<T>, lo: nat, hi: nat, kind: SetType, address: (T, T) -> bool)
      returns (end: nat)
    requires lo <= hi <= a.Length
    requires S.OrdersDistinct(address, multiset(a[lo..hi])) && S.Irreflexive(address, multiset(a[lo..hi]))
    requires kind != TypeUnsorted ==> Grouped(a[lo..hi])
    modifies a
    ensures lo <= end <= hi
    ensures forall i, j :: lo <= i < j < end ==> a[i] != a[j]
    ensures forall x :: x in a[lo..end] <==> x in old(a[lo..hi])
  {
    hide S.Rearranged, S.OrdersDistinct, S.Irreflexive, S.Sorted, Grouped, Compressed;
    ghost var was := a[..];
    S.RearrangedItself(was, lo, hi);
    assert was[lo..hi] == a[lo..hi];
    if kind == TypeUnsorted {
      SortableIf(address, multiset(was[lo..hi]));
      S.Sort(a, lo, hi, address, S.Log2(hi - lo));
      S.OrdersSame(address, was, a[..], lo, hi);
      SortedRange(address, a[..], lo, hi);
    }
    ghost var s := a[..];
    assert s[lo..hi] == a[lo..hi];
    end := Unique(a, lo, hi);
    SameElements(was, s, lo, hi);
    CompressedOnce(s[lo..hi]);
    assert a[lo..end] == Compressed(s[lo..hi]);
    forall i, j | lo <= i < j < end
      ensures a[i] != a[j]
    {
      assert a[i] == a[lo..end][i - lo] && a[j] == a[lo..end][j - lo];
    }
  }

  lemma SortableIf<T>(pred: (T, T) -> bool, m: multiset<T>)
    requires S.OrdersDistinct(pred, m) && S.Irreflexive(pred, m)
    ensures S.Sortable(pred, m)
  {
  }

  lemma SortedRange<T>(pred: (T, T) -> bool, s: seq<T>, lo: nat, hi: nat)
    requires lo <= hi <= |s| && S.Sorted(pred, s, lo, hi) && S.OrdersDistinct(pred, multiset(s[lo..hi]))
    ensures Grouped(s[lo..hi])
  {
    SortedIsGrouped(pred, s[lo..hi]);
  }

  lemma SameElements<T>(s: seq<T>, t: seq<T>, lo: nat, hi: nat)
    requires S.Rearranged(s, t, lo, hi)
    ensures hi <= |s| == |t| && forall x :: x in s[lo..hi] <==> x in t[lo..hi]
  {
    forall x
      ensures x in s[lo..hi] <==> x in t[lo..hi]
    {
      assert x in multiset(s[lo..hi]) <==> x in multiset(t[lo..hi]);
    }
  }
}
