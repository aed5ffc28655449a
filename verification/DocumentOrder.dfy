/** The pointer-walking comparison of two XPath nodes by document order, without the shortcut
    through buffer addresses. */
module DocumentOrder {
  import opened XmlTree

  /** An XPath node: an XML node, or an attribute together with the element that carries it. */
  datatype XNode = OfNode(path: Path) | OfAttribute(path: Path, index: nat)

  predicate ValidXNode(t: Node, x: XNode) {
    ValidPath(t, x.path) && (x.OfAttribute? ==> x.index < |NodeAt(t, x.path).attrs|)
  }

  // ----- positions in the document

  function AttributesOf(p: Path, k: nat, n: nat): (r: seq<XNode>)
    requires k <= n
    ensures |r| == n - k && forall i :: 0 <= i < n - k ==> r[i] == OfAttribute(p, k + i)
    decreases n - k
  {
    if k == n then [] else [OfAttribute(p, k)] + AttributesOf(p, k + 1, n)
  }

  function WithAttributes(t: Node, r: seq<Path>): seq<XNode>
    requires forall p :: p in r ==> ValidPath(t, p)
  {
    if r == [] then []
    else [OfNode(r[0])] + AttributesOf(r[0], 0, |NodeAt(t, r[0]).attrs|) + WithAttributes(t, r[1..])
  }

  /** The document as one list: each node, then its attributes, then its children. */
  function DocumentList(t: Node): seq<XNode> {
    PreorderIsDocumentOrder(t);
    WithAttributes(t, Preorder(t))
  }

  function Position(r: seq<XNode>, x: XNode): nat {
    if r == [] || r[0] == x then 0 else 1 + Position(r[1..], x)
  }

  predicate XBefore(a: XNode, b: XNode) {
    Before(a.path, b.path)
    || (a.path == b.path && b.OfAttribute? && (a.OfAttribute? ==> a.index < b.index))
  }

  ghost predicate XSorted(r: seq<XNode>) {
    forall i, j :: 0 <= i < j < |r| ==> XBefore(r[i], r[j])
  }

  lemma {:induction false} WithAttributesSorted(t: Node, r: seq<Path>)
    requires forall p :: p in r ==> ValidPath(t, p)
    requires Sorted(r)
    ensures XSorted(WithAttributes(t, r))
    ensures forall x :: x in WithAttributes(t, r) <==> x.path in r && ValidXNode(t, x)
  {
    hide Before, ValidPath, XSorted;
    if r == [] {
      NothingXSorted();
    } else {
      var p := r[0];
      var here := [OfNode(p)] + AttributesOf(p, 0, |NodeAt(t, p).attrs|);
      var rest := WithAttributes(t, r[1..]);
      assert forall q :: q in r[1..] ==> q in r;
      WithAttributesSorted(t, r[1..]);
      forall x ensures x in here <==> x.path == p && ValidXNode(t, x) {
        if x.path == p && ValidXNode(t, x) {
          assert here[if x.OfNode? then 0 else 1 + x.index] == x;
        }
      }
      assert WithAttributes(t, r) == here + rest;
      forall x ensures x in here + rest <==> x.path in r && ValidXNode(t, x) {
        assert x in here + rest <==> x in here || x in rest;
        assert x.path in r <==> x.path == p || x.path in r[1..];
      }
      NodeThenAttributes(p, |NodeAt(t, p).attrs|);
      XSortedJoin(here, rest, p);
    }
  }

  lemma NothingXSorted()
    ensures XSorted([])
  {
  }

  lemma NodeThenAttributes(p: Path, n: nat)
    ensures XSorted([OfNode(p)] + AttributesOf(p, 0, n))
  {
    hide Before;
  }

  lemma XSortedJoin(here: seq<XNode>, rest: seq<XNode>, p: Path)
    requires XSorted(here) && XSorted(rest)
    requires forall x :: x in here ==> x.path == p
    requires forall x :: x in rest ==> Before(p, x.path)
    ensures XSorted(here + rest)
  {
    hide Before;
    forall i, j | 0 <= i < j < |here + rest| ensures XBefore((here + rest)[i], (here + rest)[j]) {
      if |here| <= i {
        assert XBefore(rest[i - |here|], rest[j - |here|]);
      } else if |here| <= j {
        assert here[i] in here && rest[j - |here|] in rest;
      }
    }
  }

  lemma {:induction false} PositionIsIndex(r: seq<XNode>, i: nat)
    requires XSorted(r) && i < |r|
    ensures Position(r, r[i]) == i
  {
    if i > 0 {
      assert XBefore(r[0], r[i]);
      BeforeIrreflexive(r[0].path);
      PositionIsIndex(r[1..], i - 1);
    }
  }

  /** XBefore compares positions in the document. */
  lemma XBeforeIsPosition(t: Node, a: XNode, b: XNode)
    requires ValidXNode(t, a) && ValidXNode(t, b)
    ensures XBefore(a, b) <==> Position(DocumentList(t), a) < Position(DocumentList(t), b)
    ensures Position(DocumentList(t), a) == Position(DocumentList(t), b) ==> a == b
    ensures Position(DocumentList(t), a) < |DocumentList(t)| && DocumentList(t)[Position(DocumentList(t), a)] == a
  {
    PreorderIsDocumentOrder(t);
    WithAttributesSorted(t, Preorder(t));
    var r := DocumentList(t);
    assert a in r && b in r;
    var i :| 0 <= i < |r| && r[i] == a;
    var j :| 0 <= j < |r| && r[j] == b;
    PositionIsIndex(r, i);
    PositionIsIndex(r, j);
    BeforeAsymmetric(a.path, b.path);
    BeforeIrreflexive(a.path);
    assert i < j ==> XBefore(a, b);
    assert j < i ==> XBefore(b, a);
  }

  // ----- the comparison

  lemma SiblingIndexes(p: Path, i: nat, j: nat)
    ensures p + [i] == p + [j] <==> i == j
    ensures Before(p + [i], p + [j]) <==> i < j
  {
    BeforeCommonPrefix(p, [i], [j]);
    assert (p + [i])[|p|] == i && (p + [j])[|p|] == j;
  }

  /** The child of p with index i, if there is one. */
  ghost function ChildPtr(t: Node, p: Path, i: nat): Ptr {
    if ValidPath(t, p + [i]) then To(p + [i]) else Null
  }

  lemma ChildPtrNext(t: Node, p: Path, i: nat, j: nat)
    requires ChildPtr(t, p, i) != Null && ChildPtr(t, p, j) != Null
    ensures ValidPath(t, ChildPtr(t, p, i).path) && ValidPath(t, p)
    ensures NextSibling(t, ChildPtr(t, p, i).path) == ChildPtr(t, p, i + 1)
    ensures i < |NodeAt(t, p).children|
    ensures ChildPtr(t, p, i) == ChildPtr(t, p, j) <==> i == j
  {
    hide ValidPath, NodeAt, NextSibling, Before;
    NextSiblingPath(t, p, i);
    ChildPath(t, p, i + 1);
    SiblingIndexes(p, i, j);
  }

  lemma ChildPtrLater(t: Node, p: Path, i: nat, j: nat)
    ensures i <= j && ChildPtr(t, p, j) != Null ==> ChildPtr(t, p, i) != Null
  {
    ChildPath(t, p, i);
    ChildPath(t, p, j);
  }

  lemma SiblingPtrs(t: Node, ln: Path, rn: Path)
    requires ValidPath(t, ln) && ValidPath(t, rn)
    requires ln != [] && rn != [] && Up(ln) == Up(rn) && ln != rn
    ensures ValidPath(t, Up(ln))
    ensures ChildPtr(t, Up(ln), Last(ln)) == To(ln) && ChildPtr(t, Up(ln), Last(rn)) == To(rn)
    ensures Last(ln) != Last(rn) && (Before(ln, rn) <==> Last(ln) < Last(rn))
  {
    assert ln == Up(ln) + [Last(ln)] && rn == Up(ln) + [Last(rn)];
    SiblingIndexes(Up(ln), Last(ln), Last(rn));
  }

  /** The simultaneous walk along both sibling chains, either of which may run off its end. */
  method NodeIsBeforeSibling(t: Node, ln: Path, rn: Path) returns (before: bool)
    requires ValidPath(t, ln) && ValidPath(t, rn)
    requires ln != [] && rn != [] && Up(ln) == Up(rn) && ln != rn
    ensures before <==> Before(ln, rn)
  {
    hide *;
    ghost var p, i, j := Up(ln), Last(ln), Last(rn);
    SiblingPtrs(t, ln, rn);
    ghost var n := |NodeAt(t, p).children|;
    var ls, rs := To(ln), To(rn);
    ghost var k := 0;
    while ls != Null && rs != Null
      invariant ls == ChildPtr(t, p, i + k) && rs == ChildPtr(t, p, j + k)
      invariant i < j ==> i + k <= j
      invariant j < i ==> j + k <= i
      decreases n - i - k
    {
      ChildPtrNext(t, p, i + k, j);
      ChildPtrNext(t, p, j + k, i);
      if ls.path == rn { return true; }
      if rs.path == ln { return false; }
      ls := NextSibling(t, ls.path);
      rs := NextSibling(t, rs.path);
      k := k + 1;
    }
    ChildPtrLater(t, p, i + k, j + k);
    ChildPtrLater(t, p, j + k, i);
    before := rs == Null;
  }

  /** The pointer reached from p by following d parent links. */
  ghost function Climb(p: Path, d: nat): Ptr {
    if d <= |p| then To(p[..|p| - d]) else Null
  }

  lemma ClimbNext(p: Path, d: nat)
    requires Climb(p, d) != Null
    ensures d <= |p| && |Climb(p, d).path| == |p| - d && Climb(p, d).path <= p
    ensures Parent(Climb(p, d).path) == Climb(p, d + 1)
    ensures Climb(p, 0) == To(p)
  {
    if d < |p| { assert Up(p[..|p| - d]) == p[..|p| - d - 1]; }
  }

  /** Climb two pointers together until the first runs out; the second rises by as much. */
  method Level(p: Ptr, n: Path) returns (r: Path)
    requires p != Null ==> |p.path| < |n|
    ensures r <= n && |r| == |n| - (if p == Null then 0 else |p.path| + 1)
  {
    r := n;
    var q := p;
    while q != Null
      invariant r <= n && q != Null ==> |q.path| < |r|
      invariant r <= n && |r| - (if q == Null then 0 else |q.path| + 1) == |n| - (if p == Null then 0 else |p.path| + 1)
      decreases if q == Null then 0 else |q.path| + 1
    {
      q := Parent(q.path);
      r := Up(r);
    }
  }

  /** Which of two distinct nodes comes first: climb both to siblings, first levelling the depths. */
  method NodeIsBefore(t: Node, ln: Path, rn: Path) returns (before: bool)
    requires ValidPath(t, ln) && ValidPath(t, rn) && ln != rn
    ensures before <==> Before(ln, rn)
  {
    hide ValidPath, Before, Climb;
    var lp, rp := To(ln), To(rn);
    ghost var d := 0;
    ClimbStart(ln);
    ClimbStart(rn);
    while lp != Null && rp != Null && Parent(lp.path) != Parent(rp.path)
      invariant lp == Climb(ln, d) && rp == Climb(rn, d)
      invariant lp != Null || rp != Null
      invariant lp != Null && rp != Null ==> lp != rp
      invariant lp == Null ==> |ln| + 1 == d
      invariant rp == Null ==> |rn| + 1 == d
      decreases if lp == Null then 0 else |lp.path| + 1
    {
      ClimbNext(ln, d);
      ClimbNext(rn, d);
      lp := Parent(lp.path);
      rp := Parent(rp.path);
      d := d + 1;
    }
    if lp != Null { ClimbNext(ln, d); }
    if rp != Null { ClimbNext(rn, d); }
    if lp != Null && rp != Null {
      assert lp.path != [] && rp.path != [];
      before := CompareBelow(t, ln, rn, lp.path, rp.path);
      return;
    }
    var leftHigher := lp == Null;
    var l := Level(lp, ln);
    var r := Level(rp, rn);
    assert |l| == |r|;
    if l == r {
      if leftHigher { PrefixBefore(ln, rn); } else { PrefixBefore(rn, ln); BeforeAsymmetric(ln, rn); }
      return leftHigher;
    }
    while Parent(l) != Parent(r)
      invariant |l| == |r| && l <= ln && r <= rn && l != r
      decreases |l|
    {
      l := Up(l);
      r := Up(r);
    }
    before := CompareBelow(t, ln, rn, l, r);
  }

  lemma ClimbStart(p: Path)
    ensures Climb(p, 0) == To(p)
  {
    assert p[..|p|] == p;
  }

  method CompareBelow(t: Node, ln: Path, rn: Path, l: Path, r: Path) returns (before: bool)
    requires ValidPath(t, ln) && ValidPath(t, rn)
    requires l <= ln && r <= rn && l != r && l != [] && r != [] && Up(l) == Up(r)
    ensures before <==> Before(ln, rn)
  {
    PrefixValid(t, ln, |l|);
    PrefixValid(t, rn, |r|);
    assert ln[..|l|] == l && rn[..|r|] == r;
    Diverge(ln, rn, l, r);
    before := NodeIsBeforeSibling(t, l, r);
  }

  /** Nodes below distinct siblings compare as the siblings do. */
  lemma Diverge(a: Path, b: Path, c: Path, d: Path)
    requires c <= a && d <= b && c != d && c != [] && d != [] && Up(c) == Up(d)
    ensures Before(a, b) <==> Before(c, d)
  {
    assert c == Up(c) + [Last(c)] && d == Up(d) + [Last(d)];
    assert !(c <= d) && !(d <= b && c <= b) by {
      assert c[|c| - 1] != d[|c| - 1];
    }
    AfterSubtree(d, b, c);
    AfterSubtree(c, a, b);
    BeforeTotal(a, b);
    BeforeTotal(c, d);
    BeforeTotal(c, b);
    BeforeAsymmetric(c, d);
    BeforeAsymmetric(c, b);
    BeforeAsymmetric(a, b);
  }

  /** The slow path of document_order_comparator: the earlier position in the document wins, so
      on distinct nodes of one document the comparison is a strict total order. It is not
      irreflexive: an attribute compared with itself is reported as coming before itself. */
  method DocumentOrderComparator(t: Node, lhs: XNode, rhs: XNode) returns (less: bool)
    requires ValidXNode(t, lhs) && ValidXNode(t, rhs)
    ensures less <==> Position(DocumentList(t), lhs) < Position(DocumentList(t), rhs)
                      || (lhs == rhs && lhs.OfAttribute?)
  {
    XBeforeIsPosition(t, lhs, rhs);
    BeforeIrreflexive(lhs.path);
    var ln, rn := lhs.path, rhs.path;
    if lhs.OfAttribute? && rhs.OfAttribute? {
      if lhs.path == rhs.path {
        var a := lhs.index;
        while a < |NodeAt(t, lhs.path).attrs|
          invariant lhs.index <= a
          invariant lhs.index <= rhs.index ==> a <= rhs.index
        {
          if a == rhs.index { return true; }
          a := a + 1;
        }
        return false;
      }
    } else if lhs.OfAttribute? {
      if lhs.path == rhs.path { return false; }
    } else if rhs.OfAttribute? {
      if rhs.path == lhs.path { return true; }
    }
    if ln == rn { return false; }
    less := NodeIsBefore(t, ln, rn);
  }
}
