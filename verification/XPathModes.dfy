/** Node sets collected with early exits (aux-src/pugixml/pugixml.cc:9360-9365, 9497-9500, 10077-10121,
    10728-10790): a caller that wants only to know whether there is a node, or only the first one, has
    the steps and filters stop as soon as the order they work in allows. What a mode promises, and why
    every way of collecting keeps that promise; the evaluator that collects is in XPathEvaluation. */
module XPathModes {
  import opened Basics
  import opened XmlTree
  import opened XmlAxes
  import opened DocumentOrder
  import opened XPathOptimizer
  import N = NodeSets

  datatype Mode = EvalAll | EvalAny | EvalFirst

  /** A node set as it is collected: a list, and the order it is known to be in. */
  datatype Raw = Raw(nodes: seq<XNode>, ty: N.SetType)

  /** Whether a list in that order may stop at its first node. */
  predicate EvalOnce(ty: N.SetType, mode: Mode) {
    if ty == N.TypeSorted then mode != EvalAll else mode == EvalAny
  }

  // ----- order

  ghost predicate XComes(rev: bool, x: XNode, y: XNode) {
    if rev then XBefore(y, x) else XBefore(x, y)
  }

  ghost predicate XInOrder(rev: bool, s: seq<XNode>) {
    forall i, j :: 0 <= i < j < |s| ==> XComes(rev, s[i], s[j])
  }

  ghost predicate Ordered(s: seq<XNode>, ty: N.SetType) {
    match ty
    case TypeUnsorted => Distinct(s)
    case TypeSorted => XInOrder(false, s)
    case TypeSortedReverse => XInOrder(true, s)
  }

  lemma XBeforeStrict(x: XNode, y: XNode, z: XNode)
    ensures !XBefore(x, x)
    ensures !(XBefore(x, y) && XBefore(y, x))
    ensures XBefore(x, y) && XBefore(y, z) ==> XBefore(x, z)
    ensures x == y || XBefore(x, y) || XBefore(y, x)
  {
    BeforeIrreflexive(x.path);
    BeforeAsymmetric(x.path, y.path);
    BeforeTotal(x.path, y.path);
    if Before(x.path, y.path) && Before(y.path, z.path) {
      BeforeTransitive(x.path, y.path, z.path);
    }
  }

  lemma OrderedDistinct(rev: bool, s: seq<XNode>)
    requires XInOrder(rev, s)
    ensures Distinct(s)
  {
    forall i, j | 0 <= i < j < |s|
      ensures s[i] != s[j]
    {
      assert XComes(rev, s[i], s[j]);
      XBeforeStrict(s[i], s[j], s[j]);
    }
  }

  /** x is the node of the set that comes first in the document. */
  ghost predicate IsFirst(full: set<XNode>, x: XNode) {
    x in full && forall y :: y in full ==> y == x || XBefore(x, y)
  }

  lemma {:induction false} FirstExists(full: set<XNode>) returns (x: XNode)
    requires full != {}
    ensures IsFirst(full, x)
    decreases |full|
  {
    hide XBefore;
    x :| x in full;
    if y :| y in full && y != x {
      var rest := full - {x};
      assert y in rest;
      var z := FirstExists(rest);
      XBeforeStrict(z, x, x);
      if XBefore(x, z) {
        forall y | y in full
          ensures y == x || XBefore(x, y)
        {
          XBeforeStrict(x, z, y);
        }
      } else {
        x := z;
      }
    }
  }

  lemma FirstUnique(full: set<XNode>, x: XNode, y: XNode)
    requires IsFirst(full, x) && IsFirst(full, y)
    ensures x == y
  {
    XBeforeStrict(x, y, y);
  }

  // ----- what a mode promises

  ghost predicate Delivers(full: set<XNode>, s: seq<XNode>, mode: Mode) {
    (forall x :: x in s ==> x in full) &&
    match mode
    case EvalAll => forall x :: x in full ==> x in s
    case EvalAny => full != {} ==> s != []
    case EvalFirst => forall x :: IsFirst(full, x) ==> x in s
  }

  ghost predicate Delivered(full: set<XNode>, r: Raw, mode: Mode) {
    Ordered(r.nodes, r.ty) && Delivers(full, r.nodes, mode)
  }

  /** The parts of a union may be cut short one by one. */
  lemma DeliversUnion(a: set<XNode>, r: seq<XNode>, b: set<XNode>, s: seq<XNode>, mode: Mode)
    requires Delivers(a, r, mode) && Delivers(b, s, mode)
    ensures Delivers(a + b, r + s, mode)
  {
    if mode == EvalFirst {
      forall x | IsFirst(a + b, x)
        ensures x in r + s
      {
        assert x in a ==> IsFirst(a, x);
        assert x in b ==> IsFirst(b, x);
      }
    }
  }

  lemma DeliversSame(full: set<XNode>, r: seq<XNode>, s: seq<XNode>, mode: Mode)
    requires Delivers(full, r, mode) && forall x :: x in r <==> x in s
    ensures Delivers(full, s, mode)
  {
    if r != [] {
      assert r[0] in r;
    }
  }

  /** A list may stop at its first node if any node will do, or if it is sorted. */
  lemma DeliversCut(s: seq<XNode>, ty: N.SetType, mode: Mode)
    requires ty == N.TypeSorted ==> XInOrder(false, s)
    ensures Delivers(AsSet(s), First(s, EvalOnce(ty, mode)), mode)
  {
    var cut := First(s, EvalOnce(ty, mode));
    assert s != [] ==> s[0] in AsSet(s) && s[0] in cut;
    if mode == EvalFirst && EvalOnce(ty, mode) && s != [] {
      forall x | IsFirst(AsSet(s), x)
        ensures x in cut
      {
        var i :| 0 <= i < |s| && s[i] == x;
        if i > 0 {
          assert XComes(false, s[0], s[i]);
          XBeforeStrict(s[0], x, x);
        }
      }
    }
  }

  // ----- the lists keep their order

  lemma OrderedCut(rev: bool, s: seq<XNode>, once: bool)
    requires XInOrder(rev, s)
    ensures XInOrder(rev, First(s, once))
  {
    hide XComes;
  }

  lemma {:induction false} GeneralKeepsOrder(w: World, p: Expr, list: seq<XNode>, i: nat, size: nat, rev: bool)
    ensures forall x :: x in ApplyGeneral(w, p, list, i, size) ==> x in list
    ensures XInOrder(rev, list) ==> XInOrder(rev, ApplyGeneral(w, p, list, i, size))
    ensures Distinct(list) ==> Distinct(ApplyGeneral(w, p, list, i, size))
  {
    hide Holds, XComes;
    if list != [] {
      GeneralKeepsOrder(w, p, list[1..], i + 1, size, rev);
      var rest := ApplyGeneral(w, p, list[1..], i + 1, size);
      assert forall k :: 0 <= k < |rest| ==> rest[k] in list[1..];
      assert forall y :: y in list[1..] ==> y in list;
    }
  }

  lemma PredicateKeepsOrder(w: World, p: Predicate, list: seq<XNode>, rev: bool)
    ensures forall x :: x in ApplyPredicate(w, p, list) ==> x in list
    ensures XInOrder(rev, list) ==> XInOrder(rev, ApplyPredicate(w, p, list))
    ensures Distinct(list) ==> Distinct(ApplyPredicate(w, p, list))
  {
    hide XComes, Holds, ApplyGeneral;
    GeneralKeepsOrder(w, p.expr, list, 0, |list|, rev);
  }

  lemma {:induction false} PredicatesKeepOrder(w: World, ps: seq<Predicate>, list: seq<XNode>, rev: bool)
    ensures forall x :: x in ApplyPredicates(w, ps, list) ==> x in list
    ensures XInOrder(rev, list) ==> XInOrder(rev, ApplyPredicates(w, ps, list))
    decreases |ps|
  {
    hide XInOrder, Distinct;
    if ps != [] {
      PredicateKeepsOrder(w, ps[0], list, rev);
      PredicatesKeepOrder(w, ps[1..], ApplyPredicate(w, ps[0], list), rev);
    }
  }

  // ----- the order of an axis

  lemma AsNodesInOrder(axis: Axis, t: Node, n: Path, test: NodeTest)
    ensures XInOrder(IsReverse(axis), AsNodes(Selection(t, axis, n, test)))
  {
    hide Selection, Before;
    SelectionOrdered(t, axis, n, test);
    var r := Selection(t, axis, n, test);
    var s := AsNodes(r);
    forall i, j | 0 <= i < j < |s|
      ensures XComes(IsReverse(axis), s[i], s[j])
    {
      assert Comes(IsReverse(axis), r[i], r[j]);
    }
  }

  lemma NoneInOrder()
    ensures XInOrder(false, [])
  {
  }

  lemma AttributeInFront(p: Path, k: nat, rest: seq<XNode>)
    requires XInOrder(false, rest)
    requires forall x :: x in rest ==> x.OfAttribute? && x.path == p && k < x.index
    ensures XInOrder(false, [OfAttribute(p, k)] + rest) && [] + rest == rest
  {
    hide Before;
    assert forall i :: 0 <= i < |rest| ==> rest[i] in rest;
  }

  lemma {:induction false} AttributesInOrder(p: Path, attrs: seq<Attribute>, k: nat, test: NodeTest)
    ensures XInOrder(false, KeepAttributes(p, attrs, k, test))
    ensures forall x :: x in KeepAttributes(p, attrs, k, test) ==> x.OfAttribute? && x.path == p && k <= x.index
  {
    hide PassesAttribute, XInOrder, XComes;
    if attrs != [] {
      AttributesInOrder(p, attrs[1..], k + 1, test);
      AttributeInFront(p, k, KeepAttributes(p, attrs[1..], k + 1, test));
    } else {
      NoneInOrder();
    }
  }

  /** What an axis delivers for one node is in its order, for an attribute as well. */
  lemma StepInOrder(t: Node, axis: Axis, test: NodeTest, x: XNode)
    ensures XInOrder(IsReverse(axis), StepList(t, axis, test, x))
  {
    hide Selection, Before, KeepAttributes, SelfAttribute, AsNodes;
    if x.OfNode? {
      if axis == AttributeAxis {
        if ValidPath(t, x.path) {
          AttributesInOrder(x.path, NodeAt(t, x.path).attrs, 0, test);
        }
      } else {
        AsNodesInOrder(axis, t, x.path, test);
      }
    } else {
      AttributeStepInOrder(t, axis, test, x);
    }
  }

  lemma AttributeStepInOrder(t: Node, axis: Axis, test: NodeTest, x: XNode)
    requires x.OfAttribute?
    ensures XInOrder(IsReverse(axis), StepList(t, axis, test, x))
  {
    hide Selection, Before, AsNodes;
    match axis
    case Ancestor => AsNodesInOrder(AncestorOrSelf, t, x.path, test);
    case AncestorOrSelf => AttributeFirst(t, test, x);
    case Following => AsNodesInOrder(FollowingOfAttribute, t, x.path, test);
    case ParentAxis => AsNodesInOrder(Self, t, x.path, test);
    case Preceding => AsNodesInOrder(Preceding, t, x.path, test);
    case _ =>
  }

  /** An attribute comes after its element and the ancestors of that. */
  lemma AttributeFirst(t: Node, test: NodeTest, x: XNode)
    requires x.OfAttribute?
    ensures XInOrder(true, SelfAttribute(t, x, test) + AsNodes(Selection(t, AncestorOrSelf, x.path, test)))
  {
    hide Selection, Before, ValidPath, NodeAt;
    AsNodesInOrder(AncestorOrSelf, t, x.path, test);
    SelectionMembers(t, AncestorOrSelf, test, x.path);
    var s := AsNodes(Selection(t, AncestorOrSelf, x.path, test));
    forall i | 0 <= i < |s|
      ensures XComes(true, x, s[i])
    {
      assert s[i] in s;
      if s[i].path != x.path {
        PrefixBefore(s[i].path, x.path);
      }
    }
  }

  // ----- predicates that may stop

  /** Where the loop over a list stands: what is kept of the nodes before i, and what there is to
      keep from there on. */
  lemma GeneralStep(w: World, p: Expr, list: seq<XNode>, i: nat)
    requires i < |list|
    ensures ApplyGeneral(w, p, list[i..], i, |list|) ==
            (if Holds(w, p, Context(Just(list[i]), i + 1, |list|)) then [list[i]] else []) +
            ApplyGeneral(w, p, list[i + 1..], i + 1, |list|)
  {
    hide Holds;
    assert list[i..][1..] == list[i + 1..];
  }

  lemma NothingLeft(w: World, p: Expr, i: nat, size: nat)
    ensures ApplyGeneral(w, p, [], i, size) == []
  {
  }

  lemma PredicatesStep(w: World, ps: seq<Predicate>, i: nat, list: seq<XNode>)
    requires i < |ps|
    ensures ApplyPredicates(w, ps[i..], list) == ApplyPredicates(w, ps[i + 1..], ApplyPredicate(w, ps[i], list))
    ensures i + 1 == |ps| ==> ApplyPredicates(w, ps[i..], list) == ApplyPredicate(w, ps[i], list)
  {
    hide ApplyPredicate;
    assert ps[i..][1..] == ps[i + 1..];
  }

  // ----- a step

  function AxisType(axis: Axis): N.SetType {
    if IsReverse(axis) then N.TypeSortedReverse else N.TypeSorted
  }

  lemma NoPredicates(w: World, axis: Axis, test: NodeTest, x: XNode, cut: bool)
    ensures First(StepFrom(w, axis, test, [], x), cut) == First(StepList(w.doc, axis, test, x),
            Once(axis, test, []) || cut)
  {
    hide StepList;
  }

  lemma StepFromInOrder(w: World, axis: Axis, test: NodeTest, ps: seq<Predicate>, x: XNode)
    ensures XInOrder(IsReverse(axis), StepFrom(w, axis, test, ps, x))
    ensures forall y :: y in StepFrom(w, axis, test, ps, x) ==> y in StepList(w.doc, axis, test, x)
  {
    hide StepList, ApplyPredicates, XInOrder;
    StepInOrder(w.doc, axis, test, x);
    var list := StepList(w.doc, axis, test, x);
    OrderedCut(IsReverse(axis), list, Once(axis, test, ps));
    PredicatesKeepOrder(w, ps, First(list, Once(axis, test, ps)), IsReverse(axis));
  }

  /** The child, attribute and self axes lead to a node from one node only. */
  function Owner(axis: Axis, y: XNode): XNode {
    if axis == Child then (if y.path == [] then y else OfNode(Up(y.path)))
    else if axis == AttributeAxis then OfNode(y.path)
    else y
  }

  lemma OwnedBy(t: Node, axis: Axis, test: NodeTest, x: XNode, y: XNode)
    requires axis in {Child, AttributeAxis, Self} && y in StepList(t, axis, test, x)
    ensures Owner(axis, y) == x
  {
    hide Selection, ValidPath, NodeAt;
    if x.OfNode? {
      if axis == AttributeAxis {
        if ValidPath(t, x.path) {
          AttributesInOrder(x.path, NodeAt(t, x.path).attrs, 0, test);
        }
      } else {
        SelectionMembers(t, axis, test, x.path);
      }
    }
  }

  lemma IntoUnion(w: World, axis: Axis, test: NodeTest, ps: seq<Predicate>, contexts: set<XNode>, x: XNode, y: XNode)
    requires x in contexts && y in StepFrom(w, axis, test, ps, x)
    ensures y in StepUnion(w, axis, test, ps, contexts)
  {
    hide StepFrom;
  }

  lemma FromUnion(w: World, axis: Axis, test: NodeTest, ps: seq<Predicate>, contexts: set<XNode>, y: XNode)
    returns (x: XNode)
    requires y in StepUnion(w, axis, test, ps, contexts)
    ensures x in contexts && y in StepFrom(w, axis, test, ps, x)
  {
    hide StepFrom;
    x :| x in contexts && y in StepFrom(w, axis, test, ps, x);
  }

  lemma OneMoreContext(s: seq<XNode>, i: nat)
    requires i < |s|
    ensures AsSet(s[..i + 1]) == AsSet(s[..i]) + {s[i]}
  {
    assert s[..i + 1] == s[..i] + [s[i]];
  }

  lemma UnionGrows(w: World, axis: Axis, test: NodeTest, ps: seq<Predicate>, s: seq<XNode>, i: nat)
    requires i < |s|
    ensures StepUnion(w, axis, test, ps, AsSet(s[..i + 1])) ==
            StepUnion(w, axis, test, ps, AsSet(s[..i])) + AsSet(StepFrom(w, axis, test, ps, s[i]))
  {
    hide StepFrom, StepUnion;
    var a, b := AsSet(s[..i]), AsSet(s[..i + 1]);
    OneMoreContext(s, i);
    hide AsSet;
    forall y | y in StepUnion(w, axis, test, ps, b)
      ensures y in StepUnion(w, axis, test, ps, a) || y in StepFrom(w, axis, test, ps, s[i])
    {
      var x := FromUnion(w, axis, test, ps, b, y);
      if x in a {
        IntoUnion(w, axis, test, ps, a, x, y);
      }
    }
    forall y | y in StepUnion(w, axis, test, ps, a)
      ensures y in StepUnion(w, axis, test, ps, b)
    {
      var x := FromUnion(w, axis, test, ps, a, y);
      IntoUnion(w, axis, test, ps, b, x, y);
    }
    forall y | y in StepFrom(w, axis, test, ps, s[i])
      ensures y in StepUnion(w, axis, test, ps, b)
    {
      IntoUnion(w, axis, test, ps, b, s[i], y);
    }
    AsSetIs(StepFrom(w, axis, test, ps, s[i]));
  }

  lemma AsSetIs(s: seq<XNode>)
    ensures forall y :: y in AsSet(s) <==> y in s
    ensures AsSet(s) == {} <==> s == []
  {
    assert s != [] ==> s[0] in AsSet(s);
  }

  /** The nodes collected from the first i of s, and the order they are known to be in. Those of the
      self axis stay in the order of s; those of another axis are in order until a second node adds to
      them; those of the child and attribute axes are different in any case. */
  ghost predicate Collecting(axis: Axis, s: seq<XNode>, i: nat, start: N.SetType, ns: seq<XNode>, ty: N.SetType)
    requires i <= |s|
  {
    if axis == Self then ty == start && Ordered(ns, ty) && forall y :: y in ns ==> y in s[..i]
    else
      (ty == AxisType(axis) || ty == N.TypeUnsorted) &&
      (ty == AxisType(axis) ==> XInOrder(IsReverse(axis), ns)) &&
      (axis in {Child, AttributeAxis} ==> Distinct(ns) && forall y :: y in ns ==> Owner(axis, y) in s[..i])
  }

  lemma CollectSelf(s: seq<XNode>, i: nat, start: N.SetType, ns: seq<XNode>, piece: seq<XNode>)
    requires i < |s| && Distinct(s) && Ordered(s, start)
    requires Collecting(Self, s, i, start, ns, start) && |piece| <= 1 && forall y :: y in piece ==> y == s[i]
    ensures Collecting(Self, s, i + 1, start, ns + piece, start)
  {
    hide XBefore;
    assert s[..i + 1] == s[..i] + [s[i]];
    if piece == [] {
      assert ns + piece == ns;
    } else {
      assert piece[0] in piece;
      assert piece == [s[i]];
      forall k | 0 <= k < |ns|
        ensures exists j :: 0 <= j < i && s[j] == ns[k]
      {
        assert ns[k] in ns;
        assert ns[k] in s[..i];
      }
    }
  }

  lemma CollectOther(axis: Axis, t: Node, test: NodeTest, s: seq<XNode>, i: nat, start: N.SetType,
                     ns: seq<XNode>, ty: N.SetType, piece: seq<XNode>)
    requires axis != Self && i < |s| && Distinct(s) && Collecting(axis, s, i, start, ns, ty)
    requires XInOrder(IsReverse(axis), piece) && forall y :: y in piece ==> y in StepList(t, axis, test, s[i])
    ensures Collecting(axis, s, i + 1, start, ns + piece, if ns != [] then N.TypeUnsorted else ty)
  {
    hide XComes, StepList, IsReverse;
    assert s[..i + 1] == s[..i] + [s[i]];
    if axis in {Child, AttributeAxis} {
      OrderedDistinct(IsReverse(axis), piece);
      forall y | y in piece
        ensures Owner(axis, y) == s[i]
      {
        OwnedBy(t, axis, test, s[i], y);
      }
      OwnersDiffer(axis, s, i, ns, piece);
    }
    if ns == [] {
      assert ns + piece == piece;
    }
  }

  lemma OwnersDiffer(axis: Axis, s: seq<XNode>, i: nat, ns: seq<XNode>, piece: seq<XNode>)
    requires i < |s| && Distinct(s) && Distinct(ns) && Distinct(piece)
    requires forall y :: y in ns ==> Owner(axis, y) in s[..i]
    requires forall y :: y in piece ==> Owner(axis, y) == s[i]
    ensures Distinct(ns + piece)
  {
    hide Owner;
    assert s[i] !in s[..i];
    forall j, k | 0 <= j < k < |ns + piece|
      ensures (ns + piece)[j] != (ns + piece)[k]
    {
      if j < |ns| <= k {
        assert ns[j] in ns && piece[k - |ns|] in piece;
      }
    }
  }

  lemma PieceInOrder(w: World, axis: Axis, test: NodeTest, ps: seq<Predicate>, x: XNode, cut: bool)
    ensures var piece := First(StepFrom(w, axis, test, ps, x), cut);
      XInOrder(IsReverse(axis), piece) && (forall y :: y in piece ==> y in StepList(w.doc, axis, test, x)) &&
      (axis == Self ==> |piece| <= 1 && forall y :: y in piece ==> y == x)
  {
    hide StepFrom, StepList, XBefore;
    var piece := First(StepFrom(w, axis, test, ps, x), cut);
    StepFromInOrder(w, axis, test, ps, x);
    OrderedCut(IsReverse(axis), StepFrom(w, axis, test, ps, x), cut);
    assert forall y :: y in piece ==> y in StepFrom(w, axis, test, ps, x);
    if axis == Self {
      forall y | y in piece
        ensures y == x
      {
        OwnedBy(w.doc, Self, test, x, y);
      }
      OrderedDistinct(false, piece);
      assert |piece| > 1 ==> piece[0] != piece[1];
      forall k | 0 <= k < |piece|
        ensures piece[k] == x
      {
        assert piece[k] in piece;
      }
    }
  }

  lemma CollectOne(w: World, axis: Axis, test: NodeTest, ps: seq<Predicate>, s: seq<XNode>, i: nat, start: N.SetType,
                   ns: seq<XNode>, was: N.SetType, ty: N.SetType, piece: seq<XNode>, cut: bool, mode: Mode)
    requires i < |s| && Distinct(s) && (if axis == Self then Ordered(s, start) else start == AxisType(axis))
    requires Collecting(axis, s, i, start, ns, was) && ty == if axis != Self && ns != [] then N.TypeUnsorted else was
    requires piece == First(StepFrom(w, axis, test, ps, s[i]), cut)
    requires cut == EvalOnce(if ps == [] then AxisType(axis) else ty, mode)
    requires Delivers(StepUnion(w, axis, test, ps, AsSet(s[..i])), ns, mode)
    ensures Collecting(axis, s, i + 1, start, ns + piece, ty)
    ensures Delivers(StepUnion(w, axis, test, ps, AsSet(s[..i + 1])), ns + piece, mode)
  {
    hide StepFrom, StepList, XInOrder, Delivers, Distinct, StepUnion, Ordered, EvalOnce, First;
    PieceInOrder(w, axis, test, ps, s[i], cut);
    if axis == Self {
      CollectSelf(s, i, start, ns, piece);
    } else {
      CollectOther(axis, w.doc, test, s, i, start, ns, was, piece);
    }
    StepFromInOrder(w, axis, test, ps, s[i]);
    DeliversCut(StepFrom(w, axis, test, ps, s[i]), if ps == [] then AxisType(axis) else ty, mode);
    DeliversUnion(StepUnion(w, axis, test, ps, AsSet(s[..i])), ns, AsSet(StepFrom(w, axis, test, ps, s[i])), piece,
      mode);
    UnionGrows(w, axis, test, ps, s, i);
  }

  lemma NothingCollected(w: World, axis: Axis, test: NodeTest, ps: seq<Predicate>, s: seq<XNode>, start: N.SetType,
                         mode: Mode)
    requires axis != Self ==> start == AxisType(axis)
    ensures Collecting(axis, s, 0, start, [], start)
    ensures Delivers(StepUnion(w, axis, test, ps, AsSet(s[..0])), [], mode)
  {
    hide StepFrom;
    assert s[..0] == [];
    assert StepUnion(w, axis, test, ps, AsSet(s[..0])) == {};
  }

  lemma CollectedOrdered(axis: Axis, s: seq<XNode>, start: N.SetType, ns: seq<XNode>, ty: N.SetType)
    requires Collecting(axis, s, |s|, start, ns, ty)
    requires axis in {Child, AttributeAxis, Self} || ty != N.TypeUnsorted
    ensures Ordered(ns, ty)
  {
    hide XInOrder, Distinct;
  }

  lemma UnsortedIfDistinct(s: seq<XNode>)
    requires Distinct(s)
    ensures Ordered(s, N.TypeUnsorted)
  {
  }

  /** The lists that the world makes of a set are what sorting and dropping duplicates make of it. */
  ghost predicate ListingOk(w: World) {
    (forall s :: XInOrder(false, w.documentOrder(s))) && forall s :: Distinct(w.anyOrder(s))
  }

  method Deduplicated(w: World, ghost full: set<XNode>, ns: seq<XNode>, mode: Mode) returns (r: seq<XNode>)
    requires ListingOk(w) && WorldOk(w) && Delivers(full, ns, mode)
    ensures Distinct(r) && Delivers(full, r, mode)
  {
    hide XInOrder, Distinct, Delivers;
    r := w.anyOrder(AsSet(ns));
    DeliversSame(full, ns, r, mode);
  }

  // ----- the evaluation

  /** What the classes of predicates promise; a fresh predicate promises nothing. */
  predicate ClassOk(p: Predicate) {
    (p.cls == PosInv ==> IsPosInvExpr(p.expr) && StaticType(p.expr) != TNumber) &&
    (p.cls == ConstantOne ==> p.expr == NumberConstant(1.0))
  }

  /** The node sets of variables are lists without duplicates, in the order they claim. */
  ghost predicate VariablesOk(w: World, listed: string -> Raw) {
    forall name :: w.variables(name).Nodes? ==>
      Ordered(listed(name).nodes, listed(name).ty) && AsSet(listed(name).nodes) == w.variables(name).nodes
  }

  lemma DeliveredAll(full: set<XNode>, r: Raw, mode: Mode)
    requires Ordered(r.nodes, r.ty) && AsSet(r.nodes) == full
    ensures Delivered(full, r, mode)
  {
    hide Ordered;
    AsSetIs(r.nodes);
    if full != {} {
      var x :| x in full;
      assert x in r.nodes;
    }
  }

  lemma AllDelivered(full: set<XNode>, r: Raw)
    requires Delivered(full, r, EvalAll)
    ensures AsSet(r.nodes) == full && Ordered(r.nodes, r.ty)
  {
    hide Ordered;
  }

  lemma OrderedIsDistinct(s: seq<XNode>, ty: N.SetType)
    requires Ordered(s, ty)
    ensures Distinct(s)
  {
    hide XInOrder, Distinct;
    match ty
    case TypeUnsorted =>
    case TypeSorted => OrderedDistinct(false, s);
    case TypeSortedReverse => OrderedDistinct(true, s);
  }

  lemma OrderedKept(w: World, p: Predicate, list: seq<XNode>, ty: N.SetType, once: bool)
    requires Ordered(list, ty)
    ensures Ordered(First(ApplyPredicate(w, p, list), once), ty)
  {
    hide ApplyPredicate, XComes;
    PredicateKeepsOrder(w, p, list, ty == N.TypeSortedReverse);
    var kept := ApplyPredicate(w, p, list);
    if ty != N.TypeUnsorted {
      OrderedCut(ty == N.TypeSortedReverse, kept, once);
    }
  }

  /** A filter over a list that holds all of the set. */
  lemma FilterDelivers(w: World, p: Predicate, list: seq<XNode>, ty: N.SetType, mode: Mode)
    requires Ordered(list, ty)
    ensures Delivered(AsSet(ApplyPredicate(w, p, list)), Raw(First(ApplyPredicate(w, p, list), EvalOnce(ty, mode)),
            ty), mode)
  {
    hide ApplyPredicate, XInOrder, Delivers, EvalOnce;
    OrderedKept(w, p, list, ty, EvalOnce(ty, mode));
    PredicateKeepsOrder(w, p, list, false);
    DeliversCut(ApplyPredicate(w, p, list), ty, mode);
  }

  lemma SortedUnique(s: seq<XNode>, r: seq<XNode>)
    requires XInOrder(false, s) && XInOrder(false, r) && AsSet(s) == AsSet(r)
    ensures s == r
    decreases |s|
  {
    AsSetIs(s);
    AsSetIs(r);
    if s != [] {
      HeadIsFirst(s);
      HeadIsFirst(r);
      FirstUnique(AsSet(s), s[0], r[0]);
      TailSet(s);
      TailSet(r);
      SortedUnique(s[1..], r[1..]);
      assert s == [s[0]] + s[1..] && r == [r[0]] + r[1..];
    }
  }

  lemma HeadIsFirst(s: seq<XNode>)
    requires XInOrder(false, s) && s != []
    ensures IsFirst(AsSet(s), s[0])
  {
    hide XBefore;
    assert s[0] in s;
    forall y | y in s
      ensures y == s[0] || XBefore(s[0], y)
    {
      var i :| 0 <= i < |s| && s[i] == y;
      assert i > 0 ==> XComes(false, s[0], s[i]);
    }
  }

  lemma TailSet(s: seq<XNode>)
    requires XInOrder(false, s) && s != []
    ensures AsSet(s[1..]) == AsSet(s) - {s[0]} && XInOrder(false, s[1..])
  {
    hide XComes;
    OrderedDistinct(false, s);
    assert s == [s[0]] + s[1..];
    assert s[0] !in s[1..];
  }

  /** The first node is all that [1] needs. */
  lemma FirstDecides(w: World, p: Predicate, full: set<XNode>, nodes: seq<XNode>)
    requires WorldOk(w) && ListingOk(w) && p.cls == ConstantOne && p.expr == NumberConstant(1.0)
    requires Delivers(full, nodes, EvalFirst)
    ensures ApplyPredicate(w, p, w.documentOrder(AsSet(nodes))) == ApplyPredicate(w, p, w.documentOrder(full))
  {
    hide XInOrder, XBefore;
    var s, r := w.documentOrder(AsSet(nodes)), w.documentOrder(full);
    AsSetIs(s);
    AsSetIs(r);
    assert AsSet(s) == AsSet(nodes) && AsSet(r) == full;
    if full == {} {
      AsSetIs(nodes);
      assert forall y :: y !in nodes;
      assert AsSet(nodes) == {};
    } else {
      var x := FirstExists(full);
      assert x in nodes;
      assert x in s && x in r;
      HeadIsFirst(s);
      HeadIsFirst(r);
      FirstUnique(full, r[0], x);
      assert IsFirst(AsSet(nodes), x);
      FirstUnique(AsSet(nodes), s[0], x);
    }
  }

  /** Whatever has been cut short in front of a filter makes no difference to it. */
  lemma FilterSame(w: World, p: Predicate, full: set<XNode>, left: Raw, r: Raw)
    requires WorldOk(w) && ListingOk(w) && ClassOk(p) && WellTyped(w, p.expr)
    requires Delivered(full, left, if p.cls == ConstantOne then EvalFirst else EvalAll)
    requires r == if p.cls == PosInv then left else Raw(w.documentOrder(AsSet(left.nodes)), N.TypeSorted)
    ensures Ordered(r.nodes, r.ty)
    ensures AsSet(ApplyPredicate(w, p, r.nodes)) ==
            AsSet(ApplyPredicate(w, p, if p.cls == PosInv then w.anyOrder(full) else w.documentOrder(full)))
  {
    hide XInOrder, ApplyGeneral, ApplyConstant, WellTyped;
    if p.cls == ConstantOne {
      FirstDecides(w, p, full, left.nodes);
    } else {
      AllDelivered(full, left);
      if p.cls == PosInv {
        var any := w.anyOrder(full);
        GeneralMembers(w, p.expr, left.nodes, 0, |left.nodes|);
        GeneralMembers(w, p.expr, any, 0, |any|);
        AsSetIs(left.nodes);
      }
    }
  }

  method EvalUnion(w: World, ghost a: set<XNode>, ls: Raw, ghost b: set<XNode>, rs: Raw, mode: Mode) returns (r: Raw)
    requires WorldOk(w) && ListingOk(w) && Delivered(a, ls, mode) && Delivered(b, rs, mode)
    ensures Delivered(a + b, r, mode)
  {
    hide Delivers, ListingOk, WorldOk, Distinct;
    DeliversUnion(b, rs.nodes, a, ls.nodes, mode);
    assert b + a == a + b;
    var ns := Deduplicated(w, a + b, rs.nodes + ls.nodes, mode);
    UnsortedIfDistinct(ns);
    r := Raw(ns, N.TypeUnsorted);
  }

  // ----- what callers make of it

  /** xpath_first. */
  method FirstNode(r: Raw) returns (x: Maybe<XNode>)
    requires Ordered(r.nodes, r.ty)
    ensures r.nodes == [] <==> x.Nothing?
    ensures x.Just? ==> IsFirst(AsSet(r.nodes), x.value)
  {
    hide XBefore;
    if r.nodes == [] {
      return Nothing;
    }
    match r.ty
    case TypeSorted =>
      HeadIsFirst(r.nodes);
      x := Just(r.nodes[0]);
    case TypeSortedReverse =>
      LastIsFirst(r.nodes);
      x := Just(r.nodes[|r.nodes| - 1]);
    case TypeUnsorted =>
      var least := r.nodes[0];
      var i := 1;
      while i < |r.nodes|
        invariant 1 <= i <= |r.nodes| && least in r.nodes
        invariant forall j :: 0 <= j < i ==> least == r.nodes[j] || XBefore(least, r.nodes[j])
      {
        forall j | 0 <= j < i
          ensures XBefore(r.nodes[i], least) ==> XBefore(r.nodes[i], r.nodes[j])
          ensures least == r.nodes[i] || XBefore(r.nodes[i], least) || XBefore(least, r.nodes[i])
        {
          XBeforeStrict(r.nodes[i], least, r.nodes[j]);
        }
        if XBefore(r.nodes[i], least) {
          least := r.nodes[i];
        }
        i := i + 1;
      }
      x := Just(least);
  }

  lemma LastIsFirst(s: seq<XNode>)
    requires XInOrder(true, s) && s != []
    ensures IsFirst(AsSet(s), s[|s| - 1])
  {
    hide XBefore;
    var n := |s| - 1;
    assert s[n] in s;
    forall y | y in s
      ensures y == s[n] || XBefore(s[n], y)
    {
      var i :| 0 <= i < |s| && s[i] == y;
      assert i < n ==> XComes(true, s[i], s[n]);
    }
  }

  lemma FirstOfDelivered(full: set<XNode>, s: seq<XNode>, x: Maybe<XNode>)
    requires Delivers(full, s, EvalFirst) && (s == [] <==> x.Nothing?)
    requires x.Just? ==> IsFirst(AsSet(s), x.value)
    ensures x.Nothing? <==> full == {}
    ensures x.Just? ==> IsFirst(full, x.value)
  {
    hide XBefore;
    AsSetIs(s);
    if full != {} {
      var y := FirstExists(full);
      assert y in s;
      assert IsFirst(AsSet(s), y);
      FirstUnique(AsSet(s), x.value, y);
    } else {
      assert forall y :: y !in s;
      assert AsSet(s) == {};
    }
  }

}
