/** Laws of XPath that are not said by the evaluation itself: where absolute paths start, how the axes
    mirror and complete each other, for attributes too, and which kinds of nodes the tests tell apart. */
module XPathLaws {
  import opened XmlTree
  import opened XmlAxes
  import opened DocumentOrder
  import opened Basics
  import opened XPathOptimizer
  import M = XPathModes
  import XmlReading

  // ----- absolute paths

  /** A path, or a union of paths, each of which begins with `/`. */
  predicate Absolute(e: Expr)
    decreases e
  {
    match e
    case Root => true
    case Union(l, r) => Absolute(l) && Absolute(r)
    case Step(input, _, _, _) => input.Just? && Absolute(input.value)
    case Filter(l, _) => Absolute(l)
    case _ => false
  }

  /** From every context that has a node an absolute path has the same value. */
  lemma {:induction false} AbsoluteIgnoresContext(w: World, e: Expr, c: Context, c': Context)
    requires Absolute(e) && c.node.Just? && c'.node.Just?
    ensures Eval(w, e, c) == Eval(w, e, c')
    decreases e
  {
    hide StepUnion, ApplyPredicate;
    match e
    case Root =>
    case Union(l, r) =>
      AbsoluteIgnoresContext(w, l, c, c');
      AbsoluteIgnoresContext(w, r, c, c');
    case Step(input, _, _, _) =>
      AbsoluteIgnoresContext(w, input.value, c, c');
    case Filter(l, _) =>
      AbsoluteIgnoresContext(w, l, c, c');
  }

  /** `/` is the one node that every node of the document has on its ancestor-or-self axis. */
  lemma RootIsOnTop(w: World, c: Context, y: XNode)
    requires c.node.Just?
    ensures y in NodesOf(Eval(w, Root, c)) <==>
            ValidXNode(w.doc, y) &&
            forall x :: ValidXNode(w.doc, x) ==> y in StepList(w.doc, AncestorOrSelf, TestNode, x)
  {
    hide StepList, ValidPath;
    var root := OfNode([]);
    RootIsValid(w.doc);
    forall x | ValidXNode(w.doc, x)
      ensures root in StepList(w.doc, AncestorOrSelf, TestNode, x)
    {
      AboveOf(w.doc, x, root);
    }
    AboveOf(w.doc, root, y);
  }

  lemma RootIsValid(t: Node)
    ensures ValidXNode(t, OfNode([]))
  {
  }

  lemma AboveOf(t: Node, x: XNode, y: XNode)
    requires ValidXNode(t, x) && ValidXNode(t, OfNode([]))
    ensures OfNode([]) in StepList(t, AncestorOrSelf, TestNode, x)
    ensures x == OfNode([]) && y in StepList(t, AncestorOrSelf, TestNode, x) ==> y == OfNode([])
  {
    hide Selection, ValidPath;
    SelectionMembers(t, AncestorOrSelf, TestNode, x.path);
    assert OnAxis(AncestorOrSelf, x.path, []);
    assert y.OfNode? && x == OfNode([]) && y.path <= [] ==> y.path == [];
  }

  // ----- unions

  /** A step from a union is the union of the steps. */
  lemma StepOverUnion(w: World, l: Expr, r: Expr, axis: Axis, test: NodeTest, ps: seq<Predicate>, c: Context)
    ensures Eval(w, Step(Just(Union(l, r)), axis, test, ps), c) ==
            Eval(w, Union(Step(Just(l), axis, test, ps), Step(Just(r), axis, test, ps)), c)
  {
    hide StepUnion;
    var a, b := NodesOf(Eval(w, l, c)), NodesOf(Eval(w, r, c));
    StepUnionOver(w, axis, test, ps, a, b);
  }

  lemma StepUnionOver(w: World, axis: Axis, test: NodeTest, ps: seq<Predicate>, a: set<XNode>, b: set<XNode>)
    ensures StepUnion(w, axis, test, ps, a + b) == StepUnion(w, axis, test, ps, a) + StepUnion(w, axis, test, ps, b)
  {
    hide StepUnion;
    forall y
      ensures y in StepUnion(w, axis, test, ps, a + b) <==>
              y in StepUnion(w, axis, test, ps, a) + StepUnion(w, axis, test, ps, b)
    {
      StepUnionHas(w, axis, test, ps, a + b, y);
      StepUnionHas(w, axis, test, ps, a, y);
      StepUnionHas(w, axis, test, ps, b, y);
    }
  }

  lemma StepUnionHas(w: World, axis: Axis, test: NodeTest, ps: seq<Predicate>, s: set<XNode>, y: XNode)
    ensures y in StepUnion(w, axis, test, ps, s) <==> exists x :: x in s && y in StepFrom(w, axis, test, ps, x)
  {
    hide StepFrom;
  }

  /** descendant-or-self is the union of self and descendant, from any nodes and attributes, and
      ancestor-or-self that of self and ancestor. */
  lemma OrSelfIsUnion(w: World, e: Expr, c: Context)
    requires forall x :: x in NodesOf(Eval(w, e, c)) ==> ValidXNode(w.doc, x)
    ensures Eval(w, Step(Just(e), DescendantOrSelf, TestNode, []), c) ==
            Eval(w, Union(Step(Just(e), Self, TestNode, []), Step(Just(e), Descendant, TestNode, [])), c)
    ensures Eval(w, Step(Just(e), AncestorOrSelf, TestNode, []), c) ==
            Eval(w, Union(Step(Just(e), Self, TestNode, []), Step(Just(e), Ancestor, TestNode, [])), c)
  {
    hide Eval, StepUnion, StepList, AsSet, ValidXNode;
    var s := NodesOf(Eval(w, e, c));
    forall x | x in s
      ensures AsSet(StepList(w.doc, DescendantOrSelf, TestNode, x)) ==
              AsSet(StepList(w.doc, Self, TestNode, x)) + AsSet(StepList(w.doc, Descendant, TestNode, x))
      ensures AsSet(StepList(w.doc, AncestorOrSelf, TestNode, x)) ==
              AsSet(StepList(w.doc, Self, TestNode, x)) + AsSet(StepList(w.doc, Ancestor, TestNode, x))
    {
      OrSelfOf(w.doc, x);
    }
    OrSelfUnion(w, s, DescendantOrSelf, Descendant);
    OrSelfUnion(w, s, AncestorOrSelf, Ancestor);
    UnionOfSteps(w, e, DescendantOrSelf, Descendant, c);
    UnionOfSteps(w, e, AncestorOrSelf, Ancestor, c);
  }

  lemma UnionOfSteps(w: World, e: Expr, both: Axis, axis: Axis, c: Context)
    ensures var s := NodesOf(Eval(w, e, c));
      Eval(w, Step(Just(e), both, TestNode, []), c) == Nodes(StepUnion(w, both, TestNode, [], s)) &&
      Eval(w, Union(Step(Just(e), Self, TestNode, []), Step(Just(e), axis, TestNode, [])), c) ==
        Nodes(StepUnion(w, Self, TestNode, [], s) + StepUnion(w, axis, TestNode, [], s))
  {
    hide StepUnion;
  }

  lemma OrSelfOf(t: Node, x: XNode)
    requires ValidXNode(t, x)
    ensures AsSet(StepList(t, DescendantOrSelf, TestNode, x)) ==
            AsSet(StepList(t, Self, TestNode, x)) + AsSet(StepList(t, Descendant, TestNode, x))
    ensures AsSet(StepList(t, AncestorOrSelf, TestNode, x)) ==
            AsSet(StepList(t, Self, TestNode, x)) + AsSet(StepList(t, Ancestor, TestNode, x))
  {
    hide Selection;
    if x.OfNode? {
      hide AsNodes;
      CountSelf(t, x.path);
      OrSelf(t, x.path);
      AsNodesSplit(x.path, Selection(t, Descendant, x.path, TestNode));
      AsNodesSplit(x.path, Selection(t, Ancestor, x.path, TestNode));
    } else {
      AttributeIsLeaf(t, x.path, x.index, TestNode);
    }
  }

  lemma AsNodesSplit(n: Path, r: seq<Path>)
    ensures AsNodes([n] + r) == AsNodes([n]) + AsNodes(r)
  {
  }

  ghost predicate LeadsTo(t: Node, axis: Axis, s: set<XNode>, y: XNode) {
    exists x :: x in s && y in AsSet(StepList(t, axis, TestNode, x))
  }

  lemma PlainUnion(w: World, axis: Axis, s: set<XNode>, y: XNode)
    requires axis != AttributeAxis
    ensures y in StepUnion(w, axis, TestNode, [], s) <==> LeadsTo(w.doc, axis, s, y)
  {
    hide StepFrom, StepList;
    if y in StepUnion(w, axis, TestNode, [], s) {
      var x :| x in s && y in StepFrom(w, axis, TestNode, [], x);
      PlainStep(w, axis, x);
      assert y in AsSet(StepList(w.doc, axis, TestNode, x));
    }
    if LeadsTo(w.doc, axis, s, y) {
      var x :| x in s && y in AsSet(StepList(w.doc, axis, TestNode, x));
      PlainStep(w, axis, x);
      assert y in StepFrom(w, axis, TestNode, [], x);
    }
  }

  lemma OrSelfUnion(w: World, s: set<XNode>, both: Axis, axis: Axis)
    requires both != AttributeAxis && axis != AttributeAxis
    requires forall x :: x in s ==>
               AsSet(StepList(w.doc, both, TestNode, x)) ==
               AsSet(StepList(w.doc, Self, TestNode, x)) + AsSet(StepList(w.doc, axis, TestNode, x))
    ensures StepUnion(w, both, TestNode, [], s) ==
            StepUnion(w, Self, TestNode, [], s) + StepUnion(w, axis, TestNode, [], s)
  {
    hide StepUnion, StepList, AsSet, LeadsTo;
    forall y
      ensures y in StepUnion(w, both, TestNode, [], s) <==>
              y in StepUnion(w, Self, TestNode, [], s) + StepUnion(w, axis, TestNode, [], s)
    {
      PlainUnion(w, both, s, y);
      PlainUnion(w, Self, s, y);
      PlainUnion(w, axis, s, y);
      LeadsByEither(w.doc, both, axis, s, y);
    }
  }

  lemma LeadsByEither(t: Node, both: Axis, axis: Axis, s: set<XNode>, y: XNode)
    requires forall x :: x in s ==>
               AsSet(StepList(t, both, TestNode, x)) ==
               AsSet(StepList(t, Self, TestNode, x)) + AsSet(StepList(t, axis, TestNode, x))
    ensures LeadsTo(t, both, s, y) <==> LeadsTo(t, Self, s, y) || LeadsTo(t, axis, s, y)
  {
    hide StepList, AsSet;
  }

  // ----- axes

  predicate HasInverse(axis: Axis) {
    axis != AttributeAxis && axis != FollowingOfAttribute
  }

  function Inverse(axis: Axis): Axis
    requires HasInverse(axis)
  {
    match axis
    case Ancestor => Descendant
    case AncestorOrSelf => DescendantOrSelf
    case Child => ParentAxis
    case Descendant => Ancestor
    case DescendantOrSelf => AncestorOrSelf
    case Following => Preceding
    case FollowingSibling => PrecedingSibling
    case ParentAxis => Child
    case Preceding => Following
    case PrecedingSibling => FollowingSibling
    case Self => Self
  }

  /** A node is on an axis of another exactly when that is on the inverse axis of it. */
  lemma InverseAxis(t: Node, axis: Axis, n: Path, q: Path)
    requires HasInverse(axis) && ValidPath(t, n) && ValidPath(t, q)
    ensures q in Selection(t, axis, n, TestNode) <==> n in Selection(t, Inverse(axis), q, TestNode)
  {
    hide Selection;
    SelectionSpec(t, axis, n, TestNode);
    SelectionSpec(t, Inverse(axis), q, TestNode);
  }

  /** The child axis holds one node for each child, in their order. */
  lemma ChildrenInOrder(t: Node, n: Path)
    requires ValidPath(t, n)
    ensures var r := Selection(t, Child, n, TestNode);
            |r| == |NodeAt(t, n).children| && forall i :: 0 <= i < |r| ==> r[i] == n + [i]
  {
    hide Selection, Selected, Before;
    var k := |NodeAt(t, n).children|;
    var all := seq(k, i => n + [i]);
    SelectionSpec(t, Child, n, TestNode);
    forall q
      ensures q in Selection(t, Child, n, TestNode) <==> q in all
    {
      ChildSelected(t, n, q);
      if Selected(t, Child, n, TestNode, q) {
        assert q == all[Last(q)];
      }
    }
    forall i, j | 0 <= i < j < k
      ensures Before(all[i], all[j])
    {
      BeforeSibling(n, i, j);
    }
    SortedUnique(Selection(t, Child, n, TestNode), all);
  }

  lemma ChildSelected(t: Node, n: Path, q: Path)
    requires ValidPath(t, n)
    ensures Selected(t, Child, n, TestNode, q) ==> q != [] && q == n + [Last(q)] && Last(q) < |NodeAt(t, n).children|
    ensures forall i: nat :: i < |NodeAt(t, n).children| && q == n + [i] ==> Selected(t, Child, n, TestNode, q)
  {
    if q != [] {
      assert q == Up(q) + [Last(q)];
      ChildPath(t, n, Last(q));
    }
  }

  lemma {:induction false} BeforeSibling(n: Path, i: nat, j: nat)
    requires i < j
    ensures Before(n + [i], n + [j])
  {
    if n != [] {
      BeforeSibling(n[1..], i, j);
      assert (n + [i])[1..] == n[1..] + [i] && (n + [j])[1..] == n[1..] + [j];
    }
  }

  /** The siblings before a node, nearest first, the node, and those after it are its parent's children. */
  lemma SiblingsInOrder(t: Node, n: Path)
    requires ValidPath(t, n) && n != []
    ensures Reverse(Selection(t, PrecedingSibling, n, TestNode)) + [n] + Selection(t, FollowingSibling, n, TestNode)
         == Selection(t, Child, Up(n), TestNode)
  {
    hide Selection, Reverse;
    var before, after := Selection(t, PrecedingSibling, n, TestNode), Selection(t, FollowingSibling, n, TestNode);
    var all := Reverse(before) + [n] + after;
    SelectionSpec(t, PrecedingSibling, n, TestNode);
    SelectionSpec(t, FollowingSibling, n, TestNode);
    SelectionSpec(t, Child, Up(n), TestNode);
    ReverseMembers(before);
    forall q
      ensures q in all <==> q in Selection(t, Child, Up(n), TestNode)
    {
      assert q in all <==> q in before || q == n || q in after;
      SameParent(n, q);
    }
    forall i, j | 0 <= i < j < |all|
      ensures Before(all[i], all[j])
    {
      var b := |before|;
      if i < b <= j {
        assert Reverse(before)[i] in Reverse(before);
        assert j > b ==> after[j - b - 1] in after;
        SiblingBefore(all[i], all[j]);
      } else if i == b {
        assert after[j - b - 1] in after;
        SiblingBefore(all[i], all[j]);
      } else if b < i {
        assert all[i] == after[i - b - 1] && all[j] == after[j - b - 1];
      }
    }
    SortedUnique(all, Selection(t, Child, Up(n), TestNode));
  }

  lemma SameParent(n: Path, q: Path)
    requires n != []
    ensures q != [] && Up(q) == Up(n) && Last(q) == Last(n) ==> q == n
  {
    if q != [] {
      assert n == Up(n) + [Last(n)] && q == Up(q) + [Last(q)];
    }
  }

  lemma SiblingBefore(p: Path, q: Path)
    requires p != [] && q != [] && Up(p) == Up(q) && Last(p) < Last(q)
    ensures Before(p, q)
  {
    assert p == Up(p) + [Last(p)] && q == Up(p) + [Last(q)];
    BeforeSibling(Up(p), Last(p), Last(q));
  }

  /** The -or-self axes begin with the node itself. */
  lemma OrSelf(t: Node, n: Path)
    requires ValidPath(t, n)
    ensures Selection(t, DescendantOrSelf, n, TestNode) == [n] + Selection(t, Descendant, n, TestNode)
    ensures Selection(t, AncestorOrSelf, n, TestNode) == [n] + Selection(t, Ancestor, n, TestNode)
  {
    hide Selection;
    var below, above := Selection(t, Descendant, n, TestNode), Selection(t, Ancestor, n, TestNode);
    SelectionSpec(t, DescendantOrSelf, n, TestNode);
    SelectionSpec(t, Descendant, n, TestNode);
    SelectionSpec(t, AncestorOrSelf, n, TestNode);
    SelectionSpec(t, Ancestor, n, TestNode);
    forall i | 0 <= i < |below|
      ensures Before(n, below[i])
    {
      assert below[i] in below;
      PrefixBefore(n, below[i]);
    }
    forall i | 0 <= i < |above|
      ensures Before(above[i], n)
    {
      assert above[i] in above;
      PrefixBefore(above[i], n);
    }
    forall q
      ensures q in [n] + below <==> q in Selection(t, DescendantOrSelf, n, TestNode)
      ensures q in [n] + above <==> q in Selection(t, AncestorOrSelf, n, TestNode)
    {
      assert n <= q && !(n < q) ==> n == q;
      assert q <= n && !(q < n) ==> n == q;
    }
    SortedUnique([n] + below, Selection(t, DescendantOrSelf, n, TestNode));
    ReverseSortedUnique([n] + above, Selection(t, AncestorOrSelf, n, TestNode));
  }

  /** Every axis lists its nodes in the order in which they lie away from the node it starts from. */
  lemma CountsAwayFromContext(t: Node, axis: Axis, n: Path, test: NodeTest, i: nat, j: nat)
    requires ValidPath(t, n) && i < j < |Selection(t, axis, n, test)|
    ensures var s := Selection(t, axis, n, test);
      if Before(n, s[j]) then Before(s[i], s[j]) else Before(s[j], s[i]) && Before(s[j], n)
  {
    hide Selection;
    var s := Selection(t, axis, n, test);
    SelectionSpec(t, axis, n, test);
    assert s[i] in s && s[j] in s;
    Distinguished(n, s[i], s[j]);
    OneSide(axis, n, s[i], s[j]);
  }

  lemma Distinguished(n: Path, p: Path, q: Path)
    ensures !(Before(n, q) && Before(q, n)) && !(Before(p, q) && Before(q, p)) && !Before(q, q)
    ensures n < q ==> Before(n, q)
    ensures q < n ==> Before(q, n)
    ensures n < p ==> Before(n, p)
    ensures p < n ==> Before(p, n)
  {
    BeforeAsymmetric(n, q);
    BeforeAsymmetric(p, q);
    BeforeIrreflexive(q);
    if n < q { PrefixBefore(n, q); }
    if q < n { PrefixBefore(q, n); }
    if n < p { PrefixBefore(n, p); }
    if p < n { PrefixBefore(p, n); }
  }

  /** The later of two nodes on an axis lies behind the node for a forward axis, before it for a reverse one. */
  lemma OneSide(axis: Axis, n: Path, p: Path, q: Path)
    requires OnAxis(axis, n, p) && OnAxis(axis, n, q) && p != q
    requires if IsReverse(axis) then Before(q, p) else Before(p, q)
    ensures if IsReverse(axis) then Before(q, n) && !Before(n, q) else Before(n, q)
  {
    Distinguished(n, p, q);
    BeforeAsymmetric(q, n);
    match axis
    case Child => assert n == Up(q) && Up(q) < q;
    case FollowingSibling => SiblingBefore(n, q);
    case PrecedingSibling => SiblingBefore(q, n);
    case AncestorOrSelf => assert q == n || q < n; assert p == n || p < n;
    case DescendantOrSelf => assert q == n || n < q; assert p == n || n < p;
    case _ =>
  }

  // ----- the axes of attributes

  lemma {:induction false} AsNodesCount(r: seq<Path>, x: XNode)
    ensures multiset(AsNodes(r))[x] == if x.OfNode? then multiset(r)[x.path] else 0
  {
    if r != [] {
      AsNodesCount(r[1..], x);
      assert r == [r[0]] + r[1..];
      assert multiset(AsNodes(r)) == multiset([OfNode(r[0])]) + multiset(AsNodes(r[1..]));
      assert multiset(r) == multiset([r[0]]) + multiset(r[1..]);
    }
  }

  lemma MultisetOfTwo<T>(a: seq<T>, b: seq<T>)
    ensures multiset(a + b) == multiset(a) + multiset(b)
  {
  }

  lemma PathsPartition(t: Node, n: Path)
    requires ValidPath(t, n)
    ensures multiset(Selection(t, AncestorOrSelf, n, TestNode)) +
            multiset(Selection(t, FollowingOfAttribute, n, TestNode))
            + multiset(Selection(t, Preceding, n, TestNode)) == multiset(Preorder(t))
  {
    hide *;
    AxesPartitionTheDocument(t, n);
    OrSelf(t, n);
    FollowingOfAttributeSplits(t, n, TestNode);
    CountSelf(t, n);
    MultisetOfTwo([n], Selection(t, Ancestor, n, TestNode));
    MultisetOfTwo(Selection(t, Descendant, n, TestNode), Selection(t, Following, n, TestNode));
  }

  lemma NodesPartition(a: seq<Path>, b: seq<Path>, c: seq<Path>, all: seq<Path>)
    requires multiset(a) + multiset(b) + multiset(c) == multiset(all)
    ensures multiset(AsNodes(a)) + multiset(AsNodes(b)) + multiset(AsNodes(c)) == multiset(AsNodes(all))
  {
    hide AsNodes;
    forall x: XNode
      ensures (multiset(AsNodes(a)) + multiset(AsNodes(b)) + multiset(AsNodes(c)))[x] == multiset(AsNodes(all))[x]
    {
      AsNodesCount(a, x);
      AsNodesCount(b, x);
      AsNodesCount(c, x);
      AsNodesCount(all, x);
      assert (multiset(a) + multiset(b) + multiset(c))[x.path] == multiset(all)[x.path];
    }
  }

  /** From an attribute, its ancestors, what follows and what precedes are together every node of the
      document, exactly once. */
  lemma AttributeAxesPartition(t: Node, n: Path, k: nat)
    requires ValidXNode(t, OfAttribute(n, k))
    ensures var x := OfAttribute(n, k);
      multiset(StepList(t, Ancestor, TestNode, x)) + multiset(StepList(t, Following, TestNode, x))
      + multiset(StepList(t, Preceding, TestNode, x)) == multiset(AsNodes(Preorder(t)))
  {
    hide Selection, AsNodes, Preorder;
    PathsPartition(t, n);
    NodesPartition(Selection(t, AncestorOrSelf, n, TestNode), Selection(t, FollowingOfAttribute, n, TestNode),
      Selection(t, Preceding, n, TestNode), Preorder(t));
  }

  lemma CountSelf(t: Node, n: Path)
    requires ValidPath(t, n)
    ensures Selection(t, Self, n, TestNode) == [n]
  {
    hide Selection;
    SelectionSpec(t, Self, n, TestNode);
    SortedUnique([n], Selection(t, Self, n, TestNode));
  }

  /** Its parent is its element; it is below itself and on its own self axis unless it declares a
      namespace, and has neither children nor attributes nor siblings. */
  lemma AttributeIsLeaf(t: Node, n: Path, k: nat, test: NodeTest)
    requires ValidXNode(t, OfAttribute(n, k))
    ensures var x := OfAttribute(n, k);
      StepList(t, ParentAxis, TestNode, x) == [OfNode(n)] &&
      StepList(t, AncestorOrSelf, test, x) == StepList(t, Self, test, x) + StepList(t, Ancestor, test, x) &&
      StepList(t, DescendantOrSelf, test, x) == StepList(t, Self, test, x) &&
      (test != TestNode ==> StepList(t, Self, test, x) == []) &&
      (StepList(t, Self, TestNode, x) == [x] <==> IsXPathAttribute(NodeAt(t, n).attrs[k].name)) &&
      forall axis :: axis in {Child, AttributeAxis, Descendant, FollowingSibling, PrecedingSibling} ==>
        StepList(t, axis, test, x) == []
  {
    hide Selection;
    CountSelf(t, n);
  }

  /** The attribute axis leads to an attribute exactly when the self axis of that finds it. */
  lemma AttributesOfElement(t: Node, n: Path, x: XNode)
    requires ValidPath(t, n)
    ensures x in StepList(t, AttributeAxis, TestNode, OfNode(n)) <==>
            ValidXNode(t, x) && x.OfAttribute? && x.path == n && StepList(t, Self, TestNode, x) == [x]
  {
    hide IsXPathAttribute;
    KeptAttributes(n, NodeAt(t, n).attrs, 0, TestNode, x);
  }

  lemma {:induction false} KeptAttributes(p: Path, attrs: seq<Attribute>, k: nat, test: NodeTest, x: XNode)
    ensures x in KeepAttributes(p, attrs, k, test) <==>
            x.OfAttribute? && x.path == p && k <= x.index < k + |attrs| &&
              PassesAttribute(test, attrs[x.index - k].name)
  {
    hide PassesAttribute;
    if attrs != [] {
      KeptAttributes(p, attrs[1..], k + 1, test, x);
      var head := if PassesAttribute(test, attrs[0].name) then [OfAttribute(p, k)] else [];
      assert x in KeepAttributes(p, attrs, k, test) <==> x in head || x in KeepAttributes(p, attrs[1..], k + 1, test);
    }
  }

  // ----- tests

  /** The node test for the kind of a node, by section 2.3 of XPath 1.0. */
  function KindTest(k: Kind): Option<NodeTest> {
    match k
    case Element => Some(TestAll)
    case Pcdata => Some(TestText)
    case Cdata => Some(TestText)
    case Comment => Some(TestComment)
    case Pi => Some(TestPi)
    case _ => None
  }

  /** Each node passes node() and the test for its kind, and no test for another kind. */
  lemma KindsAreToldApart(n: Node, test: NodeTest)
    requires test in {TestAll, TestText, TestComment, TestPi}
    ensures Passes(test, n) <==> KindTest(n.kind) == Some(test)
    ensures Passes(TestNode, n)
  {
  }

  /** What is parsed from character data is text, and elements are elements of their name. */
  lemma ParsedKinds(v: string, f: XmlReading.Frame)
    ensures Passes(TestText, XmlReading.Text(v))
    ensures Passes(TestName(f.name), XmlReading.Closed(f)) && Passes(TestAll, XmlReading.Closed(f))
  {
  }

  /** An element has one name, a processing instruction one target; a namespace test is passed by
      the names with that prefix and any local part. */
  lemma NamesAreBelowKinds(n: Node, name: string, prefix: string)
    ensures Passes(TestName(name), n) <==> Passes(TestAll, n) && name == n.name
    ensures Passes(TestPiTarget(name), n) <==> Passes(TestPi, n) && name == n.name
    ensures Passes(TestAllInNamespace(prefix), n) <==> exists local :: Passes(TestName(prefix + local), n)
  {
    if Passes(TestAllInNamespace(prefix), n) {
      assert n.name == prefix + n.name[|prefix|..];
      assert Passes(TestName(prefix + n.name[|prefix|..]), n);
    }
  }

  /** An attribute is one for XPath unless its name is xmlns, alone or before a colon; then no test
      finds it. The tests for names find attributes as they find elements, the others do not. */
  lemma AttributeTests(test: NodeTest, name: string, value: string)
    ensures IsXPathAttribute(name) <==> name != "xmlns" && !(exists local :: name == "xmlns:" + local)
    ensures PassesAttribute(test, name) <==>
            IsXPathAttribute(name) && Passes(test, Node(Element, name, value, [], []))
  {
    if "xmlns:" <= name {
      assert name == "xmlns:" + name[6..];
    }
    if "xmlns" <= name && |name| > 5 && name[5] == ':' {
      assert name[..6] == "xmlns" + [name[5]];
    }
  }

  // ----- truth

  /** There is one false value of each type. */
  lemma OneFalseValue(v: Value)
    ensures Truth(v) <==> v !in {Nodes({}), Number(0.0), Text(""), Boolean(false)}
  {
  }

  // ----- positions

  lemma {:induction false} LastPicked(w: World, list: seq<XNode>, i: nat, size: nat)
    requires i + |list| == size
    ensures ApplyGeneral(w, LastFn, list, i, size) == if list == [] then [] else [list[|list| - 1]]
  {
    if list != [] {
      LastPicked(w, list[1..], i + 1, size);
    }
  }

  /** [last()] leaves the last node in document order. */
  lemma LastInDocument(w: World, e: Expr, c: Context, y: XNode)
    requires WorldOk(w) && M.ListingOk(w)
    ensures y in NodesOf(Eval(w, Filter(e, Predicate(LastFn, Default)), c)) <==>
            y in NodesOf(Eval(w, e, c)) && forall x :: x in NodesOf(Eval(w, e, c)) ==> x == y || XBefore(x, y)
  {
    hide Eval, XBefore, ApplyGeneral;
    var s := NodesOf(Eval(w, e, c));
    var list := w.documentOrder(s);
    FilterByLast(w, e, c);
    LastPicked(w, list, 0, |list|);
    if list != [] {
      var last := list[|list| - 1];
      assert last in list;
      forall x | x in s
        ensures x == last || XBefore(x, last)
      {
        var i :| 0 <= i < |list| && list[i] == x;
        assert i < |list| - 1 ==> M.XComes(false, list[i], last);
      }
      if y in s && y != last && (forall x :: x in s ==> x == y || XBefore(x, y)) {
        assert XBefore(last, y) && XBefore(y, last);
        M.XBeforeStrict(last, y, last);
        assert false;
      }
    }
  }

  lemma FilterByLast(w: World, e: Expr, c: Context)
    ensures var list := w.documentOrder(NodesOf(Eval(w, e, c)));
      NodesOf(Eval(w, Filter(e, Predicate(LastFn, Default)), c)) == AsSet(ApplyGeneral(w, LastFn, list, 0, |list|))
  {
  }

  /** [position() = last()] says the same. */
  lemma PositionIsLast(w: World, c: Context)
    ensures Holds(w, Equal(PositionFn, LastFn), c) <==> Holds(w, LastFn, c)
  {
  }

  /** In a step, positions count along the axis: the first preceding sibling is the one next to the
      node, the first ancestor its parent. */
  lemma NearestFirst(w: World, n: Path)
    requires ValidPath(w.doc, n) && n != []
    ensures var one := [Predicate(NumberConstant(1.0), Default)];
      StepFrom(w, PrecedingSibling, TestNode, one, OfNode(n)) ==
        (if Last(n) == 0 then [] else [OfNode(Up(n) + [Last(n) - 1])]) &&
      StepFrom(w, Ancestor, TestNode, one, OfNode(n)) == [OfNode(Up(n))]
  {
    hide StepList, ApplyGeneral;
    FirstOfStep(w, PrecedingSibling, OfNode(n));
    FirstOfStep(w, Ancestor, OfNode(n));
    NextBefore(w.doc, n);
    ParentIsNearest(w.doc, n);
  }

  lemma FirstOfStep(w: World, axis: Axis, x: XNode)
    ensures StepFrom(w, axis, TestNode, [Predicate(NumberConstant(1.0), Default)], x) ==
            First(StepList(w.doc, axis, TestNode, x), true)
  {
    hide StepList, ApplyGeneral;
    var list := StepList(w.doc, axis, TestNode, x);
    ConstantAgrees(w, NumberConstant(1.0), list);
    var ps := [Predicate(NumberConstant(1.0), Default)];
    assert ps[1..] == [];
    assert ApplyPredicates(w, ps, list) == ApplyPredicate(w, ps[0], list);
  }

  lemma NextBefore(t: Node, n: Path)
    requires ValidPath(t, n) && n != []
    ensures First(StepList(t, PrecedingSibling, TestNode, OfNode(n)), true) ==
            if Last(n) == 0 then [] else [OfNode(Up(n) + [Last(n) - 1])]
  {
    hide Selection, AsNodes, Reverse;
    var r := Selection(t, PrecedingSibling, n, TestNode);
    SiblingsInOrder(t, n);
    ChildrenInOrder(t, Up(n));
    var all := Selection(t, Child, Up(n), TestNode);
    assert all[|r|] == n == Up(n) + [|r|];
    assert |r| == Last(n);
    if |r| > 0 {
      assert r[0] == Reverse(r)[|r| - 1] == all[|r| - 1];
    }
  }

  lemma ParentIsNearest(t: Node, n: Path)
    requires ValidPath(t, n) && n != []
    ensures First(StepList(t, Ancestor, TestNode, OfNode(n)), true) == [OfNode(Up(n))]
  {
    hide Selection, AsNodes;
    OrSelf(t, Up(n));
    var r := Selection(t, Ancestor, n, TestNode);
    SelectionSpec(t, Ancestor, n, TestNode);
    SelectionSpec(t, AncestorOrSelf, Up(n), TestNode);
    forall q
      ensures q in r <==> q in Selection(t, AncestorOrSelf, Up(n), TestNode)
    {
      assert q < n <==> q <= Up(n);
    }
    ReverseSortedUnique(r, Selection(t, AncestorOrSelf, Up(n), TestNode));
  }
}
