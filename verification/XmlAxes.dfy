/** The axis traversals of XPath location steps over one document, with node tests and early exit. */
module XmlAxes {
  import opened XmlTree

  datatype NodeTest =
    | TestName(name: string)
    | TestNode
    | TestComment
    | TestText
    | TestPi
    | TestPiTarget(target: string)
    | TestAll
    | TestAllInNamespace(prefix: string)

  /** The node test of a location step, for nodes that are not attributes. */
  predicate Passes(test: NodeTest, n: Node) {
    match test
    case TestName(name) => n.kind == Element && n.name == name
    case TestNode => true
    case TestComment => n.kind == Comment
    case TestText => n.kind == Pcdata || n.kind == Cdata
    case TestPi => n.kind == Pi
    case TestPiTarget(target) => n.kind == Pi && n.name == target
    case TestAll => n.kind == Element
    case TestAllInNamespace(prefix) => n.kind == Element && prefix <= n.name
  }

  datatype Axis =
    | Ancestor
    | AncestorOrSelf
    | AttributeAxis
    | Child
    | Descendant
    | DescendantOrSelf
    | Following
    | FollowingOfAttribute // the following axis of an attribute of the node
    | FollowingSibling
    | ParentAxis
    | Preceding
    | PrecedingSibling
    | Self

  predicate IsReverse(axis: Axis) {
    axis in {Ancestor, AncestorOrSelf, Preceding, PrecedingSibling}
  }

  /** Membership in an axis of node n, as section 2.2 of XPath 1.0 defines the axes. */
  predicate OnAxis(axis: Axis, n: Path, q: Path) {
    match axis
    case Ancestor => q < n
    case AncestorOrSelf => q <= n
    case AttributeAxis => false
    case Child => q != [] && Up(q) == n
    case Descendant => n < q
    case DescendantOrSelf => n <= q
    case Following => Before(n, q) && !(n <= q)
    case FollowingOfAttribute => Before(n, q)
    case FollowingSibling => n != [] && q != [] && Up(q) == Up(n) && Last(n) < Last(q)
    case ParentAxis => n != [] && q == Up(n)
    case Preceding => Before(q, n) && !(q <= n)
    case PrecedingSibling => n != [] && q != [] && Up(q) == Up(n) && Last(q) < Last(n)
    case Self => q == n
  }

  predicate Selected(t: Node, axis: Axis, n: Path, test: NodeTest, q: Path) {
    ValidPath(t, q) && OnAxis(axis, n, q) && Passes(test, NodeAt(t, q))
  }

  function Keep(t: Node, axis: Axis, n: Path, test: NodeTest, r: seq<Path>): seq<Path> {
    if r == [] then []
    else (if Selected(t, axis, n, test, r[0]) then [r[0]] else []) + Keep(t, axis, n, test, r[1..])
  }

  /** The nodes a step selects from n: those of the document that are on the axis and pass the
      test, in document order for a forward axis and in reverse document order for a reverse one. */
  function Selection(t: Node, axis: Axis, n: Path, test: NodeTest): seq<Path> {
    var all := Keep(t, axis, n, test, Preorder(t));
    if IsReverse(axis) then Reverse(all) else all
  }

  /** What a traversal that may stop at its first hit delivers of a selection. */
  function Cut(sel: seq<Path>, once: bool): seq<Path> {
    if once && sel != [] then sel[..1] else sel
  }

  lemma {:induction false} KeepMembers(t: Node, axis: Axis, n: Path, test: NodeTest, r: seq<Path>)
    ensures forall q :: q in Keep(t, axis, n, test, r) <==> q in r && Selected(t, axis, n, test, q)
    ensures Sorted(r) ==> Sorted(Keep(t, axis, n, test, r))
  {
    hide Selected, Before;
    if r != [] {
      KeepMembers(t, axis, n, test, r[1..]);
      var rest := Keep(t, axis, n, test, r[1..]);
      assert Keep(t, axis, n, test, r)
        == (if Selected(t, axis, n, test, r[0]) then [r[0]] else []) + rest;
      if Sorted(r) {
        assert forall i :: 0 <= i < |rest| ==> rest[i] in rest;
      }
    }
  }

  lemma SelectionSpec(t: Node, axis: Axis, n: Path, test: NodeTest)
    ensures forall q :: q in Selection(t, axis, n, test) <==> Selected(t, axis, n, test, q)
    ensures if IsReverse(axis) then ReverseSorted(Selection(t, axis, n, test))
            else Sorted(Selection(t, axis, n, test))
  {
    PreorderIsDocumentOrder(t);
    KeepMembers(t, axis, n, test, Preorder(t));
    ReverseMembers(Keep(t, axis, n, test, Preorder(t)));
  }

  // ----- progress of a traversal

  /** p comes before q in the order in which an axis is walked. */
  predicate Comes(rev: bool, p: Path, q: Path) {
    if rev then Before(q, p) else Before(p, q)
  }

  ghost predicate InOrder(rev: bool, ns: seq<Path>) {
    forall i, j :: 0 <= i < j < |ns| ==> Comes(rev, ns[i], ns[j])
  }

  ghost function SelectedSet(t: Node, axis: Axis, n: Path, test: NodeTest): iset<Path> {
    iset q: Path | Selected(t, axis, n, test, q)
  }

  /** ns holds, in walking order, exactly the members of sel among those already seen. */
  ghost predicate Collected(rev: bool, sel: iset<Path>, ns: seq<Path>, seen: iset<Path>) {
    InOrder(rev, ns) && forall q :: q in ns <==> q in sel && q in seen
  }

  lemma OrderedUnique(rev: bool, a: seq<Path>, b: seq<Path>)
    requires InOrder(rev, a) && InOrder(rev, b)
    requires forall p :: p in a <==> p in b
    ensures a == b
  {
    if rev { ReverseSortedUnique(a, b); } else { SortedUnique(a, b); }
  }

  lemma SelectionOrdered(t: Node, axis: Axis, n: Path, test: NodeTest)
    ensures InOrder(IsReverse(axis), Selection(t, axis, n, test))
    ensures forall q :: q in Selection(t, axis, n, test) <==> q in SelectedSet(t, axis, n, test)
  {
    SelectionSpec(t, axis, n, test);
  }

  lemma CollectedAll(t: Node, axis: Axis, n: Path, test: NodeTest, ns: seq<Path>, seen: iset<Path>, once: bool)
    requires Collected(IsReverse(axis), SelectedSet(t, axis, n, test), ns, seen)
    requires SelectedSet(t, axis, n, test) <= seen
    requires once ==> ns == []
    ensures ns == Cut(Selection(t, axis, n, test), once)
  {
    SelectionOrdered(t, axis, n, test);
    OrderedUnique(IsReverse(axis), ns, Selection(t, axis, n, test));
  }

  /** Stopping at the first hit delivers the first selected node. */
  lemma CollectedFirst(t: Node, axis: Axis, n: Path, test: NodeTest, cur: Path, seen: iset<Path>)
    requires Collected(IsReverse(axis), SelectedSet(t, axis, n, test), [cur], seen)
    requires forall q :: q in SelectedSet(t, axis, n, test) && q !in seen ==> Comes(IsReverse(axis), cur, q)
    ensures [cur] == Cut(Selection(t, axis, n, test), true)
  {
    SelectionOrdered(t, axis, n, test);
    assert cur in [cur];
    HeadIs(IsReverse(axis), Selection(t, axis, n, test), cur);
  }

  lemma HeadIs(rev: bool, sel: seq<Path>, cur: Path)
    requires InOrder(rev, sel) && cur in sel
    requires forall q :: q in sel ==> q == cur || Comes(rev, cur, q)
    ensures sel[0] == cur
  {
    assert sel[0] in sel;
    BeforeAsymmetric(sel[0], cur);
  }

  method StepPush(t: Node, test: NodeTest, ns: seq<Path>, n: Path) returns (r: seq<Path>, pushed: bool)
    requires ValidPath(t, n)
    ensures pushed <==> Passes(test, NodeAt(t, n))
    ensures r == if pushed then ns + [n] else ns
  {
    pushed := Passes(test, NodeAt(t, n));
    r := if pushed then ns + [n] else ns;
  }

  /** One push moves exactly the pushed node from the unseen to the seen. */
  lemma Pushed(rev: bool, sel: iset<Path>, ns: seq<Path>, seen: iset<Path>, cur: Path,
               r: seq<Path>, seen': iset<Path>)
    requires Collected(rev, sel, ns, seen)
    requires r == if cur in sel then ns + [cur] else ns
    requires forall q :: q in ns ==> Comes(rev, q, cur)
    requires forall q :: q in sel ==> (q in seen' <==> q in seen || q == cur)
    ensures Collected(rev, sel, r, seen')
  {
    if cur in sel {
      assert forall i :: 0 <= i < |ns| ==> ns[i] in ns;
      forall q ensures q in r <==> q in sel && q in seen' {
        assert q in r <==> q in ns || q == cur;
      }
    }
  }

  /** One iteration of a traversal that meets cur after all of seen and before all of the rest. */
  lemma Step(t: Node, axis: Axis, n: Path, test: NodeTest, ns: seq<Path>, seen: iset<Path>, cur: Path,
             r: seq<Path>, seen': iset<Path>)
    requires Collected(IsReverse(axis), SelectedSet(t, axis, n, test), ns, seen)
    requires r == if cur in SelectedSet(t, axis, n, test) then ns + [cur] else ns
    requires forall q :: q in SelectedSet(t, axis, n, test) ==>
      && (q in seen ==> Comes(IsReverse(axis), q, cur))
      && (q in seen || q == cur || Comes(IsReverse(axis), cur, q))
      && (q in seen' <==> q in seen || q == cur)
    ensures Collected(IsReverse(axis), SelectedSet(t, axis, n, test), r, seen')
    ensures ns == [] && r != [] ==> r == Cut(Selection(t, axis, n, test), true)
  {
    Pushed(IsReverse(axis), SelectedSet(t, axis, n, test), ns, seen, cur, r, seen');
    if ns == [] && r != [] { CollectedFirst(t, axis, n, test, cur, seen'); }
  }

  lemma NothingSeen(t: Node, axis: Axis, n: Path, test: NodeTest, seen: iset<Path>)
    requires forall q :: OnAxis(axis, n, q) ==> q !in seen
    ensures Collected(IsReverse(axis), SelectedSet(t, axis, n, test), [], seen)
  {
  }

  // ----- the loops

  ghost function IndexBelow(k: nat): iset<Path> {
    iset q: Path | q != [] && Last(q) < k
  }

  ghost function IndexFrom(k: int): iset<Path> {
    iset q: Path | q != [] && Last(q) >= k
  }

  ghost function LongerThan(k: int): iset<Path> {
    iset q: Path | |q| > k
  }

  lemma SiblingOrder(p: Path, i: nat, q: Path)
    requires q != [] && Up(q) == p
    ensures Before(p + [i], q) <==> i < Last(q)
    ensures Before(q, p + [i]) <==> Last(q) < i
    ensures Last(q) == i <==> q == p + [i]
  {
    assert q == p + [Last(q)];
    BeforeCommonPrefix(p, [i], [Last(q)]);
    BeforeCommonPrefix(p, [Last(q)], [i]);
  }

  /** The steps of the sibling walks meet the siblings by increasing (or decreasing) index. */
  lemma IsSibling(t: Node, axis: Axis, n: Path, p: Path, test: NodeTest, q: Path)
    requires axis in {Child, FollowingSibling, PrecedingSibling} && q in SelectedSet(t, axis, n, test)
    requires if axis == Child then p == n else n != [] && p == Up(n)
    ensures q != [] && Up(q) == p
  {
  }

  lemma SiblingSelected(t: Node, axis: Axis, n: Path, p: Path, test: NodeTest, k: nat)
    requires axis in {Child, FollowingSibling, PrecedingSibling} && ValidPath(t, p + [k])
    requires if axis == Child then p == n else n != [] && p == Up(n)
    requires axis == FollowingSibling ==> Last(n) < k
    requires axis == PrecedingSibling ==> k < Last(n)
    ensures p + [k] in SelectedSet(t, axis, n, test) <==> Passes(test, NodeAt(t, p + [k]))
  {
    hide ValidPath, Passes, NodeAt;
    assert Up(p + [k]) == p && Last(p + [k]) == k;
  }

  lemma SiblingStep(t: Node, axis: Axis, n: Path, p: Path, test: NodeTest, ns: seq<Path>, k: nat, r: seq<Path>)
    requires axis in {Child, FollowingSibling, PrecedingSibling}
    requires if axis == Child then p == n else n != [] && p == Up(n)
    requires axis == FollowingSibling ==> Last(n) < k
    requires axis == PrecedingSibling ==> k < Last(n)
    requires ValidPath(t, p + [k])
    requires Collected(IsReverse(axis), SelectedSet(t, axis, n, test), ns,
                       if IsReverse(axis) then IndexFrom(k + 1) else IndexBelow(k))
    requires r == if Passes(test, NodeAt(t, p + [k])) then ns + [p + [k]] else ns
    ensures Collected(IsReverse(axis), SelectedSet(t, axis, n, test), r,
                      if IsReverse(axis) then IndexFrom(k) else IndexBelow(k + 1))
    ensures ns == [] && r != [] ==> r == Cut(Selection(t, axis, n, test), true)
  {
    hide Collected, SelectedSet, Selection, Cut, Passes, NodeAt, Before, OnAxis, Preorder, Reverse;
    assert Up(p + [k]) == p;
    SiblingSelected(t, axis, n, p, test, k);
    forall q | q in SelectedSet(t, axis, n, test)
      ensures q != [] && (Last(q) < k ==> Before(q, p + [k])) && (Last(q) > k ==> Before(p + [k], q))
      ensures Last(q) == k <==> q == p + [k]
    {
      IsSibling(t, axis, n, p, test, q);
      SiblingOrder(p, k, q);
    }
    Step(t, axis, n, test, ns, if IsReverse(axis) then IndexFrom(k + 1) else IndexBelow(k), p + [k],
         r, if IsReverse(axis) then IndexFrom(k) else IndexBelow(k + 1));
  }

  lemma SiblingsDone(t: Node, axis: Axis, n: Path, p: Path, test: NodeTest, ns: seq<Path>, once: bool)
    requires axis in {Child, FollowingSibling, PrecedingSibling}
    requires if axis == Child then p == n else n != [] && p == Up(n)
    requires ValidPath(t, p)
    requires Collected(IsReverse(axis), SelectedSet(t, axis, n, test), ns,
                       if IsReverse(axis) then IndexFrom(0) else IndexBelow(|NodeAt(t, p).children|))
    requires once ==> ns == []
    ensures ns == Cut(Selection(t, axis, n, test), once)
  {
    CollectedAll(t, axis, n, test, ns,
                 if IsReverse(axis) then IndexFrom(0) else IndexBelow(|NodeAt(t, p).children|), once);
  }

  lemma NoSiblingSeen(t: Node, axis: Axis, n: Path, test: NodeTest)
    requires axis in {Child, FollowingSibling, PrecedingSibling} && (axis != Child ==> n != [])
    ensures Collected(IsReverse(axis), SelectedSet(t, axis, n, test), [],
                      if axis == Child then IndexBelow(0)
                      else if axis == FollowingSibling then IndexBelow(Last(n) + 1) else IndexFrom(Last(n)))
  {
    NothingSeen(t, axis, n, test,
                if axis == Child then IndexBelow(0)
                else if axis == FollowingSibling then IndexBelow(Last(n) + 1) else IndexFrom(Last(n)));
  }

  lemma FirstChildIs(t: Node, p: Path)
    requires ValidPath(t, p)
    ensures FirstChild(t, p) == if 0 < |NodeAt(t, p).children| then To(p + [0]) else Null
  {
    hide ValidPath, NodeAt;
  }

  method FillChild(t: Node, n: Path, test: NodeTest, once: bool) returns (ns: seq<Path>)
    requires ValidPath(t, n)
    ensures ns == Cut(Selection(t, Child, n, test), once)
  {
    hide Collected, SelectedSet, Selection, Cut, Passes, ValidPath, NodeAt, NextSibling, FirstChild, PrevSiblingC,
      OnAxis, IndexBelow, IndexFrom, Before, Preorder, Reverse;
    ns := [];
    NoSiblingSeen(t, Child, n, test);
    FirstChildIs(t, n);
    var c := FirstChild(t, n);
    ghost var k := 0;
    while c != Null
      invariant c == if k < |NodeAt(t, n).children| then To(n + [k]) else Null
      invariant k <= |NodeAt(t, n).children|
      invariant Collected(false, SelectedSet(t, Child, n, test), ns, IndexBelow(k))
      invariant once ==> ns == []
      decreases |NodeAt(t, n).children| - k
    {
      ghost var before := ns;
      var pushed;
      ChildPath(t, n, k);
      ns, pushed := StepPush(t, test, ns, c.path);
      SiblingStep(t, Child, n, n, test, before, k, ns);
      if pushed && once { return; }
      NextSiblingPath(t, n, k);
      c := NextSibling(t, c.path);
      k := k + 1;
    }
    SiblingsDone(t, Child, n, n, test, ns, once);
  }

  /** The document node has no siblings. */
  lemma NoSiblings(t: Node, axis: Axis, test: NodeTest, once: bool)
    requires axis == FollowingSibling || axis == PrecedingSibling
    ensures [] == Cut(Selection(t, axis, [], test), once)
  {
    CollectedAll(t, axis, [], test, [], iset{}, once);
  }

  method FillFollowingSibling(t: Node, n: Path, test: NodeTest, once: bool) returns (ns: seq<Path>)
    requires ValidPath(t, n)
    ensures ns == Cut(Selection(t, FollowingSibling, n, test), once)
  {
    hide Collected, SelectedSet, Selection, Cut, Passes, ValidPath, NodeAt, NextSibling, FirstChild, PrevSiblingC,
      OnAxis, IndexBelow, IndexFrom, Before, Preorder, Reverse;
    ns := [];
    var c := NextSibling(t, n);
    ghost var k := if n == [] then 0 else Last(n) + 1;
    if n == [] {
      NoSiblings(t, FollowingSibling, test, once);
      return;
    }
    NoSiblingSeen(t, FollowingSibling, n, test);
    ghost var p := Up(n);
    assert n == p + [Last(n)];
    NextSiblingPath(t, p, Last(n));
    while c != Null
      invariant c == if k < |NodeAt(t, p).children| then To(p + [k]) else Null
      invariant Last(n) < k <= |NodeAt(t, p).children|
      invariant Collected(false, SelectedSet(t, FollowingSibling, n, test), ns, IndexBelow(k))
      invariant once ==> ns == []
      decreases |NodeAt(t, p).children| - k
    {
      ghost var before := ns;
      var pushed;
      ChildPath(t, p, k);
      ns, pushed := StepPush(t, test, ns, c.path);
      SiblingStep(t, FollowingSibling, n, p, test, before, k, ns);
      if pushed && once { return; }
      NextSiblingPath(t, p, k);
      c := NextSibling(t, c.path);
      k := k + 1;
    }
    SiblingsDone(t, FollowingSibling, n, p, test, ns, once);
  }

  method FillPrecedingSibling(t: Node, n: Path, test: NodeTest, once: bool) returns (ns: seq<Path>)
    requires ValidPath(t, n)
    ensures ns == Cut(Selection(t, PrecedingSibling, n, test), once)
  {
    hide Collected, SelectedSet, Selection, Cut, Passes, ValidPath, NodeAt, NextSibling, FirstChild, PrevSiblingC,
      OnAxis, IndexBelow, IndexFrom, Before, Preorder, Reverse;
    ns := [];
    PrevSiblingIff(t, n);
    PrevSiblingC_Valid(t, n);
    var c := PrevSiblingC(t, n);
    ghost var k := if n == [] then 0 else Last(n);
    if n == [] {
      NoSiblings(t, PrecedingSibling, test, once);
      return;
    }
    NoSiblingSeen(t, PrecedingSibling, n, test);
    ghost var p := Up(n);
    assert n == p + [Last(n)];
    ChildPath(t, p, Last(n));
    while NextSibling(t, c) != Null
      invariant ValidPath(t, c) && 0 <= k <= Last(n)
      invariant k == 0 <==> NextSibling(t, c) == Null
      invariant k > 0 ==> c == p + [k - 1]
      invariant Collected(true, SelectedSet(t, PrecedingSibling, n, test), ns, IndexFrom(k))
      invariant once ==> ns == []
      decreases k
    {
      ghost var before := ns;
      var pushed;
      ns, pushed := StepPush(t, test, ns, c);
      SiblingStep(t, PrecedingSibling, n, p, test, before, k - 1, ns);
      if pushed && once { return; }
      assert Up(c) == p;
      PrevSiblingIff(t, c);
      PrevSiblingC_Valid(t, c);
      c := PrevSiblingC(t, c);
      k := k - 1;
      if k > 0 { assert Up(c) == p; }
    }
    SiblingsDone(t, PrecedingSibling, n, p, test, ns, once);
  }

  // ----- ancestors

  lemma PrefixesOrdered(n: Path, q: Path, k: nat)
    requires q <= n && k <= |n|
    ensures |q| < k ==> Before(q, n[..k])
    ensures |q| > k ==> Before(n[..k], q)
    ensures |q| == k <==> q == n[..k]
  {
    assert q == n[..|q|];
    if |q| < k { PrefixBefore(q, n[..k]); }
    if |q| > k { PrefixBefore(n[..k], q); }
  }

  lemma AncestorStep(t: Node, axis: Axis, n: Path, test: NodeTest, ns: seq<Path>, k: nat, r: seq<Path>)
    requires axis == Ancestor || axis == AncestorOrSelf
    requires k < |n| || (k == |n| && axis == AncestorOrSelf)
    requires ValidPath(t, n[..k])
    requires Collected(true, SelectedSet(t, axis, n, test), ns, LongerThan(k))
    requires r == if Passes(test, NodeAt(t, n[..k])) then ns + [n[..k]] else ns
    ensures Collected(true, SelectedSet(t, axis, n, test), r, LongerThan(k - 1))
    ensures ns == [] && r != [] ==> r == Cut(Selection(t, axis, n, test), true)
  {
    forall q | q in SelectedSet(t, axis, n, test)
      ensures (|q| < k ==> Before(q, n[..k])) && (|q| > k ==> Before(n[..k], q))
      ensures |q| == k <==> q == n[..k]
    {
      PrefixesOrdered(n, q, k);
    }
    hide Collected, SelectedSet, Selection, Cut;
    Step(t, axis, n, test, ns, LongerThan(k), n[..k], r, LongerThan(k - 1));
  }

  lemma AncestorsDone(t: Node, axis: Axis, n: Path, test: NodeTest, ns: seq<Path>, once: bool)
    requires Collected(IsReverse(axis), SelectedSet(t, axis, n, test), ns, LongerThan(-1))
    requires once ==> ns == []
    ensures ns == Cut(Selection(t, axis, n, test), once)
  {
    CollectedAll(t, axis, n, test, ns, LongerThan(-1), once);
  }

  method FillAncestor(t: Node, n: Path, test: NodeTest, once: bool, orSelf: bool) returns (ns: seq<Path>)
    requires ValidPath(t, n)
    ensures ns == Cut(Selection(t, if orSelf then AncestorOrSelf else Ancestor, n, test), once)
  {
    hide Collected, SelectedSet, Selection, Cut, Passes, ValidPath, NodeAt;
    ns := [];
    ghost var axis := if orSelf then AncestorOrSelf else Ancestor;
    assert n[..|n|] == n;
    if orSelf {
      NothingSeen(t, axis, n, test, LongerThan(|n|));
      var pushed;
      ns, pushed := StepPush(t, test, ns, n);
      AncestorStep(t, axis, n, test, [], |n|, ns);
      if pushed && once { return; }
    } else {
      NothingSeen(t, axis, n, test, LongerThan(|n| - 1));
    }
    var cur := Parent(n);
    ghost var k := |n| - 1;
    if n != [] { PrefixValid(t, n, |n| - 1); }
    while cur != Null
      invariant -1 <= k < |n| && (cur == if k >= 0 then To(n[..k]) else Null)
      invariant k >= 0 ==> ValidPath(t, n[..k])
      invariant Collected(true, SelectedSet(t, axis, n, test), ns, LongerThan(k))
      invariant once ==> ns == []
      decreases k
    {
      ghost var before := ns;
      var pushed;
      ns, pushed := StepPush(t, test, ns, cur.path);
      AncestorStep(t, axis, n, test, before, k, ns);
      if pushed && once { return; }
      cur := Parent(cur.path);
      if k > 0 { PrefixValid(t, n, k - 1); }
      assert k > 0 ==> Up(n[..k]) == n[..k - 1];
      k := k - 1;
    }
    AncestorsDone(t, axis, n, test, ns, once);
  }

  // ----- walks in document order

  ghost function EarlierThan(p: Path): iset<Path> {
    iset q: Path | Before(q, p)
  }

  ghost function NotAfter(p: Path): iset<Path> {
    iset q: Path | q == p || Before(q, p)
  }

  function CountAfter(r: seq<Path>, p: Path): nat {
    if r == [] then 0 else (if Before(p, r[0]) then 1 else 0) + CountAfter(r[1..], p)
  }

  lemma {:induction false} CountAfterDrops(r: seq<Path>, p: Path, q: Path)
    requires Before(p, q)
    ensures CountAfter(r, q) <= CountAfter(r, p)
    ensures q in r ==> CountAfter(r, q) < CountAfter(r, p)
  {
    if r != [] {
      CountAfterDrops(r[1..], p, q);
      BeforeIrreflexive(q);
      if Before(q, r[0]) { BeforeTransitive(p, q, r[0]); }
    }
  }

  /** The number of nodes of the document that come after p. */
  function Remaining(t: Node, p: Path): nat {
    CountAfter(Preorder(t), p)
  }

  lemma RemainingDrops(t: Node, p: Path, q: Path)
    requires Before(p, q) && ValidPath(t, q)
    ensures Remaining(t, q) < Remaining(t, p)
  {
    PreorderIsDocumentOrder(t);
    CountAfterDrops(Preorder(t), p, q);
  }

  /** The step of the document-order walks from cur to the node that follows it, climbing until a
      next sibling exists. The climb gives up on reaching `stop`. */
  method NextInDocument(t: Node, cur: Path, stop: Ptr) returns (next: Ptr)
    requires ValidPath(t, cur)
    requires stop != Null ==> stop.path < cur
    ensures next != Null ==> ValidPath(t, next.path) && (stop != Null ==> stop.path < next.path)
    ensures next != Null ==> forall q :: ValidPath(t, q) ==>
      (Before(cur, q) <==> q == next.path || Before(next.path, q))
    ensures next == Null ==> forall q :: ValidPath(t, q) && (stop != Null ==> stop.path < q) ==> !Before(cur, q)
  {
    next := FirstChild(t, cur);
    if next != Null {
      ChildPath(t, cur, 0);
      forall q | ValidPath(t, q) ensures Before(cur, q) <==> q == next.path || Before(next.path, q) {
        FirstChildNext(t, cur, q);
      }
      return;
    }
    LeafExhausted(t, cur);
    var c := cur;
    while NextSibling(t, c) == Null
      invariant ValidPath(t, c) && Exhausted(t, c, cur)
      invariant stop != Null ==> stop.path < c
      decreases |c|
    {
      if Parent(c) == stop {
        if c != [] { ExhaustedUp(t, c, cur); }
        return Null;
      }
      ExhaustedUp(t, c, cur);
      c := Up(c);
    }
    next := NextSibling(t, c);
    ChildPath(t, Up(c), Last(c) + 1);
    forall q | ValidPath(t, q) ensures Before(cur, q) <==> q == next.path || Before(next.path, q) {
      ExhaustedSibling(t, c, cur, q);
    }
  }

  lemma WalkStep(t: Node, axis: Axis, n: Path, test: NodeTest, ns: seq<Path>, cur: Path, r: seq<Path>)
    requires !IsReverse(axis)
    requires ValidPath(t, cur) && OnAxis(axis, n, cur)
    requires Collected(false, SelectedSet(t, axis, n, test), ns, EarlierThan(cur))
    requires r == if Passes(test, NodeAt(t, cur)) then ns + [cur] else ns
    ensures Collected(false, SelectedSet(t, axis, n, test), r, NotAfter(cur))
    ensures ns == [] && r != [] ==> r == Cut(Selection(t, axis, n, test), true)
  {
    forall q | q in SelectedSet(t, axis, n, test) ensures Before(q, cur) || q == cur || Before(cur, q) {
      BeforeTotal(q, cur);
    }
    BeforeIrreflexive(cur);
    Step(t, axis, n, test, ns, EarlierThan(cur), cur, r, NotAfter(cur));
  }

  /** Moving on to the node that follows cur changes nothing on the axis. */
  lemma WalkOn(t: Node, axis: Axis, n: Path, test: NodeTest, ns: seq<Path>, cur: Path, next: Path)
    requires !IsReverse(axis)
    requires Collected(false, SelectedSet(t, axis, n, test), ns, NotAfter(cur))
    requires forall q :: ValidPath(t, q) ==> (Before(cur, q) <==> q == next || Before(next, q))
    ensures Collected(false, SelectedSet(t, axis, n, test), ns, EarlierThan(next))
  {
    forall q | q in SelectedSet(t, axis, n, test) ensures q in NotAfter(cur) <==> q in EarlierThan(next) {
      BeforeTotal(q, cur);
      BeforeAsymmetric(q, cur);
      BeforeIrreflexive(q);
      BeforeTotal(q, next);
      BeforeAsymmetric(q, next);
    }
  }

  lemma WalkDone(t: Node, axis: Axis, n: Path, test: NodeTest, ns: seq<Path>, cur: Path, once: bool)
    requires Collected(IsReverse(axis), SelectedSet(t, axis, n, test), ns, NotAfter(cur))
    requires forall q :: ValidPath(t, q) && OnAxis(axis, n, q) ==> !Before(cur, q)
    requires once ==> ns == []
    ensures ns == Cut(Selection(t, axis, n, test), once)
  {
    forall q | q in SelectedSet(t, axis, n, test) ensures q in NotAfter(cur) { BeforeTotal(q, cur); }
    CollectedAll(t, axis, n, test, ns, NotAfter(cur), once);
  }

  lemma DescendantsStart(t: Node, n: Path, test: NodeTest, axis: Axis)
    requires ValidPath(t, n) && (axis == Descendant || axis == FollowingOfAttribute)
    ensures Collected(false, SelectedSet(t, axis, n, test), [], NotAfter(n))
    ensures Collected(false, SelectedSet(t, DescendantOrSelf, n, test), [], EarlierThan(n))
  {
    forall q | n <= q ensures !Before(q, n) {
      if n < q { PrefixBefore(n, q); BeforeAsymmetric(q, n); } else { assert q == n; BeforeIrreflexive(n); }
    }
    forall q | OnAxis(axis, n, q) ensures q !in NotAfter(n) {
      BeforeAsymmetric(q, n);
      BeforeIrreflexive(n);
    }
  }

  lemma DescendantsFirst(t: Node, n: Path)
    requires ValidPath(t, n)
    ensures NodeAt(t, n).children != [] ==> ValidPath(t, n + [0])
    ensures NodeAt(t, n).children != [] ==> forall q :: ValidPath(t, q) ==>
      (Before(n, q) <==> q == n + [0] || Before(n + [0], q))
    ensures NodeAt(t, n).children == [] ==> forall q :: ValidPath(t, q) && n <= q ==> !Before(n, q)
  {
    ChildPath(t, n, 0);
    if NodeAt(t, n).children != [] {
      forall q | ValidPath(t, q) ensures Before(n, q) <==> q == n + [0] || Before(n + [0], q) {
        FirstChildNext(t, n, q);
      }
    } else {
      LeafExhausted(t, n);
    }
  }

  method FillDescendant(t: Node, n: Path, test: NodeTest, once: bool, orSelf: bool) returns (ns: seq<Path>)
    requires ValidPath(t, n)
    ensures ns == Cut(Selection(t, if orSelf then DescendantOrSelf else Descendant, n, test), once)
  {
    hide Collected, SelectedSet, Selection, Cut, Passes;
    ns := [];
    ghost var axis := if orSelf then DescendantOrSelf else Descendant;
    DescendantsStart(t, n, test, Descendant);
    if orSelf {
      var pushed;
      ns, pushed := StepPush(t, test, ns, n);
      WalkStep(t, axis, n, test, [], n, ns);
      if pushed && once { return; }
    }
    var cur := FirstChild(t, n);
    DescendantsFirst(t, n);
    if cur == Null {
      WalkDone(t, axis, n, test, ns, n, once);
      return;
    }
    WalkOn(t, axis, n, test, ns, n, cur.path);
    while true
      invariant cur != Null && ValidPath(t, cur.path) && n < cur.path
      invariant Collected(false, SelectedSet(t, axis, n, test), ns, EarlierThan(cur.path))
      invariant once ==> ns == []
      decreases Remaining(t, cur.path)
    {
      ghost var before := ns;
      var pushed;
      ns, pushed := StepPush(t, test, ns, cur.path);
      WalkStep(t, axis, n, test, before, cur.path, ns);
      if pushed && once { return; }
      var next := NextInDocument(t, cur.path, To(n));
      if next == Null {
        BelowOnly(t, axis, n, cur.path);
        WalkDone(t, axis, n, test, ns, cur.path, once);
        return;
      }
      WalkOn(t, axis, n, test, ns, cur.path, next.path);
      RemainingDrops(t, cur.path, next.path);
      cur := next;
    }
  }

  lemma BelowOnly(t: Node, axis: Axis, n: Path, cur: Path)
    requires axis == Descendant || axis == DescendantOrSelf
    requires n < cur && forall q :: ValidPath(t, q) && n < q ==> !Before(cur, q)
    ensures forall q :: ValidPath(t, q) && OnAxis(axis, n, q) ==> !Before(cur, q)
  {
    PrefixBefore(n, cur);
    BeforeAsymmetric(n, cur);
    forall q | ValidPath(t, q) && n <= q ensures !Before(cur, q) {
      if !(n < q) { assert n == q; }
    }
  }

  // ----- the following axis

  /** The climb that leaves the subtree of n: its result is what follows everything below n. */
  method LeaveSubtree(t: Node, n: Path) returns (next: Ptr)
    requires ValidPath(t, n)
    ensures next != Null ==> ValidPath(t, next.path)
    ensures next != Null ==> forall q :: ValidPath(t, q) ==>
      (Before(n, q) && !(n <= q) <==> q == next.path || Before(next.path, q))
    ensures next == Null ==> forall q :: ValidPath(t, q) ==> !(Before(n, q) && !(n <= q))
  {
    ghost var last := LastBelow(t, n);
    LastBelowLast(t, n);
    var c := n;
    while NextSibling(t, c) == Null
      invariant ValidPath(t, c) && Exhausted(t, c, last)
      decreases |c|
    {
      if Parent(c) == Null {
        forall q | ValidPath(t, q) ensures !(Before(n, q) && !(n <= q)) { AfterLastBelow(t, n, q); }
        return Null;
      }
      ExhaustedUp(t, c, last);
      c := Up(c);
    }
    next := NextSibling(t, c);
    ChildPath(t, Up(c), Last(c) + 1);
    forall q | ValidPath(t, q) ensures Before(n, q) && !(n <= q) <==> q == next.path || Before(next.path, q) {
      AfterLastBelow(t, n, q);
      ExhaustedSibling(t, c, last, q);
    }
  }

  lemma FollowingStart(t: Node, n: Path, test: NodeTest, next: Path)
    requires ValidPath(t, n)
    requires forall q :: ValidPath(t, q) ==> (Before(n, q) && !(n <= q) <==> q == next || Before(next, q))
    ensures Collected(false, SelectedSet(t, Following, n, test), [], EarlierThan(next))
  {
    forall q | q in SelectedSet(t, Following, n, test) ensures q !in EarlierThan(next) {
      BeforeAsymmetric(q, next);
      BeforeIrreflexive(q);
    }
  }

  lemma FollowingNone(t: Node, n: Path, test: NodeTest, once: bool)
    requires forall q :: ValidPath(t, q) ==> !(Before(n, q) && !(n <= q))
    ensures [] == Cut(Selection(t, Following, n, test), once)
  {
    CollectedAll(t, Following, n, test, [], iset{}, once);
  }

  method FillFollowing(t: Node, n: Path, test: NodeTest, once: bool) returns (ns: seq<Path>)
    requires ValidPath(t, n)
    ensures ns == Cut(Selection(t, Following, n, test), once)
  {
    hide Collected, SelectedSet, Selection, Cut, Passes;
    ns := [];
    var cur := LeaveSubtree(t, n);
    if cur == Null {
      FollowingNone(t, n, test, once);
      return;
    }
    FollowingStart(t, n, test, cur.path);
    while true
      invariant cur != Null && ValidPath(t, cur.path) && OnAxis(Following, n, cur.path)
      invariant Collected(false, SelectedSet(t, Following, n, test), ns, EarlierThan(cur.path))
      invariant once ==> ns == []
      decreases Remaining(t, cur.path)
    {
      ghost var before := ns;
      var pushed;
      ns, pushed := StepPush(t, test, ns, cur.path);
      WalkStep(t, Following, n, test, before, cur.path, ns);
      if pushed && once { return; }
      var next := NextInDocument(t, cur.path, Null);
      if next == Null {
        WalkDone(t, Following, n, test, ns, cur.path, once);
        return;
      }
      WalkOn(t, Following, n, test, ns, cur.path, next.path);
      RemainingDrops(t, cur.path, next.path);
      StaysFollowing(n, cur.path, next.path);
      cur := next;
    }
  }

  lemma StaysFollowing(n: Path, p: Path, q: Path)
    requires Before(p, q)
    requires Before(n, p) && !(n <= p)
    ensures Before(n, q) && !(n <= q)
  {
    BeforeTransitive(n, p, q);
    if n <= q {
      AfterSubtree(n, q, p);
      BeforeAsymmetric(n, p);
      BeforeAsymmetric(p, q);
    }
  }

  method FillFollowingOfAttribute(t: Node, n: Path, test: NodeTest, once: bool) returns (ns: seq<Path>)
    requires ValidPath(t, n)
    ensures ns == Cut(Selection(t, FollowingOfAttribute, n, test), once)
  {
    hide Collected, SelectedSet, Selection, Cut, Passes;
    ns := [];
    var cur := n;
    DescendantsStart(t, n, test, FollowingOfAttribute);
    while true
      invariant ValidPath(t, cur) && (cur == n || Before(n, cur))
      invariant Collected(false, SelectedSet(t, FollowingOfAttribute, n, test), ns, NotAfter(cur))
      invariant once ==> ns == []
      decreases Remaining(t, cur)
    {
      var next := NextInDocument(t, cur, Null);
      if next == Null {
        WalkDone(t, FollowingOfAttribute, n, test, ns, cur, once);
        return;
      }
      RemainingDrops(t, cur, next.path);
      WalkOn(t, FollowingOfAttribute, n, test, ns, cur, next.path);
      if cur != n { BeforeTransitive(n, cur, next.path); }
      cur := next.path;
      ghost var before := ns;
      var pushed;
      ns, pushed := StepPush(t, test, ns, cur);
      WalkStep(t, FollowingOfAttribute, n, test, before, cur, ns);
      if pushed && once { return; }
    }
  }

  // ----- the preceding axis

  ghost function AfterSub(p: Path): iset<Path> {
    iset q: Path | Before(p, q) && !(p <= q)
  }

  ghost function NotBefore(p: Path): iset<Path> {
    iset q: Path | q == p || Before(p, q)
  }

  /** A node met by the backward walk is met after all that comes after it. */
  lemma BackStep(t: Node, n: Path, test: NodeTest, ns: seq<Path>, seen: iset<Path>, cur: Path, r: seq<Path>)
    requires ValidPath(t, cur)
    requires Collected(true, SelectedSet(t, Preceding, n, test), ns, seen)
    requires forall q :: ValidPath(t, q) ==> (q in seen <==> Before(cur, q))
    requires r == if OnAxis(Preceding, n, cur) && Passes(test, NodeAt(t, cur)) then ns + [cur] else ns
    ensures Collected(true, SelectedSet(t, Preceding, n, test), r, NotBefore(cur))
    ensures ns == [] && r != [] ==> r == Cut(Selection(t, Preceding, n, test), true)
  {
    forall q | q in SelectedSet(t, Preceding, n, test) ensures Before(q, cur) || q == cur || Before(cur, q) {
      BeforeTotal(q, cur);
    }
    BeforeIrreflexive(cur);
    Step(t, Preceding, n, test, ns, seen, cur, r, NotBefore(cur));
  }

  lemma BackOn(t: Node, n: Path, test: NodeTest, ns: seq<Path>, seen: iset<Path>, seen': iset<Path>)
    requires Collected(true, SelectedSet(t, Preceding, n, test), ns, seen)
    requires forall q :: ValidPath(t, q) && OnAxis(Preceding, n, q) ==> (q in seen <==> q in seen')
    ensures Collected(true, SelectedSet(t, Preceding, n, test), ns, seen')
  {
  }

  /** Entering the last child passes over nothing. */
  lemma IntoLastChild(t: Node, p: Path, d: Path, q: Path)
    requires ValidPath(t, d) && d != [] && p == Up(d) && NextSibling(t, d) == Null && ValidPath(t, q)
    ensures q in AfterSub(p) <==> q in AfterSub(d)
  {
    if p < q {
      BelowIsUnderChild(t, p, q);
      BelowParent(d, q);
      BeforeAsymmetric(d, q);
    } else if p == q {
      PrefixBefore(p, d);
      BeforeAsymmetric(d, q);
    } else {
      AfterSubtree(p, d, q);
      BeforeTotal(p, q);
      BeforeTotal(d, q);
      BeforeAsymmetric(p, q);
      BeforeAsymmetric(d, q);
    }
  }

  lemma LeafAfter(t: Node, p: Path, q: Path)
    requires ValidPath(t, p) && NodeAt(t, p).children == [] && ValidPath(t, q)
    ensures q in AfterSub(p) <==> Before(p, q)
  {
    LeafExhausted(t, p);
  }

  /** Leaving a first child for its parent passes over nothing but the parent. */
  lemma OutOfFirstChild(t: Node, c: Path, q: Path)
    requires ValidPath(t, c) && c != [] && Last(c) == 0 && ValidPath(t, q)
    ensures q in NotBefore(c) <==> Before(Up(c), q)
  {
    assert c == Up(c) + [0];
    FirstChildNext(t, Up(c), q);
  }

  /** Going to the previous sibling leaves the whole of its subtree ahead. */
  lemma ToPreviousSibling(t: Node, c: Path, s: Path, q: Path)
    requires ValidPath(t, c) && c != [] && Last(c) > 0 && s == Up(c) + [Last(c) - 1] && ValidPath(t, q)
    ensures q in NotBefore(c) <==> q in AfterSub(s)
  {
    var p := Up(c);
    assert Up(s) == p;
    if p < q {
      BelowParent(c, q);
      BelowParent(s, q);
      BeforeAsymmetric(c, q);
      BeforeAsymmetric(s, q);
      if c < q { PrefixBefore(c, q); }
    } else if p == q {
      PrefixBefore(p, c);
      PrefixBefore(p, s);
      BeforeAsymmetric(c, q);
      BeforeAsymmetric(s, q);
    } else {
      assert !(s <= q) && q != c;
      AfterSubtree(p, c, q);
      AfterSubtree(p, s, q);
      BeforeTotal(c, q);
      BeforeTotal(s, q);
      BeforeAsymmetric(c, q);
      BeforeAsymmetric(s, q);
    }
  }

  method NodeIsAncestor(parent: Path, node: Path) returns (r: bool)
    ensures r <==> parent <= node
  {
    var cur := To(node);
    ghost var k := |node|;
    assert node[..k] == node;
    while cur != Null && cur != To(parent)
      invariant -1 <= k <= |node| && cur == if k < 0 then Null else To(node[..k])
      invariant parent <= node ==> |parent| <= k
      decreases k
    {
      assert parent <= node ==> parent == node[..|parent|];
      assert k > 0 ==> Up(node[..k]) == node[..k - 1];
      cur := Parent(cur.path);
      k := k - 1;
    }
    r := cur == To(parent);
  }

  lemma PrecedingNone(t: Node, n: Path, test: NodeTest, once: bool)
    requires forall q :: ValidPath(t, q) ==> !OnAxis(Preceding, n, q)
    ensures [] == Cut(Selection(t, Preceding, n, test), once)
  {
    CollectedAll(t, Preceding, n, test, [], iset{}, once);
  }

  lemma PrecedingOutside(n: Path, q: Path)
    requires OnAxis(Preceding, n, q)
    ensures !(n <= q)
  {
    BeforeAsymmetric(n, q);
    if n < q { PrefixBefore(n, q); }
    assert n == q ==> q <= n;
  }

  /** A first child on the way up from n has nothing of the axis beside it. */
  lemma PrecedingClimb(t: Node, n: Path, c: Path, q: Path)
    requires c <= n && c != [] && Last(c) == 0
    requires OnAxis(Preceding, n, q) && !(c <= q)
    ensures !(Up(c) <= q)
  {
    BeforeAsymmetric(n, q);
    if Up(c) < q {
      BelowParent(c, q);
      AfterSubtree(c, n, q);
    }
    assert q == Up(c) ==> q <= n;
  }

  lemma PrecedingStart(t: Node, n: Path, c: Path, s: Path, test: NodeTest)
    requires ValidPath(t, c) && c <= n && c != [] && Last(c) > 0 && s == Up(c) + [Last(c) - 1]
    requires forall q :: ValidPath(t, q) && OnAxis(Preceding, n, q) ==> !(c <= q)
    ensures Collected(true, SelectedSet(t, Preceding, n, test), [], AfterSub(s))
  {
    forall q | q in SelectedSet(t, Preceding, n, test) ensures q !in AfterSub(s) {
      ToPreviousSibling(t, c, s, q);
      BeforeAsymmetric(n, q);
      AfterSubtree(c, n, q);
    }
  }

  lemma PrecedingSiblingOf(n: Path, c: Path, s: Path)
    requires c <= n || OnAxis(Preceding, n, c)
    requires c != [] && Last(c) > 0 && s == Up(c) + [Last(c) - 1]
    ensures OnAxis(Preceding, n, s)
  {
    hide Before;
    assert Up(s) == Up(c) && Last(s) == Last(c) - 1;
    SiblingOrder(Up(c), Last(c) - 1, c);
    if c <= n {
      BelowSibling(s, c, n);
    } else {
      BeforeTransitive(s, c, n);
      if s <= n {
        AfterSubtree(s, n, c);
        BeforeAsymmetric(n, c);
      }
    }
  }

  lemma BelowSibling(s: Path, c: Path, n: Path)
    requires s != [] && c != [] && Up(s) == Up(c) && Last(s) < Last(c) && c <= n
    ensures Before(s, n) && !(s <= n)
  {
    hide Before;
    assert Up(c) < n && n[|c| - 1] == Last(c);
    BelowParent(s, n);
  }

  lemma PrecedingChildOf(n: Path, p: Path, d: Path)
    requires OnAxis(Preceding, n, p) && p <= d
    ensures OnAxis(Preceding, n, d)
  {
    AfterSubtree(p, d, n);
  }

  lemma PrecedingParentOf(n: Path, c: Path)
    requires c != [] && (c <= n || OnAxis(Preceding, n, c))
    ensures Up(c) <= n || OnAxis(Preceding, n, Up(c))
  {
    PrefixBefore(Up(c), c);
    if c <= n { assert Up(c) <= c; } else { BeforeTransitive(Up(c), c, n); }
  }

  function CountAhead(r: seq<Path>, p: Path): nat {
    if r == [] then 0
    else (if Before(p, r[0]) && !(p <= r[0]) then 0 else 1) + CountAhead(r[1..], p)
  }

  lemma {:induction false} CountAheadDrops(r: seq<Path>, p: Path, q: Path, c: Path)
    requires forall x :: x in r && x in AfterSub(p) ==> x in AfterSub(q)
    requires c in AfterSub(q) && c !in AfterSub(p)
    ensures CountAhead(r, q) <= CountAhead(r, p)
    ensures c in r ==> CountAhead(r, q) < CountAhead(r, p)
  {
    if r != [] {
      assert forall x :: x in r[1..] ==> x in r;
      assert r[0] in r;
      CountAheadDrops(r[1..], p, q, c);
    }
  }

  /** The number of nodes of the document that the backward walk, about to enter p, has not passed. */
  function Ahead(t: Node, p: Path): nat {
    CountAhead(Preorder(t), p)
  }

  lemma AheadDrops(t: Node, p: Path, q: Path, c: Path)
    requires ValidPath(t, c) && c <= p
    requires forall x :: ValidPath(t, x) && x in AfterSub(p) ==> x in AfterSub(q)
    requires c in AfterSub(q)
    ensures Ahead(t, q) < Ahead(t, p)
  {
    PreorderIsDocumentOrder(t);
    if c < p { PrefixBefore(c, p); BeforeAsymmetric(c, p); } else { assert c == p; }
    CountAheadDrops(Preorder(t), p, q, c);
  }

  lemma {:induction false} AheadSame(t: Node, p: Path, q: Path, r: seq<Path>)
    requires forall x :: x in r ==> (x in AfterSub(p) <==> x in AfterSub(q))
    ensures CountAhead(r, p) == CountAhead(r, q)
  {
    if r != [] {
      assert forall x :: x in r[1..] ==> x in r;
      assert r[0] in r;
      AheadSame(t, p, q, r[1..]);
    }
  }

  method FillPreceding(t: Node, n: Path, test: NodeTest, once: bool) returns (ns: seq<Path>)
    requires ValidPath(t, n)
    ensures ns == Cut(Selection(t, Preceding, n, test), once)
  {
    hide Collected, SelectedSet, Selection, Cut, Passes;
    ns := [];
    var c := n;
    forall q | OnAxis(Preceding, n, q) ensures !(n <= q) { PrecedingOutside(n, q); }
    while !HasPrevSibling(t, c)
      invariant ValidPath(t, c) && c <= n
      invariant forall q :: ValidPath(t, q) && OnAxis(Preceding, n, q) ==> !(c <= q)
      decreases |c|
    {
      PrevSiblingIff(t, c);
      if Parent(c) == Null {
        PrecedingNone(t, n, test, once);
        return;
      }
      forall q | ValidPath(t, q) && OnAxis(Preceding, n, q) ensures !(Up(c) <= q) { PrecedingClimb(t, n, c, q); }
      c := Up(c);
    }
    PrevSiblingIff(t, c);
    PrevSiblingC_Valid(t, c);
    var cur := PrevSiblingC(t, c);
    PrecedingStart(t, n, c, cur, test);
    PrecedingSiblingOf(n, c, cur);
    while true
      invariant ValidPath(t, cur) && OnAxis(Preceding, n, cur)
      invariant Collected(true, SelectedSet(t, Preceding, n, test), ns, AfterSub(cur))
      invariant once ==> ns == []
      decreases Ahead(t, cur), NodeAt(t, cur)
    {
      if FirstChild(t, cur) != Null {
        var last := EnterLastChild(t, cur);
        IntoLast(t, n, test, ns, cur, last);
        cur := last;
      } else {
        ghost var before := ns;
        var pushed;
        ns, pushed := StepPush(t, test, ns, cur);
        forall q | ValidPath(t, q) ensures q in AfterSub(cur) <==> Before(cur, q) { LeafAfter(t, cur, q); }
        BackStep(t, n, test, before, AfterSub(cur), cur, ns);
        if pushed && once { return; }
        var stop;
        ns, c, stop := ClimbBack(t, n, test, once, ns, cur);
        if stop { return; }
        PrevSiblingIff(t, c);
        PrevSiblingC_Valid(t, c);
        var s := PrevSiblingC(t, c);
        ToPrevious(t, n, test, ns, cur, c, s);
        cur := s;
      }
    }
  }

  method EnterLastChild(t: Node, p: Path) returns (d: Path)
    requires ValidPath(t, p) && FirstChild(t, p) != Null
    ensures ValidPath(t, d) && d != [] && Up(d) == p && NextSibling(t, d) == Null
    ensures NodeAt(t, d) in NodeAt(t, p).children
  {
    ChildPath(t, p, 0);
    assert Up(p + [0]) == p;
    PrevSiblingC_Valid(t, p + [0]);
    d := PrevSiblingC(t, FirstChild(t, p).path);
    assert Up(d) == p;
  }

  lemma IntoLast(t: Node, n: Path, test: NodeTest, ns: seq<Path>, p: Path, d: Path)
    requires ValidPath(t, d) && d != [] && p == Up(d) && NextSibling(t, d) == Null
    requires Collected(true, SelectedSet(t, Preceding, n, test), ns, AfterSub(p))
    requires OnAxis(Preceding, n, p)
    ensures Collected(true, SelectedSet(t, Preceding, n, test), ns, AfterSub(d))
    ensures OnAxis(Preceding, n, d)
    ensures Ahead(t, d) == Ahead(t, p)
  {
    forall q | ValidPath(t, q) ensures q in AfterSub(p) <==> q in AfterSub(d) { IntoLastChild(t, p, d, q); }
    BackOn(t, n, test, ns, AfterSub(p), AfterSub(d));
    PrecedingChildOf(n, p, d);
    PreorderIsDocumentOrder(t);
    AheadSame(t, d, p, Preorder(t));
  }

  lemma ToPrevious(t: Node, n: Path, test: NodeTest, ns: seq<Path>, cur: Path, c: Path, s: Path)
    requires ValidPath(t, cur) && ValidPath(t, c) && c <= cur
    requires c <= n || OnAxis(Preceding, n, c)
    requires c != [] && Last(c) > 0 && s == Up(c) + [Last(c) - 1]
    requires Collected(true, SelectedSet(t, Preceding, n, test), ns, NotBefore(c))
    ensures Collected(true, SelectedSet(t, Preceding, n, test), ns, AfterSub(s))
    ensures OnAxis(Preceding, n, s)
    ensures Ahead(t, s) < Ahead(t, cur)
  {
    forall q | ValidPath(t, q) ensures q in NotBefore(c) <==> q in AfterSub(s) { ToPreviousSibling(t, c, s, q); }
    BackOn(t, n, test, ns, NotBefore(c), AfterSub(s));
    PrecedingSiblingOf(n, c, s);
    forall x | ValidPath(t, x) && x in AfterSub(cur) ensures x in NotBefore(c) {
      if c < cur { PrefixBefore(c, cur); BeforeTransitive(c, cur, x); } else { assert c == cur; }
    }
    AheadDrops(t, cur, s, c);
  }

  /** The climb of the backward walk: ancestors are passed, and pushed unless they contain n. */
  method ClimbBack(t: Node, n: Path, test: NodeTest, once: bool, ns0: seq<Path>, cur: Path)
    returns (ns: seq<Path>, c: Path, stop: bool)
    requires ValidPath(t, cur) && OnAxis(Preceding, n, cur)
    requires Collected(true, SelectedSet(t, Preceding, n, test), ns0, NotBefore(cur))
    requires once ==> ns0 == []
    ensures stop ==> ns == Cut(Selection(t, Preceding, n, test), once)
    ensures !stop ==> ValidPath(t, c) && c <= cur && (c <= n || OnAxis(Preceding, n, c)) && HasPrevSibling(t, c)
    ensures !stop ==> Collected(true, SelectedSet(t, Preceding, n, test), ns, NotBefore(c)) && (once ==> ns == [])
  {
    hide Collected, SelectedSet, Selection, Cut, Passes;
    ns, c, stop := ns0, cur, false;
    while !HasPrevSibling(t, c)
      invariant ValidPath(t, c) && c <= cur && (c <= n || OnAxis(Preceding, n, c))
      invariant Collected(true, SelectedSet(t, Preceding, n, test), ns, NotBefore(c))
      invariant once ==> ns == []
      decreases |c|
    {
      PrevSiblingIff(t, c);
      if Parent(c) == Null {
        ClimbDone(t, n, test, ns, once);
        return ns, c, true;
      }
      ghost var before, child := ns, c;
      c := Up(c);
      PrecedingParentOf(n, child);
      forall q | ValidPath(t, q) ensures q in NotBefore(child) <==> Before(c, q) { OutOfFirstChild(t, child, q); }
      var ancestor := NodeIsAncestor(c, n);
      var pushed := false;
      if !ancestor {
        ns, pushed := StepPush(t, test, ns, c);
      }
      BackStep(t, n, test, before, NotBefore(child), c, ns);
      if pushed && once { return ns, c, true; }
    }
  }

  lemma ClimbDone(t: Node, n: Path, test: NodeTest, ns: seq<Path>, once: bool)
    requires Collected(true, SelectedSet(t, Preceding, n, test), ns, NotBefore([]))
    requires once ==> ns == []
    ensures ns == Cut(Selection(t, Preceding, n, test), once)
  {
    CollectedAll(t, Preceding, n, test, ns, NotBefore([]), once);
  }

  // ----- all axes

  method FillSelf(t: Node, n: Path, test: NodeTest) returns (ns: seq<Path>)
    requires ValidPath(t, n)
    ensures forall once :: ns == Cut(Selection(t, Self, n, test), once)
  {
    var pushed;
    ns, pushed := StepPush(t, test, [], n);
    forall once ensures ns == Cut(Selection(t, Self, n, test), once) { OnlyNode(t, Self, n, test, n, ns, once); }
  }

  method FillParent(t: Node, n: Path, test: NodeTest) returns (ns: seq<Path>)
    requires ValidPath(t, n)
    ensures forall once :: ns == Cut(Selection(t, ParentAxis, n, test), once)
  {
    ns := [];
    if Parent(n) != Null {
      var pushed;
      ns, pushed := StepPush(t, test, ns, Parent(n).path);
      forall once ensures ns == Cut(Selection(t, ParentAxis, n, test), once) {
        OnlyNode(t, ParentAxis, n, test, Up(n), ns, once);
      }
    } else {
      forall once ensures ns == Cut(Selection(t, ParentAxis, n, test), once) {
        CollectedAll(t, ParentAxis, n, test, [], iset{}, once);
      }
    }
  }

  lemma OnlyNode(t: Node, axis: Axis, n: Path, test: NodeTest, p: Path, ns: seq<Path>, once: bool)
    requires !IsReverse(axis) && ValidPath(t, p)
    requires forall q :: OnAxis(axis, n, q) <==> q == p
    requires ns == if Passes(test, NodeAt(t, p)) then [p] else []
    ensures ns == Cut(Selection(t, axis, n, test), once)
  {
    assert forall q :: q in SelectedSet(t, axis, n, test) ==> q == p;
    assert p in SelectedSet(t, axis, n, test) <==> Passes(test, NodeAt(t, p));
    NothingSeen(t, axis, n, test, iset{});
    hide Collected, SelectedSet, Selection, OnAxis, Passes;
    Step(t, axis, n, test, [], iset{}, p, ns, iset{p});
    CollectedAll(t, axis, n, test, ns, iset{p}, false);
  }

  /** The node part of a location step: the traversal that belongs to the axis delivers the step's
      selection in axis order, or just its first node when asked to stop early. */
  method StepFill(t: Node, axis: Axis, n: Path, test: NodeTest, once: bool) returns (ns: seq<Path>)
    requires ValidPath(t, n)
    ensures axis != AttributeAxis ==> ns == Cut(Selection(t, axis, n, test), once)
  {
    match axis
    case AttributeAxis => ns := [];
    case Child => ns := FillChild(t, n, test, once);
    case Descendant => ns := FillDescendant(t, n, test, once, false);
    case DescendantOrSelf => ns := FillDescendant(t, n, test, once, true);
    case FollowingSibling => ns := FillFollowingSibling(t, n, test, once);
    case PrecedingSibling => ns := FillPrecedingSibling(t, n, test, once);
    case Following => ns := FillFollowing(t, n, test, once);
    case FollowingOfAttribute => ns := FillFollowingOfAttribute(t, n, test, once);
    case Preceding => ns := FillPreceding(t, n, test, once);
    case Ancestor => ns := FillAncestor(t, n, test, once, false);
    case AncestorOrSelf => ns := FillAncestor(t, n, test, once, true);
    case Self => ns := FillSelf(t, n, test);
    case ParentAxis => ns := FillParent(t, n, test);
  }

  // ----- the five axes that partition a document

  lemma {:induction false} CountInOrdered(rev: bool, r: seq<Path>, q: Path)
    requires InOrder(rev, r)
    ensures multiset(r)[q] == if q in r then 1 else 0
  {
    if r != [] {
      assert r == [r[0]] + r[1..];
      CountInOrdered(rev, r[1..], q);
      BeforeIrreflexive(r[0]);
      if q in r[1..] {
        var i :| 1 <= i < |r| && r[i] == q;
        assert Comes(rev, r[0], r[i]);
      }
    }
  }

  /** From every node, the ancestor, descendant, following, preceding and self axes together
      contain every node of the document exactly once. */
  lemma AxesPartitionTheDocument(t: Node, n: Path)
    requires ValidPath(t, n)
    ensures multiset(Selection(t, Ancestor, n, TestNode)) + multiset(Selection(t, Descendant, n, TestNode))
            + multiset(Selection(t, Following, n, TestNode)) + multiset(Selection(t, Preceding, n, TestNode))
            + multiset(Selection(t, Self, n, TestNode)) == multiset(Preorder(t))
  {
    hide Selection, SelectedSet;
    var all := multiset(Selection(t, Ancestor, n, TestNode)) + multiset(Selection(t, Descendant, n, TestNode))
               + multiset(Selection(t, Following, n, TestNode)) + multiset(Selection(t, Preceding, n, TestNode))
               + multiset(Selection(t, Self, n, TestNode));
    forall q ensures all[q] == multiset(Preorder(t))[q] {
      CountOnAxis(t, Ancestor, n, q);
      CountOnAxis(t, Descendant, n, q);
      CountOnAxis(t, Following, n, q);
      CountOnAxis(t, Preceding, n, q);
      CountOnAxis(t, Self, n, q);
      PreorderIsDocumentOrder(t);
      CountInOrdered(false, Preorder(t), q);
      ExactlyOneAxis(n, q);
    }
  }

  lemma CountOnAxis(t: Node, axis: Axis, n: Path, q: Path)
    ensures multiset(Selection(t, axis, n, TestNode))[q]
         == if ValidPath(t, q) && OnAxis(axis, n, q) then 1 else 0
  {
    SelectionOrdered(t, axis, n, TestNode);
    CountInOrdered(IsReverse(axis), Selection(t, axis, n, TestNode), q);
  }

  lemma ExactlyOneAxis(n: Path, q: Path)
    ensures (if OnAxis(Ancestor, n, q) then 1 else 0) + (if OnAxis(Descendant, n, q) then 1 else 0)
            + (if OnAxis(Following, n, q) then 1 else 0) + (if OnAxis(Preceding, n, q) then 1 else 0)
            + (if OnAxis(Self, n, q) then 1 else 0) == 1
  {
    BeforeTotal(n, q);
    BeforeAsymmetric(n, q);
    BeforeIrreflexive(n);
    if n < q { PrefixBefore(n, q); }
    if q < n { PrefixBefore(q, n); }
    assert n <= q && !(n < q) ==> n == q;
    assert q <= n && !(q < n) ==> n == q;
  }

  /** From an attribute, the following axis is all that lies below its element, then all that
      follows the element. */
  lemma FollowingOfAttributeSplits(t: Node, n: Path, test: NodeTest)
    requires ValidPath(t, n)
    ensures Selection(t, FollowingOfAttribute, n, test)
         == Selection(t, Descendant, n, test) + Selection(t, Following, n, test)
  {
    var a, d, f := Selection(t, FollowingOfAttribute, n, test), Selection(t, Descendant, n, test),
                   Selection(t, Following, n, test);
    SelectionSpec(t, FollowingOfAttribute, n, test);
    SelectionSpec(t, Descendant, n, test);
    SelectionSpec(t, Following, n, test);
    forall q ensures q in a <==> q in d + f {
      if n < q { PrefixBefore(n, q); }
      if n == q { BeforeIrreflexive(n); }
      assert n <= q && !(n < q) ==> n == q;
    }
    forall i, j | 0 <= i < j < |d + f| ensures Before((d + f)[i], (d + f)[j]) {
      if i < |d| <= j {
        assert d[i] in d && f[j - |d|] in f;
        AfterSubtree(n, d[i], f[j - |d|]);
      } else if |d| <= i {
        assert Before(f[i - |d|], f[j - |d|]);
      }
    }
    SortedUnique(a, d + f);
  }
}
