/** Trees of XML nodes, the pointers between the nodes of one tree, and document order.

    A node of a tree is named by the child indices that lead to it from the document node, so
    two names are equal exactly when the source's two node pointers are. The pointer fields
    `parent`, `first_child`, `next_sibling` and the cyclic `prev_sibling_c` are functions of the
    tree: nothing in the modelled traversals changes a link. */
module XmlTree {
  datatype Kind = Document | Element | Pcdata | Cdata | Comment | Pi | Declaration | Doctype

  datatype Attribute = Attribute(name: string, value: string)

  datatype Node = Node(kind: Kind, name: string, value: string, attrs: seq<Attribute>, children: seq<Node>)

  type Path = seq<nat>

  /** A nullable node pointer. */
  datatype Ptr = Null | To(path: Path)

  function Up(p: Path): (r: Path)
    requires p != []
  {
    p[..|p| - 1]
  }

  function Last(p: Path): nat
    requires p != []
  {
    p[|p| - 1]
  }

  predicate ValidPath(t: Node, p: Path)
    decreases |p|, 0
  {
    p == [] || (ValidPath(t, Up(p)) && Last(p) < |NodeAt(t, Up(p)).children|)
  }

  function NodeAt(t: Node, p: Path): Node
    requires ValidPath(t, p)
    decreases |p|, 1
  {
    if p == [] then t else NodeAt(t, Up(p)).children[Last(p)]
  }

  // ----- the pointer fields

  function Parent(p: Path): Ptr {
    if p == [] then Null else To(Up(p))
  }

  function FirstChild(t: Node, p: Path): Ptr
    requires ValidPath(t, p)
  {
    if NodeAt(t, p).children == [] then Null else To(p + [0])
  }

  function NextSibling(t: Node, p: Path): Ptr
    requires ValidPath(t, p)
  {
    if p != [] && Last(p) + 1 < |NodeAt(t, Up(p)).children| then To(Up(p) + [Last(p) + 1]) else Null
  }

  /** The previous sibling; of a first child, the last one; of the document node, itself. */
  function PrevSiblingC(t: Node, p: Path): Path
    requires ValidPath(t, p)
  {
    if p == [] then []
    else if Last(p) > 0 then Up(p) + [Last(p) - 1]
    else Up(p) + [|NodeAt(t, Up(p)).children| - 1]
  }

  /** The test by which the source recognises a node with a previous sibling. */
  predicate HasPrevSibling(t: Node, p: Path)
    requires ValidPath(t, p)
  {
    PrevSiblingC_Valid(t, p);
    NextSibling(t, PrevSiblingC(t, p)) != Null
  }

  lemma ChildPath(t: Node, p: Path, k: nat)
    ensures ValidPath(t, p + [k]) <==> ValidPath(t, p) && k < |NodeAt(t, p).children|
    ensures ValidPath(t, p + [k]) ==> NodeAt(t, p + [k]) == NodeAt(t, p).children[k]
  {
    assert Up(p + [k]) == p;
  }

  lemma NextSiblingPath(t: Node, p: Path, k: nat)
    requires ValidPath(t, p + [k])
    ensures ValidPath(t, p) && k < |NodeAt(t, p).children|
    ensures NextSibling(t, p + [k]) == if k + 1 < |NodeAt(t, p).children| then To(p + [k + 1]) else Null
    ensures NextSibling(t, p + [k]) != Null ==> ValidPath(t, p + [k + 1])
  {
    ChildPath(t, p, k);
    ChildPath(t, p, k + 1);
    assert Up(p + [k]) == p;
  }

  lemma PrevSiblingC_Valid(t: Node, p: Path)
    requires ValidPath(t, p)
    ensures ValidPath(t, PrevSiblingC(t, p))
  {
    if p != [] {
      ChildPath(t, Up(p), if Last(p) > 0 then Last(p) - 1 else |NodeAt(t, Up(p)).children| - 1);
    }
  }

  lemma PrevSiblingIff(t: Node, p: Path)
    requires ValidPath(t, p)
    ensures HasPrevSibling(t, p) <==> p != [] && Last(p) > 0
    ensures HasPrevSibling(t, p) ==> PrevSiblingC(t, p) == Up(p) + [Last(p) - 1]
  {
    PrevSiblingC_Valid(t, p);
    if p != [] {
      var c := PrevSiblingC(t, p);
      assert Up(c) == Up(p);
    }
  }

  // ----- document order

  /** p comes before q in document order: an ancestor precedes its descendants, and otherwise the
      first index on which the two disagree decides. */
  predicate Before(p: Path, q: Path) {
    if q == [] then false
    else if p == [] then true
    else p[0] < q[0] || (p[0] == q[0] && Before(p[1..], q[1..]))
  }

  lemma {:induction false} BeforeIrreflexive(p: Path)
    ensures !Before(p, p)
  {
    if p != [] { BeforeIrreflexive(p[1..]); }
  }

  lemma {:induction false} BeforeTotal(p: Path, q: Path)
    ensures p == q || Before(p, q) || Before(q, p)
  {
    if p != [] && q != [] && p[0] == q[0] {
      BeforeTotal(p[1..], q[1..]);
      assert p == [p[0]] + p[1..] && q == [q[0]] + q[1..];
    }
  }

  lemma {:induction false} BeforeTransitive(p: Path, q: Path, r: Path)
    requires Before(p, q) && Before(q, r)
    ensures Before(p, r)
  {
    if p != [] && p[0] == q[0] && q[0] == r[0] { BeforeTransitive(p[1..], q[1..], r[1..]); }
  }

  lemma BeforeAsymmetric(p: Path, q: Path)
    ensures !(Before(p, q) && Before(q, p))
  {
    if Before(p, q) && Before(q, p) {
      BeforeTransitive(p, q, p);
      BeforeIrreflexive(p);
    }
  }

  /** Order is decided below a common prefix. */
  lemma {:induction false} BeforeCommonPrefix(c: Path, p: Path, q: Path)
    ensures Before(c + p, c + q) <==> Before(p, q)
  {
    if c == [] {
      assert c + p == p && c + q == q;
    } else {
      assert (c + p)[1..] == c[1..] + p && (c + q)[1..] == c[1..] + q;
      BeforeCommonPrefix(c[1..], p, q);
    }
  }

  lemma PrefixBefore(p: Path, q: Path)
    requires p < q
    ensures Before(p, q)
  {
    assert q == p + q[|p|..] && p + [] == p;
    BeforeCommonPrefix(p, [], q[|p|..]);
  }

  /** What comes after c without lying below it comes after everything below c. */
  lemma {:induction false} AfterSubtree(c: Path, d: Path, q: Path)
    requires c <= d && !(c <= q)
    ensures Before(c, q) ==> Before(d, q)
    ensures Before(q, c) <==> Before(q, d)
  {
    if c != [] && q != [] && c[0] == q[0] {
      assert c == [c[0]] + c[1..] && q == [q[0]] + q[1..];
      AfterSubtree(c[1..], d[1..], q[1..]);
    }
  }

  ghost predicate Sorted(r: seq<Path>) {
    forall i, j :: 0 <= i < j < |r| ==> Before(r[i], r[j])
  }

  ghost predicate ReverseSorted(r: seq<Path>) {
    forall i, j :: 0 <= i < j < |r| ==> Before(r[j], r[i])
  }

  /** A list in document order is determined by its members. */
  lemma {:induction false} SortedUnique(a: seq<Path>, b: seq<Path>)
    requires Sorted(a) && Sorted(b)
    requires forall p :: p in a <==> p in b
    ensures a == b
  {
    if b != [] { assert b[0] in b; }
    if a != [] {
      assert a[0] in a;
      assert b != [] by { assert a[0] in b; }
      SortedHeadLeast(a, b[0]);
      SortedHeadLeast(b, a[0]);
      BeforeAsymmetric(a[0], b[0]);
      BeforeIrreflexive(a[0]);
      forall p ensures p in a[1..] <==> p in b[1..] {
        SortedTail(a, p);
        SortedTail(b, p);
      }
      SortedUnique(a[1..], b[1..]);
      assert a == [a[0]] + a[1..] && b == [b[0]] + b[1..];
    }
  }

  lemma SortedHeadLeast(a: seq<Path>, p: Path)
    requires Sorted(a) && a != []
    ensures p in a ==> p == a[0] || Before(a[0], p)
  {
  }

  lemma SortedTail(a: seq<Path>, p: Path)
    requires Sorted(a) && a != []
    ensures p in a[1..] <==> p in a && p != a[0]
  {
    BeforeIrreflexive(a[0]);
    if p in a[1..] {
      var i :| 1 <= i < |a| && a[i] == p;
    }
  }

  lemma {:induction false} ReverseSortedUnique(a: seq<Path>, b: seq<Path>)
    requires ReverseSorted(a) && ReverseSorted(b)
    requires forall p :: p in a <==> p in b
    ensures a == b
  {
    ReverseMembers(a);
    ReverseMembers(b);
    SortedUnique(Reverse(a), Reverse(b));
    ReverseTwice(a);
    ReverseTwice(b);
  }

  function Reverse(r: seq<Path>): (s: seq<Path>)
    ensures |s| == |r| && forall i :: 0 <= i < |r| ==> s[i] == r[|r| - 1 - i]
  {
    if r == [] then [] else Reverse(r[1..]) + [r[0]]
  }

  lemma ReverseMembers(r: seq<Path>)
    ensures forall p :: p in r <==> p in Reverse(r)
    ensures Sorted(Reverse(r)) <==> ReverseSorted(r)
    ensures ReverseSorted(Reverse(r)) <==> Sorted(r)
  {
    var s := Reverse(r);
    forall p | p in r ensures p in s {
      var i :| 0 <= i < |r| && r[i] == p;
      assert s[|r| - 1 - i] == p;
    }
    assert forall i :: 0 <= i < |r| ==> r[i] == s[|r| - 1 - i];
  }

  lemma ReverseTwice(r: seq<Path>)
    ensures Reverse(Reverse(r)) == r
  {
  }

  // ----- neighbours in document order

  lemma {:induction false} PrefixValid(t: Node, p: Path, k: nat)
    requires ValidPath(t, p) && k <= |p|
    ensures ValidPath(t, p[..k])
  {
    if k < |p| {
      PrefixValid(t, Up(p), k);
      assert Up(p)[..k] == p[..k];
    } else {
      assert p[..k] == p;
    }
  }

  /** Below a parent, the index at the children's level decides. */
  lemma BelowParent(c: Path, q: Path)
    requires c != [] && Up(c) < q
    ensures var k := q[|c| - 1];
      && (k < Last(c) ==> Before(q, c) && !(c <= q))
      && (k == Last(c) ==> c <= q)
      && (k > Last(c) ==> Before(c, q) && !(c <= q))
  {
    var p := Up(c);
    assert c == p + [Last(c)] && q == p + q[|p|..];
    BeforeCommonPrefix(p, q[|p|..], [Last(c)]);
    BeforeCommonPrefix(p, [Last(c)], q[|p|..]);
  }

  /** A node of the document below c lies below, or is, an existing child of c. */
  lemma BelowIsUnderChild(t: Node, c: Path, q: Path)
    requires ValidPath(t, q) && c < q
    ensures ValidPath(t, c) && q[|c|] < |NodeAt(t, c).children| && c + [q[|c|]] <= q
  {
    PrefixValid(t, q, |c| + 1);
    assert q[..|c| + 1] == c + [q[|c|]];
    ChildPath(t, c, q[|c|]);
  }

  /** The first child of p follows p immediately. */
  lemma FirstChildNext(t: Node, p: Path, q: Path)
    requires ValidPath(t, p) && NodeAt(t, p).children != [] && ValidPath(t, q)
    ensures Before(p, q) <==> q == p + [0] || Before(p + [0], q)
  {
    var c := p + [0];
    assert Up(c) == p;
    if p < q {
      PrefixBefore(p, q);
      BelowParent(c, q);
      if c < q { PrefixBefore(c, q); }
    } else if p == q {
      PrefixBefore(p, c);
      BeforeIrreflexive(p);
      BeforeAsymmetric(p, c);
    } else {
      AfterSubtree(p, c, q);
      BeforeTotal(p, q);
      BeforeTotal(c, q);
      BeforeAsymmetric(p, q);
      BeforeAsymmetric(c, q);
    }
  }

  /** Nothing in the subtree of c comes after p. */
  ghost predicate Exhausted(t: Node, c: Path, p: Path) {
    c <= p && forall q :: ValidPath(t, q) && c <= q ==> !Before(p, q)
  }

  lemma LeafExhausted(t: Node, p: Path)
    requires ValidPath(t, p) && NodeAt(t, p).children == []
    ensures Exhausted(t, p, p)
  {
    forall q | ValidPath(t, q) && p <= q ensures !Before(p, q) {
      if p < q {
        BelowIsUnderChild(t, p, q);
      } else {
        assert q == p;
        BeforeIrreflexive(p);
      }
    }
  }

  lemma ExhaustedUp(t: Node, c: Path, p: Path)
    requires ValidPath(t, c) && Exhausted(t, c, p) && c != [] && NextSibling(t, c) == Null
    ensures Exhausted(t, Up(c), p)
  {
    assert Up(c) <= c <= p;
    forall q | ValidPath(t, q) && Up(c) <= q ensures !Before(p, q) {
      if q == Up(c) {
        PrefixBefore(Up(c), p);
        BeforeAsymmetric(p, q);
      } else {
        BelowIsUnderChild(t, Up(c), q);
        BelowParent(c, q);
        if q[|c| - 1] < Last(c) {
          AfterSubtree(c, p, q);
          BeforeAsymmetric(p, q);
        }
      }
    }
  }

  /** Once the subtree of c is exhausted, its next sibling is what follows p. */
  lemma ExhaustedSibling(t: Node, c: Path, p: Path, q: Path)
    requires ValidPath(t, c) && Exhausted(t, c, p) && NextSibling(t, c) != Null && ValidPath(t, q)
    ensures var s := NextSibling(t, c).path; Before(p, q) <==> q == s || Before(s, q)
  {
    var s := NextSibling(t, c).path;
    assert Up(s) == Up(c) && Last(s) == Last(c) + 1;
    if Up(c) < q {
      BelowParent(c, q);
      BelowParent(s, q);
      if c <= q {
        BeforeAsymmetric(s, q);
      } else {
        AfterSubtree(c, p, q);
        BeforeAsymmetric(p, q);
        BeforeAsymmetric(s, q);
        if s < q { PrefixBefore(s, q); }
      }
    } else if q == Up(c) {
      PrefixBefore(q, p);
      PrefixBefore(q, s);
      BeforeAsymmetric(q, p);
      BeforeAsymmetric(q, s);
    } else {
      AfterSubtree(Up(c), p, q);
      AfterSubtree(Up(c), s, q);
      BeforeTotal(p, q);
      BeforeTotal(s, q);
      BeforeAsymmetric(p, q);
      BeforeAsymmetric(s, q);
    }
  }

  /** The last node, in document order, of the subtree of p. */
  function LastBelow(t: Node, p: Path): Path
    requires ValidPath(t, p)
    decreases NodeAt(t, p)
  {
    var k := |NodeAt(t, p).children|;
    if k == 0 then p else ChildPath(t, p, k - 1); LastBelow(t, p + [k - 1])
  }

  lemma {:induction false} LastBelowLast(t: Node, p: Path)
    requires ValidPath(t, p)
    ensures ValidPath(t, LastBelow(t, p)) && Exhausted(t, p, LastBelow(t, p))
    decreases NodeAt(t, p)
  {
    var k := |NodeAt(t, p).children|;
    if k == 0 {
      LeafExhausted(t, p);
    } else {
      ChildPath(t, p, k - 1);
      LastBelowLast(t, p + [k - 1]);
      assert Up(p + [k - 1]) == p;
      ExhaustedUp(t, p + [k - 1], LastBelow(t, p));
    }
  }

  /** What follows p outside its subtree is what follows the last node of the subtree. */
  lemma AfterLastBelow(t: Node, p: Path, q: Path)
    requires ValidPath(t, p) && ValidPath(t, q)
    ensures Before(p, q) && !(p <= q) <==> Before(LastBelow(t, p), q)
  {
    LastBelowLast(t, p);
    if !(p <= q) {
      AfterSubtree(p, LastBelow(t, p), q);
      BeforeTotal(p, q);
      BeforeAsymmetric(LastBelow(t, p), q);
    }
  }

  // ----- the document as a list

  /** The nodes of a tree, each before its children and children from first to last. */
  function Preorder(t: Node): seq<Path>
    decreases t, 0
  {
    [[]] + PreorderOf(t.children, 0)
  }

  function PreorderOf(ns: seq<Node>, k: nat): seq<Path>
    decreases ns, 1
  {
    if ns == [] then [] else Prepend(k, Preorder(ns[0])) + PreorderOf(ns[1..], k + 1)
  }

  function Prepend(k: nat, r: seq<Path>): (s: seq<Path>)
    ensures |s| == |r| && forall i :: 0 <= i < |r| ==> s[i] == [k] + r[i]
  {
    if r == [] then [] else [[k] + r[0]] + Prepend(k, r[1..])
  }

  lemma {:induction false} PathFromTop(t: Node, p: Path)
    requires p != []
    ensures ValidPath(t, p) <==> p[0] < |t.children| && ValidPath(t.children[p[0]], p[1..])
    ensures ValidPath(t, p) ==> NodeAt(t, p) == NodeAt(t.children[p[0]], p[1..])
    decreases |p|
  {
    if |p| == 1 {
      assert Up(p) == [];
    } else {
      PathFromTop(t, Up(p));
      assert Up(p)[0] == p[0] && Up(p)[1..] == Up(p[1..]);
    }
  }

  /** Preorder lists the nodes of the document, each once, in document order. */
  lemma {:induction false} PreorderIsDocumentOrder(t: Node)
    ensures Sorted(Preorder(t))
    ensures forall p :: p in Preorder(t) <==> ValidPath(t, p)
    decreases t, 0
  {
    PreorderOfIsDocumentOrder(t.children, 0);
    var rest := PreorderOf(t.children, 0);
    forall p ensures p in Preorder(t) <==> ValidPath(t, p) {
      if p != [] {
        PathFromTop(t, p);
        assert p in rest <==> LeadsInto(t.children, 0, p);
        assert p in Preorder(t) <==> p in rest;
      } else {
        assert Preorder(t)[0] == [];
      }
    }
    forall i, j | 0 <= i < j < |Preorder(t)| ensures Before(Preorder(t)[i], Preorder(t)[j]) {
      assert Preorder(t)[j] == rest[j - 1] && rest[j - 1] in rest;
      if i > 0 { assert Preorder(t)[i] == rest[i - 1]; }
    }
  }

  /** p leads into one of the nodes ns, of which the first has index k. */
  ghost predicate LeadsInto(ns: seq<Node>, k: nat, p: Path) {
    p != [] && k <= p[0] < k + |ns| && ValidPath(ns[p[0] - k], p[1..])
  }

  lemma LeadsIntoFirst(ns: seq<Node>, k: nat, p: Path)
    requires ns != []
    ensures LeadsInto(ns, k, p) <==>
      (p != [] && p[0] == k && ValidPath(ns[0], p[1..])) || LeadsInto(ns[1..], k + 1, p)
  {
    hide ValidPath;
    if p != [] && k < p[0] < k + |ns| { assert ns[1..][p[0] - (k + 1)] == ns[p[0] - k]; }
  }

  lemma {:induction false} PreorderOfIsDocumentOrder(ns: seq<Node>, k: nat)
    ensures Sorted(PreorderOf(ns, k))
    ensures forall p :: p in PreorderOf(ns, k) <==> LeadsInto(ns, k, p)
    decreases ns, 1
  {
    hide Sorted, ValidPath, LeadsInto;
    if ns != [] {
      var a, b := Prepend(k, Preorder(ns[0])), PreorderOf(ns[1..], k + 1);
      PreorderIsDocumentOrder(ns[0]);
      PreorderOfIsDocumentOrder(ns[1..], k + 1);
      PrependMembers(k, Preorder(ns[0]));
      forall p ensures p in a + b <==> LeadsInto(ns, k, p) {
        LeadsIntoFirst(ns, k, p);
        assert p in a + b <==> p in a || p in b;
      }
      forall p | p in b ensures p != [] && k < p[0] {
        LeadsIntoBounds(ns[1..], k + 1, p);
      }
      SortedJoin(a, b, k);
    } else {
      NothingSorted();
      forall p ensures !LeadsInto(ns, k, p) {
        LeadsIntoBounds(ns, k, p);
      }
    }
  }

  lemma LeadsIntoBounds(ns: seq<Node>, k: nat, p: Path)
    ensures LeadsInto(ns, k, p) ==> p != [] && k <= p[0] && ns != []
  {
    hide ValidPath;
  }

  lemma NothingSorted()
    ensures Sorted([])
  {
  }

  /** Paths into the k-th child come before paths into later ones. */
  lemma SortedJoin(a: seq<Path>, b: seq<Path>, k: nat)
    requires Sorted(a) && Sorted(b)
    requires forall p :: p in a ==> p != [] && p[0] == k
    requires forall p :: p in b ==> p != [] && k < p[0]
    ensures Sorted(a + b)
  {
    forall i, j | 0 <= i < j < |a + b| ensures Before((a + b)[i], (a + b)[j]) {
      if i < |a| <= j {
        assert a[i] in a && b[j - |a|] in b;
      } else if |a| <= i {
        assert Before(b[i - |a|], b[j - |a|]);
      }
    }
  }

  lemma PrependMembers(k: nat, r: seq<Path>)
    ensures forall p :: p in Prepend(k, r) <==> p != [] && p[0] == k && p[1..] in r
    ensures Sorted(r) ==> Sorted(Prepend(k, r))
  {
    var s := Prepend(k, r);
    forall p ensures p in s <==> p != [] && p[0] == k && p[1..] in r {
      if p in s {
        var i :| 0 <= i < |s| && s[i] == p;
        assert p[1..] == r[i];
      }
      if p != [] && p[0] == k && p[1..] in r {
        var i :| 0 <= i < |r| && r[i] == p[1..];
        assert s[i] == [k] + p[1..] == p;
      }
    }
    if Sorted(r) {
      forall i, j | 0 <= i < j < |s| ensures Before(s[i], s[j]) {
        BeforeCommonPrefix([k], r[i], r[j]);
      }
    }
  }
}
