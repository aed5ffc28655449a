/** XPath expressions, their evaluation, and the optimizer that rewrites a parsed query.

    Evaluation collects all nodes of a node set. Everything the optimizer never looks into (the
    other operators and functions, conversions, variable values) is a parameter, so the results
    hold for every interpretation of it. */
module XPathOptimizer {
  import opened XmlTree
  import opened XmlAxes
  import opened DocumentOrder
  import opened Translate

  datatype Maybe<+T> = Nothing | Just(value: T)

  datatype Type = TNodes | TNumber | TText | TBoolean

  datatype Value = Nodes(nodes: set<XNode>) | Number(number: real) | Text(text: string) | Boolean(boolean: bool)

  datatype Class = Default | PosInv | Constant | ConstantOne

  datatype Predicate = Predicate(expr: Expr, cls: Class)

  datatype Expr =
    | StringConstant(text: string)
    | NumberConstant(number: real)
    | Variable(name: string, ty: Type)
    | PositionFn
    | LastFn
    | Equal(left: Expr, right: Expr)
    | Union(left: Expr, right: Expr)
    | TranslateFn(subject: Expr, from: Expr, to: Expr)
    | Call(name: string, ty: Type, args: seq<Expr>) // every other operator and function
    | Id(arg: Expr)
    | Root
    | Step(input: Maybe<Expr>, axis: Axis, test: NodeTest, predicates: seq<Predicate>)
    | Filter(left: Expr, pred: Predicate)
    | TranslateByTable(subject: Expr, table: seq<nat>)
    | CompareAttribute(name: string, right: Expr)

  function StaticType(e: Expr): Type {
    match e
    case StringConstant(_) => TText
    case NumberConstant(_) => TNumber
    case Variable(_, ty) => ty
    case PositionFn => TNumber
    case LastFn => TNumber
    case Equal(_, _) => TBoolean
    case Union(_, _) => TNodes
    case TranslateFn(_, _, _) => TText
    case Call(_, ty, _) => ty
    case Id(_) => TNodes
    case Root => TNodes
    case Step(_, _, _, _) => TNodes
    case Filter(_, _) => TNodes
    case TranslateByTable(_, _) => TText
    case CompareAttribute(_, _) => TBoolean
  }

  /** The document queried and the meaning of everything the optimizer does not look into. */
  datatype World = World(
    doc: Node,
    variables: string -> Value,
    call: (string, seq<Value>, Maybe<XNode>) -> Value,
    toText: Value -> string,
    toNumber: Value -> real,
    equal: (Value, Value) -> bool,
    nodeText: Path -> string,
    documentOrder: set<XNode> -> seq<XNode>,
    anyOrder: set<XNode> -> seq<XNode>)

  /** Listing a node set, sorted or not, loses and invents nothing. */
  ghost predicate WorldOk(w: World) {
    && (forall s, x :: x in w.documentOrder(s) <==> x in s)
    && (forall s, x :: x in w.anyOrder(s) <==> x in s)
  }

  function TypeOf(v: Value): Type {
    match v
    case Nodes(_) => TNodes
    case Number(_) => TNumber
    case Text(_) => TText
    case Boolean(_) => TBoolean
  }

  /** What the query parser guarantees of the tree it builds. */
  predicate WellTyped(w: World, e: Expr)
    decreases e
  {
    match e
    case Variable(name, ty) => TypeOf(w.variables(name)) == ty
    case Equal(l, r) => WellTyped(w, l) && WellTyped(w, r)
    case Union(l, r) => WellTyped(w, l) && WellTyped(w, r) && StaticType(l) == TNodes && StaticType(r) == TNodes
    case TranslateFn(s, f, t) => WellTyped(w, s) && WellTyped(w, f) && WellTyped(w, t)
    case Call(_, ty, args) => ty != TNodes && forall i :: 0 <= i < |args| ==> WellTyped(w, args[i])
    case Id(a) => WellTyped(w, a)
    case Step(input, _, _, ps) =>
      && (input.Just? ==> WellTyped(w, input.value) && StaticType(input.value) == TNodes)
      && forall i :: 0 <= i < |ps| ==> WellTyped(w, ps[i].expr)
    case Filter(l, p) => WellTyped(w, l) && StaticType(l) == TNodes && WellTyped(w, p.expr)
    case TranslateByTable(s, table) => WellTyped(w, s)
    case CompareAttribute(_, r) => WellTyped(w, r) && StaticType(r) == TText
    case _ => true
  }

  /** The predicates of a freshly parsed query are unclassified. */
  predicate Fresh(e: Expr)
    decreases e
  {
    match e
    case Equal(l, r) => Fresh(l) && Fresh(r)
    case Union(l, r) => Fresh(l) && Fresh(r)
    case TranslateFn(s, f, t) => Fresh(s) && Fresh(f) && Fresh(t)
    case Call(_, _, args) => forall i :: 0 <= i < |args| ==> Fresh(args[i])
    case Id(a) => Fresh(a)
    case Step(input, _, _, ps) =>
      && (input.Just? ==> Fresh(input.value))
      && forall i :: 0 <= i < |ps| ==> ps[i].cls == Default && Fresh(ps[i].expr)
    case Filter(l, p) => Fresh(l) && p.cls == Default && Fresh(p.expr)
    case TranslateByTable(_, _) => false
    case CompareAttribute(_, _) => false
    case _ => true
  }

  // ----- evaluation

  datatype Context = Context(node: Maybe<XNode>, position: nat, size: nat)

  function NodesOf(v: Value): set<XNode> {
    if v.Nodes? then v.nodes else {}
  }

  function NumberOf(w: World, v: Value): real {
    if v.Number? then v.number else w.toNumber(v)
  }

  function TextOf(w: World, v: Value): string {
    if v.Text? then v.text else w.toText(v)
  }

  predicate Truth(v: Value) {
    match v
    case Nodes(s) => s != {}
    case Number(r) => r != 0.0
    case Text(s) => s != ""
    case Boolean(b) => b
  }

  function NodeText(w: World, x: XNode): string {
    if x.OfNode? then w.nodeText(x.path)
    else if ValidXNode(w.doc, x) then NodeAt(w.doc, x.path).attrs[x.index].value
    else ""
  }

  /** compare_eq; operand types the optimizer never relies on are left to the world. */
  predicate EqualValues(w: World, lt: Type, l: Value, rt: Type, r: Value) {
    if lt == TNumber && rt == TNumber then NumberOf(w, l) == NumberOf(w, r)
    else if lt == TNodes && rt == TText then exists x :: x in NodesOf(l) && NodeText(w, x) == TextOf(w, r)
    else w.equal(l, r)
  }

  predicate IsXPathAttribute(name: string) {
    !("xmlns" <= name && (|name| == 5 || name[5] == ':'))
  }

  predicate PassesAttribute(test: NodeTest, name: string) {
    match test
    case TestName(n) => name == n && IsXPathAttribute(name)
    case TestNode => IsXPathAttribute(name)
    case TestAll => IsXPathAttribute(name)
    case TestAllInNamespace(prefix) => prefix <= name && IsXPathAttribute(name)
    case _ => false
  }

  function KeepAttributes(p: Path, attrs: seq<Attribute>, k: nat, test: NodeTest): seq<XNode> {
    if attrs == [] then []
    else (if PassesAttribute(test, attrs[0].name) then [OfAttribute(p, k)] else [])
         + KeepAttributes(p, attrs[1..], k + 1, test)
  }

  function AsNodes(r: seq<Path>): (s: seq<XNode>)
    ensures |s| == |r| && forall i :: 0 <= i < |r| ==> s[i] == OfNode(r[i])
  {
    if r == [] then [] else [OfNode(r[0])] + AsNodes(r[1..])
  }

  function SelfAttribute(t: Node, x: XNode, test: NodeTest): seq<XNode>
    requires x.OfAttribute?
  {
    if test == TestNode && ValidXNode(t, x) && IsXPathAttribute(NodeAt(t, x.path).attrs[x.index].name) then [x] else []
  }

  /** What step_fill delivers for one context node, when it is not told to stop early. */
  function StepList(t: Node, axis: Axis, test: NodeTest, x: XNode): seq<XNode> {
    match x
    case OfNode(n) =>
      if axis == AttributeAxis then
        (if ValidPath(t, n) then KeepAttributes(n, NodeAt(t, n).attrs, 0, test) else [])
      else AsNodes(Selection(t, axis, n, test))
    case OfAttribute(n, _) =>
      match axis {
        case Ancestor => AsNodes(Selection(t, AncestorOrSelf, n, test))
        case AncestorOrSelf => SelfAttribute(t, x, test) + AsNodes(Selection(t, AncestorOrSelf, n, test))
        case DescendantOrSelf => SelfAttribute(t, x, test)
        case Self => SelfAttribute(t, x, test)
        case Following => AsNodes(Selection(t, FollowingOfAttribute, n, test))
        case ParentAxis => AsNodes(Selection(t, Self, n, test))
        case Preceding => AsNodes(Selection(t, Preceding, n, test))
        case _ => []
      }
  }

  function First(s: seq<XNode>, once: bool): seq<XNode> {
    if once && s != [] then s[..1] else s
  }

  function AsSet(s: seq<XNode>): set<XNode> {
    set x | x in s
  }

  /** The early exit that step_do chooses for an axis, a test and predicates. */
  predicate Once(axis: Axis, test: NodeTest, ps: seq<Predicate>) {
    (axis == AttributeAxis && test.TestName?) || (|ps| == 1 && ps[0].cls == ConstantOne)
  }

  function Eval(w: World, e: Expr, c: Context): Value
    decreases e, 3
  {
    match e
    case StringConstant(s) => Text(s)
    case NumberConstant(r) => Number(r)
    case Variable(name, _) => w.variables(name)
    case PositionFn => Number(c.position as real)
    case LastFn => Number(c.size as real)
    case Equal(l, r) => Boolean(EqualValues(w, StaticType(l), Eval(w, l, c), StaticType(r), Eval(w, r, c)))
    case Union(l, r) => Nodes(NodesOf(Eval(w, l, c)) + NodesOf(Eval(w, r, c)))
    case TranslateFn(s, f, t) =>
      Text(Translated(TextOf(w, Eval(w, s, c)), TextOf(w, Eval(w, f, c)), TextOf(w, Eval(w, t, c))))
    case Call(name, _, args) => w.call(name, EvalArgs(w, args, c), c.node)
    case Id(_) => Nodes({})
    case Root => Nodes(if c.node.Just? then {OfNode([])} else {})
    case Step(input, axis, test, ps) =>
      var contexts := if input.Just? then NodesOf(Eval(w, input.value, c))
                      else if c.node.Just? then {c.node.value} else {};
      Nodes(StepUnion(w, axis, test, ps, contexts))
    case Filter(l, p) =>
      var s := NodesOf(Eval(w, l, c));
      var list := if p.cls == PosInv then w.anyOrder(s) else w.documentOrder(s);
      Nodes(AsSet(ApplyPredicate(w, p, list)))
    case TranslateByTable(s, table) =>
      if |table| == 128 && forall i :: 0 <= i < 128 ==> table[i] <= 128
      then Text(Tabled(TextOf(w, Eval(w, s, c)), table)) else Text("")
    case CompareAttribute(name, r) =>
      Boolean(c.node.Just? && c.node.value.OfNode? && ValidPath(w.doc, c.node.value.path)
              && AttributeEquals(NodeAt(w.doc, c.node.value.path).attrs, name, TextOf(w, Eval(w, r, c))))
  }

  /** The first attribute of that name has that value, and is no namespace declaration. */
  predicate AttributeEquals(attrs: seq<Attribute>, name: string, value: string) {
    attrs != [] &&
    if attrs[0].name == name then attrs[0].value == value && IsXPathAttribute(name)
    else AttributeEquals(attrs[1..], name, value)
  }

  function EvalArgs(w: World, args: seq<Expr>, c: Context): seq<Value>
    decreases args, 0
  {
    if args == [] then [] else [Eval(w, args[0], c)] + EvalArgs(w, args[1..], c)
  }

  function StepUnion(w: World, axis: Axis, test: NodeTest, ps: seq<Predicate>, contexts: set<XNode>): set<XNode>
    decreases ps, 2
  {
    set x, y | x in contexts && y in StepFrom(w, axis, test, ps, x) :: y
  }

  function StepFrom(w: World, axis: Axis, test: NodeTest, ps: seq<Predicate>, x: XNode): seq<XNode>
    decreases ps, 1
  {
    ApplyPredicates(w, ps, First(StepList(w.doc, axis, test, x), Once(axis, test, ps)))
  }

  function ApplyPredicates(w: World, ps: seq<Predicate>, list: seq<XNode>): seq<XNode>
    decreases ps, 0
  {
    if ps == [] then list else ApplyPredicates(w, ps[1..], ApplyPredicate(w, ps[0], list))
  }

  function ApplyPredicate(w: World, p: Predicate, list: seq<XNode>): seq<XNode>
    decreases p, 0
  {
    if p.cls == Constant || p.cls == ConstantOne then ApplyConstant(w, p.expr, list)
    else ApplyGeneral(w, p.expr, list, 0, |list|)
  }

  /** A predicate holds of a node if its number is the node's position, or if it is true. */
  predicate Holds(w: World, p: Expr, c: Context)
    decreases p, 4
  {
    if StaticType(p) == TNumber then NumberOf(w, Eval(w, p, c)) == c.position as real
    else Truth(Eval(w, p, c))
  }

  function ApplyGeneral(w: World, p: Expr, list: seq<XNode>, i: nat, size: nat): seq<XNode>
    decreases p, 5, |list|
  {
    if list == [] then []
    else (if Holds(w, p, Context(Just(list[0]), i + 1, size)) then [list[0]] else [])
         + ApplyGeneral(w, p, list[1..], i + 1, size)
  }

  /** A number that does not depend on the node is evaluated once, without any node. */
  function ApplyConstant(w: World, p: Expr, list: seq<XNode>): seq<XNode>
    decreases p, 5, 0
  {
    var r := NumberOf(w, Eval(w, p, Context(Nothing, 1, |list|)));
    if 1.0 <= r <= |list| as real && r == r.Floor as real then [list[r.Floor - 1]] else []
  }

  // ----- classification

  predicate IsPosInvExpr(e: Expr)
    decreases e
  {
    match e
    case PositionFn => false
    case LastFn => false
    case Equal(l, r) => IsPosInvExpr(l) && IsPosInvExpr(r)
    case Union(l, r) => IsPosInvExpr(l) && IsPosInvExpr(r)
    case TranslateFn(s, f, t) => IsPosInvExpr(s) && IsPosInvExpr(f) && IsPosInvExpr(t)
    case Call(_, _, args) => forall i :: 0 <= i < |args| ==> IsPosInvExpr(args[i])
    case Id(a) => IsPosInvExpr(a)
    case TranslateByTable(s, _) => IsPosInvExpr(s)
    case CompareAttribute(_, r) => IsPosInvExpr(r)
    case _ => true
  }

  /** Node sets never depend on the position or size of their own context, and neither does
      anything the classification accepts. */
  lemma {:induction false} PosInvSound(w: World, e: Expr, c: Context, c': Context)
    requires WellTyped(w, e) && c.node == c'.node
    requires IsPosInvExpr(e) || StaticType(e) == TNodes
    ensures Eval(w, e, c) == Eval(w, e, c')
    decreases e
  {
    match e
    case Equal(l, r) =>
      PosInvSound(w, l, c, c');
      PosInvSound(w, r, c, c');
    case Union(l, r) =>
      PosInvSound(w, l, c, c');
      PosInvSound(w, r, c, c');
    case TranslateFn(s, f, t) =>
      PosInvSound(w, s, c, c');
      PosInvSound(w, f, c, c');
      PosInvSound(w, t, c, c');
    case Call(_, _, args) =>
      forall i | 0 <= i < |args| ensures Eval(w, args[i], c) == Eval(w, args[i], c') {
        PosInvSound(w, args[i], c, c');
      }
      ArgsAgree(w, args, c, c');
    case Step(input, _, _, _) =>
      if input.Just? { PosInvSound(w, input.value, c, c'); }
    case Filter(l, _) =>
      PosInvSound(w, l, c, c');
    case TranslateByTable(s, _) =>
      PosInvSound(w, s, c, c');
    case CompareAttribute(_, r) =>
      PosInvSound(w, r, c, c');
    case _ =>
  }

  lemma {:induction false} ArgsAgree(w: World, args: seq<Expr>, c: Context, c': Context)
    requires forall i :: 0 <= i < |args| ==> Eval(w, args[i], c) == Eval(w, args[i], c')
    ensures EvalArgs(w, args, c) == EvalArgs(w, args, c')
  {
    if args != [] { ArgsAgree(w, args[1..], c, c'); }
  }

  // ----- the optimizer

  /** [position() = number] means [number]. */
  function StripPosition(p: Expr): Expr {
    if p.Equal? && p.left.PositionFn? && StaticType(p.right) == TNumber then p.right else p
  }

  function Classify(p: Expr): Class {
    if p == NumberConstant(1.0) then ConstantOne
    else if StaticType(p) == TNumber && (p.NumberConstant? || p.Variable? || p.LastFn?) then Constant
    else if StaticType(p) != TNumber && IsPosInvExpr(p) then PosInv
    else Default
  }

  predicate IsPosInvStep(e: Expr)
    requires e.Step?
  {
    forall i :: 0 <= i < |e.predicates| ==> e.predicates[i].cls == PosInv
  }

  /** The full form of `//` in front of a step. */
  predicate AfterDoubleSlash(e: Expr) {
    && e.Step? && e.axis in {Child, Self, Descendant, DescendantOrSelf}
    && e.input.Just? && e.input.value.Step?
    && e.input.value.axis == DescendantOrSelf && e.input.value.test == TestNode
    && e.input.value.predicates == []
    && IsPosInvStep(e)
  }

  function Merged(axis: Axis): Axis {
    if axis == Child || axis == Descendant then Descendant else DescendantOrSelf
  }

  function MakeTable(from: string, to: string): (table: seq<nat>)
    requires Tabulable(from, to)
    ensures TableFor(table, from, to)
  {
    seq(128, i requires 0 <= i < 128 => Code(i, from, to))
  }

  function OptimizeSelf(e: Expr): Expr {
    if AfterDoubleSlash(e) then
      Step(e.input.value.input, Merged(e.axis), e.test, e.predicates)
    else if e.TranslateFn? && e.from.StringConstant? && e.to.StringConstant?
            && Tabulable(e.from.text, e.to.text) then
      TranslateByTable(e.subject, MakeTable(e.from.text, e.to.text))
    else if e.Equal? && e.left.Step? && e.left.axis == AttributeAxis && e.left.test.TestName?
            && e.left.input.Nothing? && e.left.predicates == []
            && (e.right.StringConstant? || (e.right.Variable? && e.right.ty == TText)) then
      CompareAttribute(e.left.test.name, e.right)
    else e
  }

  function Optimize(e: Expr): Expr
    decreases e, 1
  {
    OptimizeSelf(
      match e
      case Equal(l, r) => Equal(Optimize(l), Optimize(r))
      case Union(l, r) => Union(Optimize(l), Optimize(r))
      case TranslateFn(s, f, t) => TranslateFn(Optimize(s), Optimize(f), Optimize(t))
      case Call(name, ty, args) => Call(name, ty, OptimizeArgs(args))
      case Id(a) => Id(Optimize(a))
      case Step(input, axis, test, ps) =>
        Step(if input.Just? then Just(Optimize(input.value)) else Nothing, axis, test, OptimizePredicates(ps))
      case Filter(l, p) => Filter(Optimize(l), OptimizePredicate(p))
      case _ => e)
  }

  function OptimizeArgs(args: seq<Expr>): (r: seq<Expr>)
    ensures |r| == |args| && forall i :: 0 <= i < |args| ==> r[i] == Optimize(args[i])
    decreases args, 0
  {
    if args == [] then [] else [Optimize(args[0])] + OptimizeArgs(args[1..])
  }

  function OptimizePredicate(p: Predicate): Predicate
    decreases p, 2
  {
    var x := StripPosition(Optimize(p.expr));
    Predicate(x, Classify(x))
  }

  function OptimizePredicates(ps: seq<Predicate>): (r: seq<Predicate>)
    ensures |r| == |ps| && forall i :: 0 <= i < |ps| ==> r[i] == OptimizePredicate(ps[i])
    decreases ps, 0
  {
    if ps == [] then [] else [OptimizePredicate(ps[0])] + OptimizePredicates(ps[1..])
  }

  // ----- predicates keep their meaning

  /** Two predicate expressions that accept the same positions. */
  ghost predicate SamePredicate(w: World, p: Expr, p': Expr) {
    forall c :: Holds(w, p, c) == Holds(w, p', c)
  }

  lemma {:induction false} GeneralAgrees(w: World, p: Expr, p': Expr, list: seq<XNode>, i: nat, size: nat)
    requires SamePredicate(w, p, p')
    ensures ApplyGeneral(w, p, list, i, size) == ApplyGeneral(w, p', list, i, size)
  {
    if list != [] { GeneralAgrees(w, p, p', list[1..], i + 1, size); }
  }

  /** The member at the position r, counted from i + 1, if r is one. */
  ghost function Picked(list: seq<XNode>, i: nat, r: real): seq<XNode> {
    if (i + 1) as real <= r <= (i + |list|) as real && r == r.Floor as real then [list[r.Floor - i - 1]] else []
  }

  lemma PickedStep(list: seq<XNode>, i: nat, r: real)
    requires list != []
    ensures Picked(list, i, r) == (if r == (i + 1) as real then [list[0]] else []) + Picked(list[1..], i + 1, r)
  {
    assert r == (i + 1) as real ==> r.Floor == i + 1;
  }

  ghost predicate HoldsOnlyAt(w: World, p: Expr, list: seq<XNode>, i: nat, size: nat, r: real) {
    forall k :: 0 <= k < |list| ==> HoldsOnlyFor(w, p, list[k], i + k + 1, size, r)
  }

  ghost predicate HoldsOnlyFor(w: World, p: Expr, x: XNode, position: nat, size: nat, r: real) {
    Holds(w, p, Context(Just(x), position, size)) <==> r == position as real
  }

  lemma {:induction false} GeneralPicks(w: World, p: Expr, list: seq<XNode>, i: nat, size: nat, r: real)
    requires HoldsOnlyAt(w, p, list, i, size, r)
    ensures ApplyGeneral(w, p, list, i, size) == Picked(list, i, r)
  {
    hide Holds;
    if list != [] {
      assert HoldsOnlyFor(w, p, list[0], i + 0 + 1, size, r);
      hide HoldsOnlyFor, Picked;
      forall k | 0 <= k < |list[1..]|
        ensures HoldsOnlyFor(w, p, list[1..][k], i + 1 + k + 1, size, r)
      {
        assert HoldsOnlyFor(w, p, list[k + 1], i + (k + 1) + 1, size, r);
      }
      GeneralPicks(w, p, list[1..], i + 1, size, r);
      PickedStep(list, i, r);
    }
  }

  /** Selecting by a constant number is the general rule for numeric predicates. */
  lemma ConstantAgrees(w: World, p: Expr, list: seq<XNode>)
    requires StaticType(p) == TNumber && (p.NumberConstant? || p.Variable? || p.LastFn?)
    ensures ApplyConstant(w, p, list) == ApplyGeneral(w, p, list, 0, |list|)
  {
    var r := NumberOf(w, Eval(w, p, Context(Nothing, 1, |list|)));
    forall k | 0 <= k < |list|
      ensures HoldsOnlyFor(w, p, list[k], 0 + k + 1, |list|, r)
    {
      assert Eval(w, p, Context(Just(list[k]), 0 + k + 1, |list|)) == Eval(w, p, Context(Nothing, 1, |list|));
    }
    GeneralPicks(w, p, list, 0, |list|, r);
  }

  /** A classified predicate selects, in order, what the plain one selects. */
  lemma ClassifiedAgrees(w: World, p: Expr, p': Expr, list: seq<XNode>)
    requires SamePredicate(w, p, p')
    ensures ApplyPredicate(w, Predicate(p', Classify(p')), list) == ApplyPredicate(w, Predicate(p, Default), list)
  {
    GeneralAgrees(w, p, p', list, 0, |list|);
    if Classify(p') == Constant || Classify(p') == ConstantOne { ConstantAgrees(w, p', list); }
  }

  ghost predicate Reclassified(w: World, ps: seq<Predicate>, ps': seq<Predicate>) {
    && |ps| == |ps'|
    && forall i :: 0 <= i < |ps| ==>
         (ps[i].cls == Default && ps'[i].cls == Classify(ps'[i].expr) && SamePredicate(w, ps[i].expr, ps'[i].expr))
  }

  lemma {:induction false} PredicatesAgree(w: World, ps: seq<Predicate>, ps': seq<Predicate>, list: seq<XNode>)
    requires Reclassified(w, ps, ps')
    ensures ApplyPredicates(w, ps', list) == ApplyPredicates(w, ps, list)
  {
    if ps != [] {
      assert ps[0] == Predicate(ps[0].expr, Default);
      assert ps'[0] == Predicate(ps'[0].expr, Classify(ps'[0].expr));
      ClassifiedAgrees(w, ps[0].expr, ps'[0].expr, list);
      PredicatesAgree(w, ps[1..], ps'[1..], ApplyPredicate(w, ps[0], list));
    }
  }

  /** Stopping a step at its first node is safe when its only predicate is [1]. */
  lemma StepAgrees(w: World, axis: Axis, test: NodeTest, ps: seq<Predicate>, ps': seq<Predicate>, x: XNode)
    requires Reclassified(w, ps, ps')
    ensures StepFrom(w, axis, test, ps', x) == StepFrom(w, axis, test, ps, x)
  {
    var list := StepList(w.doc, axis, test, x);
    PredicatesAgree(w, ps, ps', First(list, Once(axis, test, ps)));
    if Once(axis, test, ps') && !Once(axis, test, ps) { FirstIsEnough(w, ps', list); }
  }

  lemma FirstIsEnough(w: World, ps: seq<Predicate>, list: seq<XNode>)
    requires |ps| == 1 && ps[0].cls == ConstantOne && ps[0].expr == NumberConstant(1.0)
    ensures ApplyPredicates(w, ps, First(list, true)) == ApplyPredicates(w, ps, list)
  {
    assert ApplyPredicate(w, ps[0], First(list, true)) == ApplyPredicate(w, ps[0], list);
  }

  lemma StripPositionAgrees(w: World, p: Expr)
    ensures SamePredicate(w, p, StripPosition(p))
  {
    forall c ensures Holds(w, p, c) == Holds(w, StripPosition(p), c) {
      if StripPosition(p) != p {
        assert Eval(w, p.left, c) == Number(c.position as real);
      }
    }
  }

  // ----- the `//` rewrite

  /** All predicates hold of x. */
  predicate AllTrue(w: World, ps: seq<Predicate>, x: XNode) {
    forall i :: 0 <= i < |ps| ==> Truth(Eval(w, ps[i].expr, Context(Just(x), 1, 1)))
  }

  lemma {:induction false} GeneralMembers(w: World, p: Expr, list: seq<XNode>, i: nat, size: nat)
    requires WellTyped(w, p) && IsPosInvExpr(p) && StaticType(p) != TNumber
    ensures forall x :: x in ApplyGeneral(w, p, list, i, size) <==>
      x in list && Truth(Eval(w, p, Context(Just(x), 1, 1)))
  {
    if list != [] {
      GeneralMembers(w, p, list[1..], i + 1, size);
      PosInvSound(w, p, Context(Just(list[0]), i + 1, size), Context(Just(list[0]), 1, 1));
      forall x ensures x in ApplyGeneral(w, p, list, i, size) <==>
        x in list && Truth(Eval(w, p, Context(Just(x), 1, 1)))
      {
        assert x in list <==> x == list[0] || x in list[1..];
      }
    }
  }

  ghost predicate PosInvPredicates(w: World, ps: seq<Predicate>) {
    forall i :: 0 <= i < |ps| ==>
      ps[i].cls == PosInv && WellTyped(w, ps[i].expr) && IsPosInvExpr(ps[i].expr) && StaticType(ps[i].expr) != TNumber
  }

  /** Position-invariant predicates filter a list by a property of each node alone. */
  lemma {:induction false} PosInvMembers(w: World, ps: seq<Predicate>, list: seq<XNode>)
    requires PosInvPredicates(w, ps)
    ensures forall x :: x in ApplyPredicates(w, ps, list) <==> x in list && AllTrue(w, ps, x)
  {
    if ps != [] {
      var kept := ApplyPredicate(w, ps[0], list);
      assert kept == ApplyGeneral(w, ps[0].expr, list, 0, |list|);
      GeneralMembers(w, ps[0].expr, list, 0, |list|);
      PosInvMembers(w, ps[1..], kept);
      forall x ensures AllTrue(w, ps, x) <==>
        Truth(Eval(w, ps[0].expr, Context(Just(x), 1, 1))) &&
        AllTrue(w, ps[1..], x) {
        if Truth(Eval(w, ps[0].expr, Context(Just(x), 1, 1))) && AllTrue(w, ps[1..], x) {
          forall i | 0 <= i < |ps| ensures Truth(Eval(w, ps[i].expr, Context(Just(x), 1, 1))) {
            if i > 0 { assert ps[1..][i - 1] == ps[i]; }
          }
        }
      }
    }
  }

  lemma AsNodesMembers(r: seq<Path>)
    ensures forall x :: x in AsNodes(r) <==> x.OfNode? && x.path in r
  {
    forall x ensures x in AsNodes(r) <==> x.OfNode? && x.path in r {
      if x.OfNode? && x.path in r {
        var i :| 0 <= i < |r| && r[i] == x.path;
        assert AsNodes(r)[i] == x;
      }
    }
  }

  /** Going to some node at or below n and then along the axis is going along the merged axis. */
  lemma MergedAxis(axis: Axis, n: Path, z: Path, q: Path)
    requires axis in {Child, Self, Descendant, DescendantOrSelf}
    ensures n <= z && OnAxis(axis, z, q) ==> OnAxis(Merged(axis), n, q)
    ensures OnAxis(Merged(axis), n, q) ==> n <= Midpoint(axis, n, q) <= q && OnAxis(axis, Midpoint(axis, n, q), q)
  {
    if axis == Child && q != [] { assert Up(q) < q; }
  }

  function Midpoint(axis: Axis, n: Path, q: Path): Path {
    if axis == Child && q != [] then Up(q) else if axis == Self then q else n
  }

  /** Every node at or below x, then one more step, is one step on the merged axis. */
  lemma DoubleSlashNodes(t: Node, axis: Axis, test: NodeTest, x: XNode, y: XNode)
    requires axis in {Child, Self, Descendant, DescendantOrSelf}
    ensures y in StepList(t, Merged(axis), test, x) <==>
      exists z :: z in StepList(t, DescendantOrSelf, TestNode, x) && y in StepList(t, axis, test, z)
  {
    hide OnAxis, Selected, StepList, Midpoint, Merged;
    forall z | z in StepList(t, DescendantOrSelf, TestNode, x) && y in StepList(t, axis, test, z)
      ensures y in StepList(t, Merged(axis), test, x)
    {
      ThroughMidpoint(t, axis, test, x, z, y);
    }
    if y in StepList(t, Merged(axis), test, x) {
      var z := MidpointExists(t, axis, test, x, y);
    }
  }

  lemma ThroughMidpoint(t: Node, axis: Axis, test: NodeTest, x: XNode, z: XNode, y: XNode)
    requires axis in {Child, Self, Descendant, DescendantOrSelf}
    requires z in StepList(t, DescendantOrSelf, TestNode, x) && y in StepList(t, axis, test, z)
    ensures y in StepList(t, Merged(axis), test, x)
  {
    if x.OfNode? {
      NodeStep(t, DescendantOrSelf, TestNode, x.path);
      NodeStep(t, Merged(axis), test, x.path);
      NodeStep(t, axis, test, z.path);
      MergedAxis(axis, x.path, z.path, y.path);
    }
  }

  lemma MidpointExists(t: Node, axis: Axis, test: NodeTest, x: XNode, y: XNode) returns (z: XNode)
    requires axis in {Child, Self, Descendant, DescendantOrSelf}
    requires y in StepList(t, Merged(axis), test, x)
    ensures z in StepList(t, DescendantOrSelf, TestNode, x) && y in StepList(t, axis, test, z)
  {
    z := x;
    if x.OfNode? {
      var n := x.path;
      NodeStep(t, DescendantOrSelf, TestNode, n);
      NodeStep(t, Merged(axis), test, n);
      var q := Midpoint(axis, n, y.path);
      MergedAxis(axis, n, q, y.path);
      NodeStep(t, axis, test, q);
      PrefixValid(t, y.path, |q|);
      assert y.path[..|q|] == q;
      z := OfNode(q);
    }
  }

  lemma NodeStep(t: Node, axis: Axis, test: NodeTest, n: Path)
    requires axis in {Child, Self, Descendant, DescendantOrSelf}
    ensures forall x :: x in StepList(t, axis, test, OfNode(n)) <==> x.OfNode? && Selected(t, axis, n, test, x.path)
  {
    SelectionMembers(t, axis, test, n);
  }

  lemma SelectionMembers(t: Node, axis: Axis, test: NodeTest, n: Path)
    ensures forall x :: x in AsNodes(Selection(t, axis, n, test)) <==> x.OfNode? && Selected(t, axis, n, test, x.path)
  {
    SelectionSpec(t, axis, n, test);
    AsNodesMembers(Selection(t, axis, n, test));
  }

  /** A step whose predicates are all position-invariant selects by a property of each node alone. */
  lemma PosInvStepMembers(w: World, axis: Axis, test: NodeTest, ps: seq<Predicate>, x: XNode)
    requires PosInvPredicates(w, ps) && axis != AttributeAxis
    ensures forall y :: y in StepFrom(w, axis, test, ps, x) <==>
            y in StepList(w.doc, axis, test, x) &&
            AllTrue(w, ps, y)
  {
    PosInvMembers(w, ps, StepList(w.doc, axis, test, x));
  }

  lemma PlainStep(w: World, axis: Axis, x: XNode)
    requires axis != AttributeAxis
    ensures StepFrom(w, axis, TestNode, [], x) == StepList(w.doc, axis, TestNode, x)
  {
  }

  lemma DoubleSlashOnto(w: World, axis: Axis, test: NodeTest, ps: seq<Predicate>, x: XNode, z: XNode, y: XNode)
    requires axis in {Child, Self, Descendant, DescendantOrSelf} && PosInvPredicates(w, ps)
    requires z in StepFrom(w, DescendantOrSelf, TestNode, [], x) && y in StepFrom(w, axis, test, ps, z)
    ensures y in StepFrom(w, Merged(axis), test, ps, x)
  {
    PlainStep(w, DescendantOrSelf, x);
    DoubleSlashNodes(w.doc, axis, test, x, y);
    PosInvStepMembers(w, axis, test, ps, z);
    PosInvStepMembers(w, Merged(axis), test, ps, x);
  }

  lemma DoubleSlashVia(w: World, axis: Axis, test: NodeTest, ps: seq<Predicate>, x: XNode, y: XNode) returns (z: XNode)
    requires axis in {Child, Self, Descendant, DescendantOrSelf} && PosInvPredicates(w, ps)
    requires y in StepFrom(w, Merged(axis), test, ps, x)
    ensures z in StepFrom(w, DescendantOrSelf, TestNode, [], x) && y in StepFrom(w, axis, test, ps, z)
  {
    hide StepFrom, StepList, ApplyPredicates, AllTrue, PosInvPredicates;
    PosInvStepMembers(w, Merged(axis), test, ps, x);
    DoubleSlashNodes(w.doc, axis, test, x, y);
    z :| z in StepList(w.doc, DescendantOrSelf, TestNode, x) && y in StepList(w.doc, axis, test, z);
    PlainStep(w, DescendantOrSelf, x);
    PosInvStepMembers(w, axis, test, ps, z);
  }

  /** The `//` rewrite selects the same node set in every document and from every context. */
  lemma DoubleSlashAgrees(w: World, axis: Axis, test: NodeTest, ps: seq<Predicate>, contexts: set<XNode>)
    requires axis in {Child, Self, Descendant, DescendantOrSelf} && PosInvPredicates(w, ps)
    ensures StepUnion(w, axis, test, ps, StepUnion(w, DescendantOrSelf, TestNode, [], contexts))
         == StepUnion(w, Merged(axis), test, ps, contexts)
  {
    hide StepFrom, PosInvPredicates, Merged;
    var middle := StepUnion(w, DescendantOrSelf, TestNode, [], contexts);
    forall y | y in StepUnion(w, axis, test, ps, middle) ensures y in StepUnion(w, Merged(axis), test, ps, contexts) {
      var z :| z in middle && y in StepFrom(w, axis, test, ps, z);
      var x :| x in contexts && z in StepFrom(w, DescendantOrSelf, TestNode, [], x);
      DoubleSlashOnto(w, axis, test, ps, x, z, y);
    }
    forall y | y in StepUnion(w, Merged(axis), test, ps, contexts) ensures y in StepUnion(w, axis, test, ps, middle) {
      var x :| x in contexts && y in StepFrom(w, Merged(axis), test, ps, x);
      var z := DoubleSlashVia(w, axis, test, ps, x, y);
      assert z in middle;
    }
  }

  // ----- the other rewrites

  /** Looking up the first attribute of a name decides whether the name's attribute step contains
      a node with the given text. */
  lemma {:induction false} AttributeStep(w: World, p: Path, attrs: seq<Attribute>, k: nat, name: string, value: string)
    requires ValidPath(w.doc, p) && k + |attrs| == |NodeAt(w.doc, p).attrs| && attrs == NodeAt(w.doc, p).attrs[k..]
    ensures var found := First(KeepAttributes(p, attrs, k, TestName(name)), true);
      AttributeEquals(attrs, name, value) <==> exists x :: x in found && NodeText(w, x) == value
  {
    if attrs != [] {
      assert attrs[0] == NodeAt(w.doc, p).attrs[k];
      var found := KeepAttributes(p, attrs, k, TestName(name));
      if attrs[0].name == name {
        if IsXPathAttribute(name) {
          assert First(found, true) == [OfAttribute(p, k)];
          assert First(found, true)[0] in First(found, true);
        } else {
          NoSuchAttribute(p, attrs, k, name);
        }
      } else {
        assert found == KeepAttributes(p, attrs[1..], k + 1, TestName(name));
        AttributeStep(w, p, attrs[1..], k + 1, name, value);
      }
    }
  }

  lemma {:induction false} NoSuchAttribute(p: Path, attrs: seq<Attribute>, k: nat, name: string)
    requires !IsXPathAttribute(name)
    ensures KeepAttributes(p, attrs, k, TestName(name)) == []
  {
    if attrs != [] { NoSuchAttribute(p, attrs[1..], k + 1, name); }
  }

  /** What the attribute step delivers at a node, compared with a text. */
  lemma AttributeStepAt(w: World, x: XNode, name: string, value: string)
    ensures (exists y :: y in StepFrom(w, AttributeAxis, TestName(name), [], x) && NodeText(w, y) == value) <==>
            x.OfNode? && ValidPath(w.doc, x.path) && AttributeEquals(NodeAt(w.doc, x.path).attrs, name, value)
  {
    hide NodeText, AttributeEquals;
    var list := StepFrom(w, AttributeAxis, TestName(name), [], x);
    assert list == First(StepList(w.doc, AttributeAxis, TestName(name), x), true);
    if x.OfNode? && ValidPath(w.doc, x.path) {
      var attrs := NodeAt(w.doc, x.path).attrs;
      assert attrs == attrs[0..];
      AttributeStep(w, x.path, attrs, 0, name, value);
      assert list == First(KeepAttributes(x.path, attrs, 0, TestName(name)), true);
    } else {
      assert list == [];
    }
  }

  lemma CompareAttributeAgrees(w: World, e: Expr, c: Context)
    requires OptimizeSelf(e).CompareAttribute? && e.Equal?
    ensures Eval(w, OptimizeSelf(e), c) == Eval(w, e, c)
  {
    hide NodeText, AttributeEquals, StepFrom;
    var step := e.left;
    var value := TextOf(w, Eval(w, e.right, c));
    var found := NodesOf(Eval(w, step, c));
    assert StaticType(step) == TNodes && StaticType(e.right) == TText;
    assert OptimizeSelf(e) == CompareAttribute(step.test.name, e.right);
    assert Eval(w, e, c) == Boolean(exists x :: x in found && NodeText(w, x) == value);
    if c.node.Just? {
      var x := c.node.value;
      var list := StepFrom(w, AttributeAxis, step.test, [], x);
      assert Eval(w, step, c) == Nodes(StepUnion(w, AttributeAxis, step.test, [], {x}));
      assert forall y :: y in found <==> y in list;
      AttributeStepAt(w, x, step.test.name, value);
    } else {
      assert Eval(w, step, c) == Nodes(StepUnion(w, AttributeAxis, step.test, [], {}));
    }
  }

  lemma TableAgrees(w: World, e: Expr, c: Context)
    requires e.TranslateFn? && OptimizeSelf(e).TranslateByTable?
    ensures Eval(w, OptimizeSelf(e), c) == Eval(w, e, c)
  {
    var s := TextOf(w, Eval(w, e.subject, c));
    TableTranslates(s, e.from.text, e.to.text, OptimizeSelf(e).table);
  }

  // ----- the whole optimizer

  ghost predicate SameMeaning(w: World, e: Expr, e': Expr) {
    && StaticType(e') == StaticType(e)
    && WellTyped(w, e')
    && forall c :: Eval(w, e', c) == Eval(w, e, c)
  }

  /** Optimizing a freshly parsed query changes the value of no subexpression in any context. */
  lemma {:induction false} OptimizeSound(w: World, e: Expr)
    requires WorldOk(w) && WellTyped(w, e) && Fresh(e)
    ensures SameMeaning(w, e, Optimize(e))
    decreases e, 1
  {
    hide SameMeaning, Eval, OptimizeSelf;
    match e
    case Equal(l, r) =>
      OptimizeSound(w, l);
      OptimizeSound(w, r);
      OptimizeEqualSound(w, e);
    case Union(l, r) =>
      OptimizeSound(w, l);
      OptimizeSound(w, r);
      OptimizeUnionSound(w, e);
    case TranslateFn(s, f, t) =>
      OptimizeSound(w, s);
      OptimizeSound(w, f);
      OptimizeSound(w, t);
      OptimizeTranslateSound(w, e);
    case Call(name, ty, args) =>
      OptimizeArgsSound(w, args);
      OptimizeCallSound(w, e);
    case Id(a) =>
      OptimizeSound(w, a);
      OptimizeIdSound(w, e);
    case Step(input, axis, test, ps) =>
      if input.Just? { OptimizeSound(w, input.value); }
      OptimizePredicatesSound(w, ps);
      OptimizeStepSound(w, e);
    case Filter(l, p) =>
      OptimizeSound(w, l);
      OptimizePredicateSound(w, p);
      OptimizeFilterSound(w, e);
    case StringConstant(_) => OptimizeLeafSound(w, e);
    case NumberConstant(_) => OptimizeLeafSound(w, e);
    case Variable(_, _) => OptimizeLeafSound(w, e);
    case PositionFn => OptimizeLeafSound(w, e);
    case LastFn => OptimizeLeafSound(w, e);
    case Root => OptimizeLeafSound(w, e);
  }

  lemma OptimizeLeafSound(w: World, e: Expr)
    requires WellTyped(w, e)
    requires e.StringConstant? || e.NumberConstant? || e.Variable? || e.PositionFn? || e.LastFn? || e.Root?
    ensures SameMeaning(w, e, Optimize(e))
  {
  }

  lemma OptimizeUnionSound(w: World, e: Expr)
    requires e.Union? && WellTyped(w, e) && SameMeaning(w, e.left, Optimize(e.left)) &&
             SameMeaning(w, e.right, Optimize(e.right))
    ensures SameMeaning(w, e, Optimize(e))
  {
    assert Optimize(e) == Union(Optimize(e.left), Optimize(e.right));
  }

  lemma OptimizeCallSound(w: World, e: Expr)
    requires e.Call? && WellTyped(w, e) && forall i :: 0 <= i < |e.args| ==> WellTyped(w, Optimize(e.args[i]))
    requires forall c :: EvalArgs(w, OptimizeArgs(e.args), c) == EvalArgs(w, e.args, c)
    ensures SameMeaning(w, e, Optimize(e))
  {
    assert Optimize(e) == Call(e.name, e.ty, OptimizeArgs(e.args));
  }

  lemma OptimizeIdSound(w: World, e: Expr)
    requires e.Id? && WellTyped(w, e) && SameMeaning(w, e.arg, Optimize(e.arg))
    ensures SameMeaning(w, e, Optimize(e))
  {
    assert Optimize(e) == Id(Optimize(e.arg));
  }

  lemma OptimizeEqualSound(w: World, e: Expr)
    requires e.Equal? && WellTyped(w, e)
    requires SameMeaning(w, e.left, Optimize(e.left)) && SameMeaning(w, e.right, Optimize(e.right))
    ensures SameMeaning(w, e, Optimize(e))
  {
    var e' := Equal(Optimize(e.left), Optimize(e.right));
    assert Optimize(e) == OptimizeSelf(e');
    if OptimizeSelf(e') != e' {
      forall c ensures Eval(w, OptimizeSelf(e'), c) == Eval(w, e', c) { CompareAttributeAgrees(w, e', c); }
    }
  }

  lemma OptimizeTranslateSound(w: World, e: Expr)
    requires e.TranslateFn? && WellTyped(w, e)
    requires SameMeaning(w, e.subject, Optimize(e.subject))
    requires SameMeaning(w, e.from, Optimize(e.from)) && SameMeaning(w, e.to, Optimize(e.to))
    ensures SameMeaning(w, e, Optimize(e))
  {
    var e' := TranslateFn(Optimize(e.subject), Optimize(e.from), Optimize(e.to));
    assert Optimize(e) == OptimizeSelf(e');
    if OptimizeSelf(e') != e' {
      forall c ensures Eval(w, OptimizeSelf(e'), c) == Eval(w, e', c) { TableAgrees(w, e', c); }
    }
  }

  lemma {:induction false} OptimizeArgsSound(w: World, args: seq<Expr>)
    requires WorldOk(w) && forall i :: 0 <= i < |args| ==> WellTyped(w, args[i]) && Fresh(args[i])
    ensures forall i :: 0 <= i < |args| ==> WellTyped(w, Optimize(args[i]))
    ensures forall c :: EvalArgs(w, OptimizeArgs(args), c) == EvalArgs(w, args, c)
    decreases args, 0
  {
    if args != [] {
      OptimizeSound(w, args[0]);
      OptimizeArgsSound(w, args[1..]);
      forall i | 0 <= i < |args| ensures WellTyped(w, Optimize(args[i])) {
        if i > 0 { assert args[i] == args[1..][i - 1]; }
      }
      assert OptimizeArgs(args)[1..] == OptimizeArgs(args[1..]);
    }
  }

  ghost predicate PredicateOptimized(w: World, p: Predicate, p': Predicate) {
    p.cls == Default && p'.cls == Classify(p'.expr) && SamePredicate(w, p.expr, p'.expr) && WellTyped(w, p'.expr)
  }

  lemma {:induction false} OptimizePredicateSound(w: World, p: Predicate)
    requires WorldOk(w) && WellTyped(w, p.expr) && Fresh(p.expr) && p.cls == Default
    ensures PredicateOptimized(w, p, OptimizePredicate(p))
    decreases p, 0
  {
    OptimizeSound(w, p.expr);
    StripPositionAgrees(w, Optimize(p.expr));
  }

  lemma {:induction false} OptimizePredicatesSound(w: World, ps: seq<Predicate>)
    requires WorldOk(w)
    requires forall i :: 0 <= i < |ps| ==> WellTyped(w, ps[i].expr) && Fresh(ps[i].expr) && ps[i].cls == Default
    ensures forall i :: 0 <= i < |ps| ==> PredicateOptimized(w, ps[i], OptimizePredicate(ps[i]))
    decreases ps, 0
  {
    forall i | 0 <= i < |ps| ensures PredicateOptimized(w, ps[i], OptimizePredicate(ps[i])) {
      OptimizePredicateSound(w, ps[i]);
    }
  }

  lemma DoubleSlashStep(w: World, e: Expr, c: Context)
    requires AfterDoubleSlash(e) && PosInvPredicates(w, e.predicates)
    ensures Eval(w, OptimizeSelf(e), c) == Eval(w, e, c)
  {
    var inner := e.input.value;
    var contexts := if inner.input.Just? then NodesOf(Eval(w, inner.input.value, c))
                    else if c.node.Just? then {c.node.value} else {};
    DoubleSlashAgrees(w, e.axis, e.test, e.predicates, contexts);
    assert Eval(w, inner, c) == Nodes(StepUnion(w, DescendantOrSelf, TestNode, [], contexts));
  }

  lemma OptimizeStepSound(w: World, e: Expr)
    requires e.Step? && WorldOk(w) && WellTyped(w, e)
    requires e.input.Just? ==> SameMeaning(w, e.input.value, Optimize(e.input.value))
    requires forall i :: 0 <= i < |e.predicates| ==> PredicateOptimized(w, e.predicates[i],
             OptimizePredicate(e.predicates[i]))
    ensures SameMeaning(w, e, Optimize(e))
  {
    hide Eval, OptimizeSelf, StepFrom;
    var ps' := OptimizePredicates(e.predicates);
    var e' := Step(if e.input.Just? then Just(Optimize(e.input.value)) else Nothing, e.axis, e.test, ps');
    assert Optimize(e) == OptimizeSelf(e');
    forall c ensures Eval(w, e', c) == Eval(w, e, c) { OptimizedParts(w, e, c); }
    DoubleSlashSelf(w, e');
  }

  lemma OptimizedParts(w: World, e: Expr, c: Context)
    requires e.Step? && WorldOk(w) && WellTyped(w, e)
    requires e.input.Just? ==> SameMeaning(w, e.input.value, Optimize(e.input.value))
    requires forall i :: 0 <= i < |e.predicates| ==> PredicateOptimized(w, e.predicates[i],
             OptimizePredicate(e.predicates[i]))
    ensures Eval(w, Step(if e.input.Just? then Just(Optimize(e.input.value))
            else Nothing, e.axis, e.test, OptimizePredicates(e.predicates)), c)
         == Eval(w, e, c)
  {
    hide StepFrom;
    var ps' := OptimizePredicates(e.predicates);
    assert Reclassified(w, e.predicates, ps');
    forall x ensures StepFrom(w, e.axis, e.test, ps', x) == StepFrom(w, e.axis, e.test, e.predicates, x) {
      StepAgrees(w, e.axis, e.test, e.predicates, ps', x);
    }
    forall s ensures StepUnion(w, e.axis, e.test, ps', s) == StepUnion(w, e.axis, e.test, e.predicates, s) {
    }
  }

  /** The rewriting of a step that follows `//`, if it is one. */
  lemma DoubleSlashSelf(w: World, e: Expr)
    requires e.Step? && WellTyped(w, e) && (AfterDoubleSlash(e) ==> PosInvPredicates(w, e.predicates))
    ensures StaticType(OptimizeSelf(e)) == StaticType(e) && WellTyped(w, OptimizeSelf(e))
    ensures forall c :: Eval(w, OptimizeSelf(e), c) == Eval(w, e, c)
  {
    hide Eval;
    if AfterDoubleSlash(e) {
      forall c ensures Eval(w, OptimizeSelf(e), c) == Eval(w, e, c) { DoubleSlashStep(w, e, c); }
    }
  }

  lemma OptimizeFilterSound(w: World, e: Expr)
    requires e.Filter? && WorldOk(w) && WellTyped(w, e)
    requires SameMeaning(w, e.left, Optimize(e.left)) && PredicateOptimized(w, e.pred, OptimizePredicate(e.pred))
    ensures SameMeaning(w, e, Optimize(e))
  {
    var p' := OptimizePredicate(e.pred);
    assert Optimize(e) == Filter(Optimize(e.left), p');
    forall c ensures Eval(w, Optimize(e), c) == Eval(w, e, c) {
      var s := NodesOf(Eval(w, e.left, c));
      FilterAgrees(w, e.pred, p', s);
    }
  }

  /** An unsorted list serves a position-invariant filter as well as the sorted one. */
  lemma FilterAgrees(w: World, p: Predicate, p': Predicate, s: set<XNode>)
    requires WorldOk(w) && PredicateOptimized(w, p, p')
    ensures AsSet(ApplyPredicate(w, p', if p'.cls == PosInv then w.anyOrder(s) else w.documentOrder(s)))
         == AsSet(ApplyPredicate(w, p, w.documentOrder(s)))
  {
    var sorted, any := w.documentOrder(s), w.anyOrder(s);
    assert p == Predicate(p.expr, Default) && p' == Predicate(p'.expr, Classify(p'.expr));
    ClassifiedAgrees(w, p.expr, p'.expr, sorted);
    if p'.cls == PosInv {
      GeneralMembers(w, p'.expr, sorted, 0, |sorted|);
      GeneralMembers(w, p'.expr, any, 0, |any|);
    }
  }
}
