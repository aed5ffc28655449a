/** The evaluator of XPath expressions (aux-src/pugixml/pugixml.cc:9411-9495, 9577-9675, 10077-10121,
    10173-10852): eval_boolean, eval_number, eval_string and eval_node_set call each other, each with
    the mode that its caller needs, and predicates are evaluated by them in turn. Together they
    compute the value of every expression. */
module XPathEvaluation {
  import opened Basics
  import opened XmlTree
  import opened XmlAxes
  import opened DocumentOrder
  import opened Translate
  import opened XPathOptimizer
  import opened XPathModes
  import N = NodeSets

  /** What a function makes of an argument before it looks at it. */
  datatype Look = Whole | AsBoolean | AsNumber | AsText | FirstOnly

  /** The world, how its node-set variables are listed, and how its functions look at their arguments. */
  datatype Engine = Engine(w: World, listed: string -> Raw, look: (string, nat) -> Look)

  // ----- what the conversions mean

  lemma SomeFirst(s: set<XNode>)
    requires s != {}
    ensures exists x :: IsFirst(s, x)
  {
    var x := FirstExists(s);
  }

  ghost function FirstOf(s: set<XNode>): (x: XNode)
    requires s != {}
    ensures IsFirst(s, x)
  {
    SomeFirst(s);
    var x :| IsFirst(s, x);
    x
  }

  ghost function Convert(w: World, look: Look, v: Value): Value {
    match look
    case Whole => v
    case AsBoolean => Boolean(Truth(v))
    case AsNumber => Number(NumberOf(w, v))
    case AsText => Text(TextOf(w, v))
    case FirstOnly => if v.Nodes? && v.nodes != {} then Nodes({FirstOf(v.nodes)}) else v
  }

  ghost function ConvertAll(en: Engine, name: string, vs: seq<Value>): (us: seq<Value>)
    ensures |us| == |vs| && forall i :: 0 <= i < |vs| ==> us[i] == Convert(en.w, en.look(name, i), vs[i])
  {
    seq(|vs|, i requires 0 <= i < |vs| => Convert(en.w, en.look(name, i), vs[i]))
  }

  /** A node set as a string is the text of its first node, and as a number the number that string is. */
  ghost predicate ConversionsOk(w: World) {
    w.toText(Nodes({})) == "" &&
    (forall s, x :: IsFirst(s, x) ==> w.toText(Nodes(s)) == NodeText(w, x)) &&
    forall s :: w.toNumber(Nodes(s)) == w.toNumber(Text(w.toText(Nodes(s))))
  }

  /** A function sees of an argument only what it asks for. */
  ghost predicate CallsOk(en: Engine) {
    forall name, vs, node :: en.w.call(name, ConvertAll(en, name, vs), node) == en.w.call(name, vs, node)
  }

  /** Equality, as section 3.4 of XPath 1.0 has it. */
  predicate XPathEqual(w: World, l: Value, r: Value) {
    if !l.Nodes? && !r.Nodes? then
      if l.Boolean? || r.Boolean? then Truth(l) == Truth(r)
      else if l.Number? || r.Number? then NumberOf(w, l) == NumberOf(w, r)
      else TextOf(w, l) == TextOf(w, r)
    else if l.Nodes? && r.Nodes? then
      exists x, y :: x in l.nodes && y in r.nodes && NodeText(w, x) == NodeText(w, y)
    else
      EqualsNodes(w, if l.Nodes? then r else l, if l.Nodes? then l.nodes else r.nodes)
  }

  predicate EqualsNodes(w: World, v: Value, s: set<XNode>) {
    match v
    case Boolean(b) => b == (s != {})
    case Number(n) => exists x :: x in s && w.toNumber(Text(NodeText(w, x))) == n
    case Text(t) => exists x :: x in s && NodeText(w, x) == t
    case Nodes(_) => false
  }

  /** By the laws of section 3.4: equality is symmetric; a boolean is compared with what the other
      side is as one; a node set equals a number, a string or another set if the text of one of its
      nodes does. */
  lemma EqualLaws(w: World, l: Value, r: Value)
    ensures XPathEqual(w, l, r) == XPathEqual(w, r, l)
    ensures r.Boolean? ==> XPathEqual(w, l, r) == (Truth(l) == r.boolean)
    ensures l.Nodes? && !r.Boolean? ==>
              (XPathEqual(w, l, r) <==> exists x :: x in l.nodes && XPathEqual(w, Text(NodeText(w, x)), r))
  {
    hide NodeText;
  }

  ghost predicate EqualOk(w: World) {
    forall l, r :: w.equal(l, r) == XPathEqual(w, l, r)
  }

  /** Variables hold nodes of the document. */
  ghost predicate VariablesValid(w: World) {
    forall name, x :: x in NodesOf(w.variables(name)) ==> ValidXNode(w.doc, x)
  }

  ghost predicate EngineOk(en: Engine) {
    WorldOk(en.w) && ListingOk(en.w) && VariablesOk(en.w, en.listed) && VariablesValid(en.w) &&
    ConversionsOk(en.w) && CallsOk(en) && EqualOk(en.w)
  }

  // ----- there is such a world for every document

  ghost function ListOf(s: set<XNode>): (r: seq<XNode>)
    ensures forall x :: x in r <==> x in s
    decreases |s|
  {
    if s == {} then [] else
      var x := FirstOf(s);
      [x] + ListOf(s - {x})
  }

  lemma InFrontOf(x: XNode, rest: seq<XNode>)
    requires XInOrder(false, rest) && Distinct(rest)
    requires forall y :: y in rest ==> y != x && XBefore(x, y)
    ensures XInOrder(false, [x] + rest) && Distinct([x] + rest)
  {
    hide XBefore;
    assert forall i :: 0 <= i < |rest| ==> rest[i] in rest;
  }

  lemma {:induction false} ListInOrder(s: set<XNode>)
    ensures XInOrder(false, ListOf(s)) && Distinct(ListOf(s))
    decreases |s|
  {
    hide XBefore;
    if s != {} {
      hide XInOrder, Distinct;
      var x := FirstOf(s);
      ListInOrder(s - {x});
      InFrontOf(x, ListOf(s - {x}));
    }
  }

  ghost function TextGiven(w: World, v: Value): string {
    if v.Nodes? && v.nodes != {} then NodeText(w, FirstOf(v.nodes)) else ""
  }

  ghost function NumberGiven(w: World, number: string -> real, v: Value): real {
    number(if v.Text? then v.text else TextGiven(w, v))
  }

  lemma EqualSame(w: World, u: World, l: Value, r: Value)
    requires w == u.(equal := w.equal)
    ensures XPathEqual(w, l, r) == XPathEqual(u, l, r)
  {
    assert forall x :: NodeText(w, x) == NodeText(u, x);
  }

  /** Whatever the texts of the nodes, the numbers they are read as, and the variables: what the
      evaluator is promised of its world can be had. */
  lemma EngineExists(w: World, number: string -> real, listed: string -> Raw) returns (en: Engine)
    requires VariablesOk(w, listed) && VariablesValid(w)
    ensures EngineOk(en) && en.listed == listed && en.w.doc == w.doc && en.w.nodeText == w.nodeText
    ensures en.w.variables == w.variables && forall t :: en.w.toNumber(Text(t)) == number(t)
  {
    var u := w.(call := (name, vs, node) => Boolean(false), documentOrder := s => ListOf(s), anyOrder := s => ListOf(s),
                toText := v => TextGiven(w, v), toNumber := v => NumberGiven(w, number, v));
    en := Engine(u.(equal := (l, r) => XPathEqual(u, l, r)), listed, (name, i) => Whole);
    forall s
      ensures XInOrder(false, ListOf(s)) && Distinct(ListOf(s))
    {
      ListInOrder(s);
    }
    forall l, r
      ensures XPathEqual(en.w, l, r) == XPathEqual(u, l, r)
    {
      EqualSame(en.w, u, l, r);
    }
    forall s, x | IsFirst(s, x)
      ensures FirstOf(s) == x
    {
      FirstUnique(s, FirstOf(s), x);
    }
    hide XInOrder, Distinct, XPathEqual, Ordered, ValidXNode, IsFirst;
    assert forall x :: NodeText(en.w, x) == NodeText(w, x);
  }

  /** All predicates are classified rightly, and functions return what they are declared to. */
  ghost predicate Ready(w: World, e: Expr)
    decreases e
  {
    match e
    case Equal(l, r) => Ready(w, l) && Ready(w, r)
    case Union(l, r) => Ready(w, l) && Ready(w, r)
    case TranslateFn(s, f, t) => Ready(w, s) && Ready(w, f) && Ready(w, t)
    case Call(name, ty, args) => Returns(w, name, ty) && forall i :: 0 <= i < |args| ==> Ready(w, args[i])
    case Step(input, _, _, ps) =>
      && (input.Just? ==> Ready(w, input.value))
      && forall i :: 0 <= i < |ps| ==> Ready(w, ps[i].expr)
    case Filter(l, p) => Ready(w, l) && ClassOk(p) && Ready(w, p.expr)
    case TranslateByTable(s, _) => Ready(w, s)
    case CompareAttribute(_, r) => Ready(w, r)
    case _ => true
  }

  ghost predicate Returns(w: World, name: string, ty: Type) {
    forall vs, node :: TypeOf(w.call(name, vs, node)) == ty
  }

  /** The classes that the optimizer assigns keep their promises, at any depth. */
  lemma {:induction false} OptimizeReady(w: World, e: Expr)
    requires Fresh(e) && Ready(w, e)
    ensures Ready(w, Optimize(e))
    decreases e, 1
  {
    hide Returns, OptimizeSelf, Optimize;
    match e
    case Equal(l, r) =>
      OptimizeReady(w, l);
      OptimizeReady(w, r);
      PairReady(w, e);
    case Union(l, r) =>
      OptimizeReady(w, l);
      OptimizeReady(w, r);
      PairReady(w, e);
    case TranslateFn(s, f, t) =>
      OptimizeReady(w, s);
      OptimizeReady(w, f);
      OptimizeReady(w, t);
      TranslateReady(w, e);
    case Call(name, ty, args) =>
      forall i | 0 <= i < |args|
        ensures Ready(w, Optimize(args[i]))
      {
        OptimizeReady(w, args[i]);
      }
      CallReady(w, e);
    case Step(input, axis, test, ps) =>
      if input.Just? {
        OptimizeReady(w, input.value);
      }
      forall i | 0 <= i < |ps|
        ensures Ready(w, Optimize(ps[i].expr))
      {
        OptimizeReady(w, ps[i].expr);
      }
      StepReady(w, e);
    case Filter(l, p) =>
      OptimizeReady(w, l);
      OptimizeReady(w, p.expr);
      FilterReady(w, e);
    case _ =>
      LeafReady(w, e);
  }

  lemma LeafReady(w: World, e: Expr)
    requires Fresh(e) && !e.Equal? && !e.Union? && !e.TranslateFn? && !e.Call? && !e.Step? && !e.Filter?
    ensures Ready(w, Optimize(e))
  {
    hide Returns, Tabulable, MakeTable;
  }

  lemma PairReady(w: World, e: Expr)
    requires (e.Equal? || e.Union?) && Ready(w, Optimize(e.left)) && Ready(w, Optimize(e.right))
    ensures Ready(w, Optimize(e))
  {
    hide OptimizeSelf, Returns;
    SelfReady(w, if e.Equal? then Equal(Optimize(e.left), Optimize(e.right))
      else Union(Optimize(e.left), Optimize(e.right)));
  }

  lemma TranslateReady(w: World, e: Expr)
    requires e.TranslateFn? && Ready(w, Optimize(e.subject)) && Ready(w, Optimize(e.from)) && Ready(w, Optimize(e.to))
    ensures Ready(w, Optimize(e))
  {
    hide OptimizeSelf, Returns;
    SelfReady(w, TranslateFn(Optimize(e.subject), Optimize(e.from), Optimize(e.to)));
  }

  lemma CallReady(w: World, e: Expr)
    requires e.Call? && Returns(w, e.name, e.ty) && forall i :: 0 <= i < |e.args| ==> Ready(w, Optimize(e.args[i]))
    ensures Ready(w, Optimize(e))
  {
    hide OptimizeSelf, Returns;
    SelfReady(w, Call(e.name, e.ty, OptimizeArgs(e.args)));
  }

  lemma StepReady(w: World, e: Expr)
    requires e.Step? && (e.input.Just? ==> Ready(w, Optimize(e.input.value)))
    requires forall i :: 0 <= i < |e.predicates| ==> Ready(w, Optimize(e.predicates[i].expr))
    ensures Ready(w, Optimize(e))
  {
    hide OptimizeSelf, Returns, Classify;
    forall i | 0 <= i < |e.predicates|
      ensures Ready(w, OptimizePredicates(e.predicates)[i].expr)
    {
      StripReady(w, Optimize(e.predicates[i].expr));
    }
    SelfReady(w, Step(if e.input.Just? then Just(Optimize(e.input.value)) else Nothing, e.axis, e.test,
                      OptimizePredicates(e.predicates)));
  }

  lemma FilterReady(w: World, e: Expr)
    requires e.Filter? && Ready(w, Optimize(e.left)) && Ready(w, Optimize(e.pred.expr))
    ensures Ready(w, Optimize(e))
  {
    hide OptimizeSelf, Returns, Classify;
    StripReady(w, Optimize(e.pred.expr));
    ClassifyKeeps(StripPosition(Optimize(e.pred.expr)));
    SelfReady(w, Filter(Optimize(e.left), OptimizePredicate(e.pred)));
  }

  lemma StripReady(w: World, p: Expr)
    requires Ready(w, p)
    ensures Ready(w, StripPosition(p))
  {
    hide Returns;
  }

  lemma ClassifyKeeps(p: Expr)
    ensures ClassOk(Predicate(p, Classify(p)))
  {
    hide IsPosInvExpr;
  }

  lemma SelfReady(w: World, e: Expr)
    requires Ready(w, e)
    ensures Ready(w, OptimizeSelf(e))
  {
    hide Tabulable, MakeTable, IsPosInvStep, Returns;
  }

  /** An expression has a value of its type. */
  lemma ValueTyped(w: World, e: Expr, c: Context)
    requires WellTyped(w, e) && Ready(w, e)
    ensures TypeOf(Eval(w, e, c)) == StaticType(e)
  {
    hide StepUnion, ApplyPredicate, EqualValues, EvalArgs, Translated, Tabled, AttributeEquals;
  }

  // ----- nodes of the document

  ghost predicate AllValid(t: Node, s: seq<XNode>) {
    forall x :: x in s ==> ValidXNode(t, x)
  }

  ghost predicate ValidContext(w: World, c: Context) {
    c.node.Just? ==> ValidXNode(w.doc, c.node.value)
  }

  lemma {:induction false} AttributesValid(t: Node, p: Path, attrs: seq<Attribute>, k: nat, test: NodeTest)
    requires ValidPath(t, p) && k + |attrs| == |NodeAt(t, p).attrs|
    ensures AllValid(t, KeepAttributes(p, attrs, k, test))
  {
    hide PassesAttribute, ValidPath, NodeAt;
    if attrs != [] {
      AttributesValid(t, p, attrs[1..], k + 1, test);
    }
  }

  /** A step leads to nodes of the document only. */
  lemma StepValid(t: Node, axis: Axis, test: NodeTest, x: XNode)
    ensures AllValid(t, StepList(t, axis, test, x))
  {
    hide ValidPath, NodeAt, Selection, KeepAttributes, Passes;
    var n := x.path;
    if x.OfNode? {
      if axis == AttributeAxis {
        if ValidPath(t, n) {
          AttributesValid(t, n, NodeAt(t, n).attrs, 0, test);
        }
      } else {
        SelectionMembers(t, axis, test, n);
      }
    } else {
      SelectionMembers(t, AncestorOrSelf, test, n);
      SelectionMembers(t, FollowingOfAttribute, test, n);
      SelectionMembers(t, Self, test, n);
      SelectionMembers(t, Preceding, test, n);
    }
  }

  /** So is every node set, if the variables' are. */
  lemma {:induction false} ValueValid(en: Engine, e: Expr, c: Context)
    requires EngineOk(en) && WellTyped(en.w, e) && Ready(en.w, e) && StaticType(e) == TNodes && ValidContext(en.w, c)
    ensures forall x :: x in NodesOf(Eval(en.w, e, c)) ==> ValidXNode(en.w.doc, x)
    decreases e
  {
    hide ApplyPredicate, ApplyPredicates, StepFrom, StepUnion, ValidXNode, EqualValues, EvalArgs, EngineOk, WorldOk;
    ListsAreOk(en);
    match e
    case Union(l, r) =>
      ValueValid(en, l, c);
      ValueValid(en, r, c);
    case Filter(l, p) =>
      ValueValid(en, l, c);
      FilterValid(en, p, NodesOf(Eval(en.w, l, c)));
    case Step(input, axis, test, ps) =>
      forall y | y in NodesOf(Eval(en.w, e, c))
        ensures ValidXNode(en.w.doc, y)
      {
        var contexts := if input.Just? then NodesOf(Eval(en.w, input.value, c))
                        else if c.node.Just? then {c.node.value} else {};
        var x := FromUnion(en.w, axis, test, ps, contexts, y);
        StepFromInOrder(en.w, axis, test, ps, x);
        StepValid(en.w.doc, axis, test, x);
      }
    case Root =>
      RootValid(en.w.doc);
    case Variable(name, _) =>
      VariableValid(en, name);
    case _ =>
  }

  lemma RootValid(t: Node)
    ensures ValidXNode(t, OfNode([]))
  {
  }

  lemma VariableValid(en: Engine, name: string)
    requires EngineOk(en)
    ensures forall x :: x in NodesOf(en.w.variables(name)) ==> ValidXNode(en.w.doc, x)
  {
    hide WorldOk, ListingOk, VariablesOk, CallsOk, EqualOk, ConversionsOk, ValidXNode;
  }

  lemma FilterValid(en: Engine, p: Predicate, s: set<XNode>)
    requires WorldOk(en.w) && forall x :: x in s ==> ValidXNode(en.w.doc, x)
    ensures forall x :: x in ApplyPredicate(en.w, p, if p.cls == PosInv then en.w.anyOrder(s)
            else en.w.documentOrder(s)) ==>
            ValidXNode(en.w.doc, x)
  {
    hide ApplyPredicate, ValidXNode;
    var list := if p.cls == PosInv then en.w.anyOrder(s) else en.w.documentOrder(s);
    PredicateKeepsOrder(en.w, p, list, false);
    assert forall x :: x in list ==> x in s;
  }

  // ----- the four evaluators

  method EvalBoolean(en: Engine, e: Expr, c: Context) returns (b: bool)
    requires ValidContext(en.w, c)
    requires EngineOk(en) && WellTyped(en.w, e) && Ready(en.w, e)
    ensures b == Truth(Eval(en.w, e, c))
    decreases e, 6
  {
    hide EngineOk, Ready, WellTyped, Eval, Ordered;
    if StaticType(e) == TNodes {
      var r := EvalNodeSet(en, e, c, EvalAny);
      b := r.nodes != [];
      AnyTells(en.w, e, c, r);
    } else {
      var v := EvalValue(en, e, c);
      b := Truth(v);
    }
  }

  method EvalNumber(en: Engine, e: Expr, c: Context) returns (n: real)
    requires ValidContext(en.w, c)
    requires EngineOk(en) && WellTyped(en.w, e) && Ready(en.w, e)
    ensures n == NumberOf(en.w, Eval(en.w, e, c))
    decreases e, 6
  {
    hide EngineOk, Ready, WellTyped, Eval;
    if StaticType(e) == TNodes {
      var s := EvalString(en, e, c);
      n := en.w.toNumber(Text(s));
      NumberOfNodes(en, e, c);
    } else {
      var v := EvalValue(en, e, c);
      n := NumberOf(en.w, v);
    }
  }

  method EvalString(en: Engine, e: Expr, c: Context) returns (s: string)
    requires ValidContext(en.w, c)
    requires EngineOk(en) && WellTyped(en.w, e) && Ready(en.w, e)
    ensures s == TextOf(en.w, Eval(en.w, e, c))
    decreases e, 5
  {
    hide EngineOk, Ready, WellTyped, Eval, NodeText;
    if StaticType(e) == TNodes {
      var x := EvalFirstNode(en, e, c);
      s := if x.Just? then NodeText(en.w, x.value) else "";
      TextOfNodes(en, e, c, x);
    } else {
      var v := EvalValue(en, e, c);
      s := TextOf(en.w, v);
    }
  }

  /** The first node of a node set, in document order. */
  method EvalFirstNode(en: Engine, e: Expr, c: Context) returns (x: Maybe<XNode>)
    requires ValidContext(en.w, c)
    requires EngineOk(en) && WellTyped(en.w, e) && Ready(en.w, e) && StaticType(e) == TNodes
    ensures x.Nothing? <==> NodesOf(Eval(en.w, e, c)) == {}
    ensures x.Just? ==> IsFirst(NodesOf(Eval(en.w, e, c)), x.value)
    decreases e, 4
  {
    hide EngineOk, Ready, WellTyped, Eval, Ordered, IsFirst;
    var r := EvalNodeSet(en, e, c, EvalFirst);
    x := FirstNode(r);
    FirstOfDelivered(NodesOf(Eval(en.w, e, c)), r.nodes, x);
  }

  lemma AnyTells(w: World, e: Expr, c: Context, r: Raw)
    requires WellTyped(w, e) && Ready(w, e) && StaticType(e) == TNodes
    requires Delivered(NodesOf(Eval(w, e, c)), r, EvalAny)
    ensures r.nodes != [] <==> Truth(Eval(w, e, c))
  {
    hide Eval, WellTyped, Ready, Ordered;
    ValueTyped(w, e, c);
    if r.nodes != [] {
      assert r.nodes[0] in r.nodes;
    }
  }

  lemma TextOfNodes(en: Engine, e: Expr, c: Context, x: Maybe<XNode>)
    requires EngineOk(en) && WellTyped(en.w, e) && Ready(en.w, e) && StaticType(e) == TNodes
    requires x.Nothing? <==> NodesOf(Eval(en.w, e, c)) == {}
    requires x.Just? ==> IsFirst(NodesOf(Eval(en.w, e, c)), x.value)
    ensures TextOf(en.w, Eval(en.w, e, c)) == if x.Just? then NodeText(en.w, x.value) else ""
  {
    hide Eval, WellTyped, Ready, NodeText, IsFirst, WorldOk, ListingOk, VariablesOk, CallsOk, EqualOk;
    ValueTyped(en.w, e, c);
  }

  lemma NumberOfNodes(en: Engine, e: Expr, c: Context)
    requires EngineOk(en) && WellTyped(en.w, e) && Ready(en.w, e) && StaticType(e) == TNodes
    ensures NumberOf(en.w, Eval(en.w, e, c)) == en.w.toNumber(Text(TextOf(en.w, Eval(en.w, e, c))))
  {
    hide Eval, WellTyped, Ready, IsFirst, WorldOk, ListingOk, VariablesOk, CallsOk, EqualOk;
    ValueTyped(en.w, e, c);
  }

  /** The value of any expression; of a node set all of it. */
  method EvalValue(en: Engine, e: Expr, c: Context) returns (v: Value)
    requires ValidContext(en.w, c)
    requires EngineOk(en) && WellTyped(en.w, e) && Ready(en.w, e)
    ensures v == Eval(en.w, e, c)
    decreases e, 4
  {
    hide EngineOk, EqualValues, EvalArgs, StepUnion, ApplyPredicate, Delivered, Translated, Tabled, AttributeEquals;
    match e
    case StringConstant(s) => v := Text(s);
    case NumberConstant(r) => v := Number(r);
    case PositionFn => v := Number(c.position as real);
    case LastFn => v := Number(c.size as real);
    case Equal(l, r) =>
      var b := EvalEqual(en, l, r, c);
      v := Boolean(b);
    case TranslateFn(s, f, t) =>
      var subject := EvalString(en, s, c);
      var from := EvalString(en, f, c);
      var to := EvalString(en, t, c);
      v := Text(Translated(subject, from, to));
    case Call(name, _, args) =>
      var us := EvalArguments(en, name, args, c);
      v := en.w.call(name, us, c.node);
      CallSees(en, name, EvalArgs(en.w, args, c), c.node);
    case TranslateByTable(s, table) =>
      var subject := EvalString(en, s, c);
      v := if |table| == 128 && forall i :: 0 <= i < 128 ==> table[i] <= 128 then Text(Tabled(subject, table))
        else Text("");
    case CompareAttribute(name, r) =>
      var value := EvalString(en, r, c);
      v := Boolean(c.node.Just? && c.node.value.OfNode? && ValidPath(en.w.doc, c.node.value.path)
                   && AttributeEquals(NodeAt(en.w.doc, c.node.value.path).attrs, name, value));
    case Variable(name, ty) => v := en.w.variables(name);
    case Union(_, _) => v := EvalAllNodes(en, e, c);
    case Id(_) => v := EvalAllNodes(en, e, c);
    case Root => v := EvalAllNodes(en, e, c);
    case Step(_, _, _, _) => v := EvalAllNodes(en, e, c);
    case Filter(_, _) => v := EvalAllNodes(en, e, c);
  }

  method EvalAllNodes(en: Engine, e: Expr, c: Context) returns (v: Value)
    requires ValidContext(en.w, c)
    requires EngineOk(en) && WellTyped(en.w, e) && Ready(en.w, e) && StaticType(e) == TNodes
    ensures v == Eval(en.w, e, c)
    decreases e, 3
  {
    hide EngineOk, Ready, WellTyped, Eval, Delivered;
    var r := EvalNodeSet(en, e, c, EvalAll);
    AllDelivered(NodesOf(Eval(en.w, e, c)), r);
    ValueTyped(en.w, e, c);
    v := Nodes(AsSet(r.nodes));
  }

  lemma CallSees(en: Engine, name: string, vs: seq<Value>, node: Maybe<XNode>)
    requires EngineOk(en)
    ensures en.w.call(name, ConvertAll(en, name, vs), node) == en.w.call(name, vs, node)
  {
    hide WorldOk, ListingOk, VariablesOk, ConversionsOk, EqualOk, ConvertAll;
  }

  /** The arguments of a function, each looked at as the function does. */
  method EvalArguments(en: Engine, name: string, args: seq<Expr>, c: Context) returns (us: seq<Value>)
    requires ValidContext(en.w, c)
    requires EngineOk(en) && forall i :: 0 <= i < |args| ==> WellTyped(en.w, args[i]) && Ready(en.w, args[i])
    ensures us == ConvertAll(en, name, EvalArgs(en.w, args, c))
    decreases args, 0
  {
    hide EngineOk, Ready, WellTyped, Eval, Convert, EvalArgs;
    ArgsAt(en.w, args, c);
    us := [];
    var i := 0;
    while i < |args|
      invariant 0 <= i <= |args| == |EvalArgs(en.w, args, c)| && |us| == i
      invariant forall j :: 0 <= j < i ==> us[j] == ConvertAll(en, name, EvalArgs(en.w, args, c))[j]
    {
      var u := EvalLooked(en, en.look(name, i), args[i], c);
      us := us + [u];
      i := i + 1;
    }
  }

  lemma {:induction false} ArgsAt(w: World, args: seq<Expr>, c: Context)
    ensures |EvalArgs(w, args, c)| == |args|
    ensures forall i :: 0 <= i < |args| ==> EvalArgs(w, args, c)[i] == Eval(w, args[i], c)
  {
    hide Eval;
    if args != [] {
      ArgsAt(w, args[1..], c);
    }
  }

  method EvalLooked(en: Engine, look: Look, e: Expr, c: Context) returns (v: Value)
    requires ValidContext(en.w, c)
    requires EngineOk(en) && WellTyped(en.w, e) && Ready(en.w, e)
    ensures v == Convert(en.w, look, Eval(en.w, e, c))
    decreases e, 7
  {
    hide EngineOk, Ready, WellTyped, Eval, IsFirst;
    match look
    case Whole =>
      v := EvalValue(en, e, c);
    case AsBoolean =>
      var b := EvalBoolean(en, e, c);
      v := Boolean(b);
    case AsNumber =>
      var n := EvalNumber(en, e, c);
      v := Number(n);
    case AsText =>
      var s := EvalString(en, e, c);
      v := Text(s);
    case FirstOnly =>
      if StaticType(e) == TNodes {
        var x := EvalFirstNode(en, e, c);
        v := if x.Just? then Nodes({x.value}) else Nodes({});
        FirstIs(en.w, e, c, x);
      } else {
        v := EvalValue(en, e, c);
        ValueTyped(en.w, e, c);
      }
  }

  lemma FirstIs(w: World, e: Expr, c: Context, x: Maybe<XNode>)
    requires WellTyped(w, e) && Ready(w, e) && StaticType(e) == TNodes
    requires x.Nothing? <==> NodesOf(Eval(w, e, c)) == {}
    requires x.Just? ==> IsFirst(NodesOf(Eval(w, e, c)), x.value)
    ensures Convert(w, FirstOnly, Eval(w, e, c)) == if x.Just? then Nodes({x.value}) else Nodes({})
  {
    hide Eval, WellTyped, Ready, IsFirst;
    ValueTyped(w, e, c);
    var full := NodesOf(Eval(w, e, c));
    if x.Just? {
      FirstUnique(full, FirstOf(full), x.value);
    }
  }

  /** compare_eq: which conversions apply is decided by the types; only whether there is any node
      matters in a comparison with a boolean. */
  method EvalEqual(en: Engine, l: Expr, r: Expr, c: Context) returns (b: bool)
    requires ValidContext(en.w, c)
    requires EngineOk(en) && WellTyped(en.w, l) && Ready(en.w, l) && WellTyped(en.w, r) && Ready(en.w, r)
    ensures b == EqualValues(en.w, StaticType(l), Eval(en.w, l, c), StaticType(r), Eval(en.w, r, c))
    decreases Equal(l, r), 1
  {
    hide EngineOk, Ready, WellTyped, Eval, NodeText, Delivered, EqualValues;
    EqualByValues(en, l, r, c);
    var lt, rt := StaticType(l), StaticType(r);
    if lt == TBoolean || rt == TBoolean {
      var x := EvalBoolean(en, l, c);
      var y := EvalBoolean(en, r, c);
      b := x == y;
    } else if lt == TNodes && rt == TNodes {
      var ls := EvalNodeSet(en, l, c, EvalAll);
      var rs := EvalNodeSet(en, r, c, EvalAll);
      AllDelivered(NodesOf(Eval(en.w, l, c)), ls);
      AllDelivered(NodesOf(Eval(en.w, r, c)), rs);
      b := SomeEqual(en.w, ls.nodes, rs.nodes);
    } else if lt == TNodes {
      b := EqualWithNodes(en, r, l, c, Equal(l, r));
    } else if rt == TNodes {
      b := EqualWithNodes(en, l, r, c, Equal(l, r));
    } else if lt == TNumber || rt == TNumber {
      var x := EvalNumber(en, l, c);
      var y := EvalNumber(en, r, c);
      b := x == y;
    } else {
      var x := EvalString(en, l, c);
      var y := EvalString(en, r, c);
      b := x == y;
    }
  }

  lemma EqualByValues(en: Engine, l: Expr, r: Expr, c: Context)
    requires EngineOk(en) && WellTyped(en.w, l) && Ready(en.w, l) && WellTyped(en.w, r) && Ready(en.w, r)
    ensures EqualValues(en.w, StaticType(l), Eval(en.w, l, c), StaticType(r), Eval(en.w, r, c)) ==
            XPathEqual(en.w, Eval(en.w, l, c), Eval(en.w, r, c))
    ensures TypeOf(Eval(en.w, l, c)) == StaticType(l) && TypeOf(Eval(en.w, r, c)) == StaticType(r)
  {
    hide Eval, WellTyped, Ready, NodeText, WorldOk, ListingOk, VariablesOk, CallsOk, ConversionsOk;
    ValueTyped(en.w, l, c);
    ValueTyped(en.w, r, c);
  }

  method SomeEqual(w: World, s: seq<XNode>, t: seq<XNode>) returns (b: bool)
    ensures b <==> exists x, y :: x in s && y in t && NodeText(w, x) == NodeText(w, y)
  {
    hide NodeText;
    var i := 0;
    while i < |s|
      invariant 0 <= i <= |s|
      invariant forall k, m :: 0 <= k < i && 0 <= m < |t| ==> NodeText(w, s[k]) != NodeText(w, t[m])
    {
      var found := SomeText(w, NodeText(w, s[i]), t);
      if found {
        return true;
      }
      i := i + 1;
    }
    return false;
  }

  method SomeText(w: World, text: string, t: seq<XNode>) returns (b: bool)
    ensures b <==> exists y :: y in t && NodeText(w, y) == text
  {
    hide NodeText;
    var i := 0;
    while i < |t|
      invariant 0 <= i <= |t| && forall k :: 0 <= k < i ==> NodeText(w, t[k]) != text
    {
      if NodeText(w, t[i]) == text {
        return true;
      }
      i := i + 1;
    }
    return false;
  }

  method SomeNumber(w: World, n: real, t: seq<XNode>) returns (b: bool)
    ensures b <==> exists y :: y in t && w.toNumber(Text(NodeText(w, y))) == n
  {
    hide NodeText;
    var i := 0;
    while i < |t|
      invariant 0 <= i <= |t| && forall k :: 0 <= k < i ==> w.toNumber(Text(NodeText(w, t[k]))) != n
    {
      if w.toNumber(Text(NodeText(w, t[i]))) == n {
        return true;
      }
      i := i + 1;
    }
    return false;
  }

  /** A number or a string compared with a node set: some node's text, or the number that is. */
  method EqualWithNodes(en: Engine, e: Expr, ns: Expr, c: Context, ghost whole: Expr) returns (b: bool)
    requires ValidContext(en.w, c)
    requires EngineOk(en) && WellTyped(en.w, e) && Ready(en.w, e) && WellTyped(en.w, ns) && Ready(en.w, ns)
    requires StaticType(ns) == TNodes && (StaticType(e) == TNumber || StaticType(e) == TText)
    requires e < whole && ns < whole
    ensures b == EqualsNodes(en.w, Eval(en.w, e, c), NodesOf(Eval(en.w, ns, c)))
    decreases whole, 0
  {
    hide EngineOk, Ready, WellTyped, Eval, NodeText, Delivered;
    ValueTyped(en.w, e, c);
    var rs := EvalNodeSet(en, ns, c, EvalAll);
    AllDelivered(NodesOf(Eval(en.w, ns, c)), rs);
    if StaticType(e) == TNumber {
      var n := EvalNumber(en, e, c);
      b := SomeNumber(en.w, n, rs.nodes);
    } else {
      var t := EvalString(en, e, c);
      b := SomeText(en.w, t, rs.nodes);
    }
  }

  // ----- predicates

  method EvalHolds(en: Engine, p: Expr, c: Context) returns (b: bool)
    requires ValidContext(en.w, c)
    requires EngineOk(en) && WellTyped(en.w, p) && Ready(en.w, p)
    ensures b == Holds(en.w, p, c)
    decreases p, 7
  {
    hide EngineOk, Ready, WellTyped, Eval, NumberOf, Truth;
    if StaticType(p) == TNumber {
      var n := EvalNumber(en, p, c);
      b := n == c.position as real;
    } else {
      b := EvalBoolean(en, p, c);
    }
  }

  lemma FirstIsHead(x: XNode, rest: seq<XNode>)
    ensures First([x] + rest, true) == [x]
  {
  }

  lemma NoneOrAll(s: seq<XNode>, once: bool)
    requires once ==> s == []
    ensures First(s, once) == s
  {
  }

  /** apply_predicate_boolean and apply_predicate_number. */
  method ApplyGeneralOnce(en: Engine, p: Expr, list: seq<XNode>, once: bool) returns (kept: seq<XNode>)
    requires AllValid(en.w.doc, list)
    requires EngineOk(en) && WellTyped(en.w, p) && Ready(en.w, p)
    ensures kept == First(ApplyGeneral(en.w, p, list, 0, |list|), once)
    decreases p, 8
  {
    hide ApplyGeneral, Holds, EngineOk, Ready, WellTyped, First, ValidXNode;
    kept := [];
    var i := 0;
    assert list[0..] == list;
    while i < |list|
      invariant 0 <= i <= |list| && (once ==> kept == [])
      invariant kept + ApplyGeneral(en.w, p, list[i..], i, |list|) == ApplyGeneral(en.w, p, list, 0, |list|)
    {
      GeneralStep(en.w, p, list, i);
      assert list[i] in list;
      var holds := EvalHolds(en, p, Context(Just(list[i]), i + 1, |list|));
      if holds {
        if once {
          var rest := ApplyGeneral(en.w, p, list[i + 1..], i + 1, |list|);
          assert kept + ([list[i]] + rest) == [list[i]] + rest;
          FirstIsHead(list[i], rest);
          return [list[i]];
        }
        kept := kept + [list[i]];
      }
      i := i + 1;
    }
    NothingLeft(en.w, p, i, |list|);
    assert list[i..] == [] && kept + [] == kept;
    NoneOrAll(kept, once);
  }

  /** apply_predicate_number_const. */
  method ApplyConstantOnce(en: Engine, p: Expr, list: seq<XNode>) returns (kept: seq<XNode>)
    requires EngineOk(en) && WellTyped(en.w, p) && Ready(en.w, p)
    ensures kept == ApplyConstant(en.w, p, list)
    decreases p, 8
  {
    hide EngineOk, Ready, WellTyped, Eval, NumberOf;
    var r := EvalNumber(en, p, Context(Nothing, 1, |list|));
    kept := if 1.0 <= r <= |list| as real && r == r.Floor as real then [list[r.Floor - 1]] else [];
  }

  method ApplyPredicateOnce(en: Engine, p: Predicate, list: seq<XNode>, once: bool) returns (kept: seq<XNode>)
    requires AllValid(en.w.doc, list)
    requires EngineOk(en) && WellTyped(en.w, p.expr) && Ready(en.w, p.expr)
    ensures kept == First(ApplyPredicate(en.w, p, list), once)
    decreases p, 9
  {
    hide ApplyGeneral, EngineOk, Ready, WellTyped;
    if p.cls == Constant || p.cls == ConstantOne {
      kept := ApplyConstantOnce(en, p.expr, list);
    } else {
      kept := ApplyGeneralOnce(en, p.expr, list, once);
    }
  }

  ghost predicate PredicatesReady(w: World, ps: seq<Predicate>) {
    forall i :: 0 <= i < |ps| ==> WellTyped(w, ps[i].expr) && Ready(w, ps[i].expr)
  }

  /** Only the last predicate may stop. */
  method ApplyPredicatesOnce(en: Engine, ps: seq<Predicate>, list: seq<XNode>, lastOnce: bool)
    returns (kept: seq<XNode>)
    requires AllValid(en.w.doc, list)
    requires ps != [] && EngineOk(en) && PredicatesReady(en.w, ps)
    ensures kept == First(ApplyPredicates(en.w, ps, list), lastOnce)
    decreases ps, 10
  {
    hide ApplyPredicate, EngineOk, Ready, WellTyped;
    kept := list;
    var i := 0;
    assert ps[0..] == ps;
    while i + 1 < |ps|
      invariant 0 <= i < |ps| && ApplyPredicates(en.w, ps[i..], kept) == ApplyPredicates(en.w, ps, list)
      invariant AllValid(en.w.doc, kept)
    {
      PredicatesStep(en.w, ps, i, kept);
      PredicateKeepsOrder(en.w, ps[i], kept, false);
      kept := ApplyPredicateOnce(en, ps[i], kept, false);
      i := i + 1;
    }
    PredicatesStep(en.w, ps, i, kept);
    assert ps[i + 1..] == [];
    kept := ApplyPredicateOnce(en, ps[i], kept, lastOnce);
  }

  // ----- one step from one node

  lemma AttributesFrom(p: Path, attrs: seq<Attribute>, k: nat, test: NodeTest)
    requires k < |attrs|
    ensures KeepAttributes(p, attrs[k..], k, test) ==
            (if PassesAttribute(test, attrs[k].name) then [OfAttribute(p, k)] else []) +
            KeepAttributes(p, attrs[k + 1..], k + 1, test)
  {
    assert attrs[k..][1..] == attrs[k + 1..];
  }

  method FillAttributes(p: Path, attrs: seq<Attribute>, test: NodeTest, once: bool) returns (ns: seq<XNode>)
    ensures ns == First(KeepAttributes(p, attrs, 0, test), once)
  {
    hide KeepAttributes, PassesAttribute;
    ns := [];
    var k := 0;
    assert attrs[0..] == attrs;
    while k < |attrs|
      invariant 0 <= k <= |attrs| && (once ==> ns == [])
      invariant ns + KeepAttributes(p, attrs[k..], k, test) == KeepAttributes(p, attrs, 0, test)
    {
      AttributesFrom(p, attrs, k, test);
      if PassesAttribute(test, attrs[k].name) {
        ns := ns + [OfAttribute(p, k)];
        if once {
          return;
        }
      }
      k := k + 1;
    }
    NoAttributesLeft(p, k, test);
    assert attrs[k..] == [];
  }

  lemma NoAttributesLeft(p: Path, k: nat, test: NodeTest)
    ensures KeepAttributes(p, [], k, test) == []
  {
  }

  lemma CutNodes(r: seq<Path>, once: bool)
    ensures AsNodes(Cut(r, once)) == First(AsNodes(r), once)
  {
  }

  /** The nodes an axis leads to from an element. */
  method FillNodes(t: Node, axis: Axis, n: Path, test: NodeTest, once: bool) returns (ns: seq<XNode>)
    requires ValidPath(t, n) && axis != AttributeAxis
    ensures ns == First(AsNodes(Selection(t, axis, n, test)), once)
  {
    hide Selection, AsNodes, First, Cut;
    var paths := XmlAxes.StepFill(t, axis, n, test, once);
    CutNodes(Selection(t, axis, n, test), once);
    ns := AsNodes(paths);
  }

  /** step_fill: the traversals for an element, and those for an attribute, which go from its element. */
  method StepFill(t: Node, axis: Axis, test: NodeTest, x: XNode, once: bool) returns (ns: seq<XNode>)
    requires ValidXNode(t, x)
    ensures ns == First(StepList(t, axis, test, x), once)
  {
    hide Selection, AsNodes, KeepAttributes, SelfAttribute;
    var n := x.path;
    match x
    case OfNode(_) =>
      if axis == AttributeAxis {
        ns := FillAttributes(n, NodeAt(t, n).attrs, test, once);
      } else {
        ns := FillNodes(t, axis, n, test, once);
      }
    case OfAttribute(_, _) =>
      match axis {
        case Ancestor => ns := FillNodes(t, AncestorOrSelf, n, test, once);
        case AncestorOrSelf =>
          ns := SelfAttribute(t, x, test);
          if once && ns != [] {
            SelfAlone(t, x, test);
            return;
          }
          var more := FillNodes(t, AncestorOrSelf, n, test, once);
          ns := ns + more;
        case DescendantOrSelf =>
          ns := SelfAttribute(t, x, test);
          SelfAlone(t, x, test);
        case Self =>
          ns := SelfAttribute(t, x, test);
          SelfAlone(t, x, test);
        case Following => ns := FillNodes(t, FollowingOfAttribute, n, test, once);
        case ParentAxis => ns := FillNodes(t, Self, n, test, once);
        case Preceding => ns := FillNodes(t, Preceding, n, test, once);
        case _ => ns := [];
      }
  }

  lemma SelfAlone(t: Node, x: XNode, test: NodeTest)
    requires x.OfAttribute?
    ensures SelfAttribute(t, x, test) == [] || SelfAttribute(t, x, test) == [x]
  {
  }

  // ----- node sets

  /** What a step delivers from one node, cut short or not. */
  method FillOne(en: Engine, axis: Axis, test: NodeTest, ps: seq<Predicate>, x: XNode, ty: N.SetType, mode: Mode)
    returns (piece: seq<XNode>, ghost cut: bool)
    requires EngineOk(en) && PredicatesReady(en.w, ps) && ValidXNode(en.w.doc, x)
    ensures piece == First(StepFrom(en.w, axis, test, ps, x), cut)
    ensures cut == EvalOnce(if ps == [] then AxisType(axis) else ty, mode)
    decreases ps, 11
  {
    hide StepList, ApplyPredicates, EvalOnce, EngineOk, PredicatesReady, First, AllValid, ValidXNode, StepFrom;
    var once := Once(axis, test, ps) || (ps == [] && EvalOnce(AxisType(axis), mode));
    piece := StepFill(en.w.doc, axis, test, x, once);
    cut := EvalOnce(if ps == [] then AxisType(axis) else ty, mode);
    if ps != [] {
      FilledValid(en.w.doc, axis, test, x, once);
      piece := ApplyPredicatesOnce(en, ps, piece, EvalOnce(ty, mode));
      WithPredicates(en.w, axis, test, ps, x);
    } else {
      NoPredicates(en.w, axis, test, x, cut);
    }
  }

  lemma FilledValid(t: Node, axis: Axis, test: NodeTest, x: XNode, once: bool)
    ensures AllValid(t, First(StepList(t, axis, test, x), once))
  {
    hide StepList, ValidXNode;
    StepValid(t, axis, test, x);
  }

  lemma WithPredicates(w: World, axis: Axis, test: NodeTest, ps: seq<Predicate>, x: XNode)
    ensures StepFrom(w, axis, test, ps, x) ==
            ApplyPredicates(w, ps, First(StepList(w.doc, axis, test, x), Once(axis, test, ps)))
  {
    hide StepList, ApplyPredicates, First;
  }

  /** Collects what the nodes of s lead to. */
  method StepDo(en: Engine, axis: Axis, test: NodeTest, ps: seq<Predicate>, s: seq<XNode>, start: N.SetType, mode: Mode)
    returns (r: Raw)
    requires EngineOk(en) && PredicatesReady(en.w, ps) && Distinct(s) && AllValid(en.w.doc, s)
    requires if axis == Self then Ordered(s, start) else start == AxisType(axis)
    ensures Delivered(StepUnion(en.w, axis, test, ps, AsSet(s)), r, mode)
    decreases ps, 12
  {
    hide StepFrom, StepList, XInOrder, Delivers, Collecting, Distinct, StepUnion, Ordered, EvalOnce, EngineOk,
      PredicatesReady;
    var ns, ty := [], start;
    var i := 0;
    NothingCollected(en.w, axis, test, ps, s, start, mode);
    while i < |s|
      invariant 0 <= i <= |s| && Collecting(axis, s, i, start, ns, ty)
      invariant Delivers(StepUnion(en.w, axis, test, ps, AsSet(s[..i])), ns, mode)
    {
      ghost var was := ty;
      if axis != Self && ns != [] {
        ty := N.TypeUnsorted;
      }
      var piece;
      ghost var cut;
      assert s[i] in s;
      piece, cut := FillOne(en, axis, test, ps, s[i], ty, mode);
      CollectOne(en.w, axis, test, ps, s, i, start, ns, was, ty, piece, cut, mode);
      ns := ns + piece;
      i := i + 1;
    }
    assert s[..i] == s;
    if axis != Child && axis != AttributeAxis && axis != Self && ty == N.TypeUnsorted {
      ListsAreOk(en);
      ns := Deduplicated(en.w, StepUnion(en.w, axis, test, ps, AsSet(s)), ns, mode);
      r := Raw(ns, ty);
      UnsortedIfDistinct(ns);
    } else {
      r := Raw(ns, ty);
      CollectedOrdered(axis, s, start, ns, ty);
    }
  }

  lemma ListsAreOk(en: Engine)
    requires EngineOk(en)
    ensures WorldOk(en.w) && ListingOk(en.w) && VariablesOk(en.w, en.listed)
  {
    hide WorldOk, ListingOk, VariablesOk, CallsOk, EqualOk, ConversionsOk, VariablesValid;
  }

  method EvalFilter(en: Engine, p: Predicate, ghost full: set<XNode>, left: Raw, mode: Mode) returns (r: Raw)
    requires EngineOk(en) && ClassOk(p) && WellTyped(en.w, p.expr) && Ready(en.w, p.expr)
    requires Delivered(full, left, if p.cls == ConstantOne then EvalFirst else EvalAll)
    requires forall x :: x in full ==> ValidXNode(en.w.doc, x)
    ensures Delivered(AsSet(ApplyPredicate(en.w, p, if p.cls == PosInv then en.w.anyOrder(full)
            else en.w.documentOrder(full))),
                      r, mode)
    decreases p, 10
  {
    hide ApplyPredicate, XInOrder, Delivers, EvalOnce, WellTyped, EngineOk, Ready, WorldOk, ListingOk, VariablesOk;
    ListsAreOk(en);
    var list := left;
    if p.cls != PosInv {
      list := Raw(en.w.documentOrder(AsSet(left.nodes)), N.TypeSorted);
    }
    FilterSame(en.w, p, full, left, list);
    ListedValid(en, full, left, list, if p.cls == ConstantOne then EvalFirst else EvalAll);
    FilterDelivers(en.w, p, list.nodes, list.ty, mode);
    var kept := ApplyPredicateOnce(en, p, list.nodes, EvalOnce(list.ty, mode));
    r := Raw(kept, list.ty);
  }

  lemma ListedValid(en: Engine, full: set<XNode>, left: Raw, r: Raw, mode: Mode)
    requires WorldOk(en.w) && Delivered(full, left, mode) && forall x :: x in full ==> ValidXNode(en.w.doc, x)
    requires r == left || r == Raw(en.w.documentOrder(AsSet(left.nodes)), N.TypeSorted)
    ensures AllValid(en.w.doc, r.nodes)
  {
    hide ValidXNode, Ordered;
    AsSetIs(left.nodes);
  }

  /** Evaluates a node set: the list holds nothing but nodes of its value, all of them, or one if
      there is one, or the first in the document, as the mode asks; without repetitions, and in the
      order it claims. */
  method EvalNodeSet(en: Engine, e: Expr, c: Context, mode: Mode) returns (r: Raw)
    requires ValidContext(en.w, c)
    requires EngineOk(en) && WellTyped(en.w, e) && Ready(en.w, e) && StaticType(e) == TNodes
    ensures Delivered(NodesOf(Eval(en.w, e, c)), r, mode)
    decreases e, 2
  {
    hide Delivered, StepUnion, ListingOk, WorldOk, ApplyPredicate, EngineOk, EqualValues, EvalArgs;
    ListsAreOk(en);
    match e
    case Union(left, right) =>
      var ls := EvalNodeSet(en, left, c, mode);
      var rs := EvalNodeSet(en, right, c, mode);
      r := EvalUnion(en.w, NodesOf(Eval(en.w, left, c)), ls, NodesOf(Eval(en.w, right, c)), rs, mode);
    case Filter(left, p) =>
      var s := EvalNodeSet(en, left, c, if p.cls == ConstantOne then EvalFirst else EvalAll);
      ValueValid(en, left, c);
      r := EvalFilter(en, p, NodesOf(Eval(en.w, left, c)), s, mode);
    case Id(_) =>
      r := Raw([], N.TypeUnsorted);
      DeliveredAll({}, r, mode);
    case Root =>
      r := Raw(if c.node.Just? then [OfNode([])] else [], N.TypeSorted);
      DeliveredAll(NodesOf(Eval(en.w, e, c)), r, mode);
    case Variable(name, _) =>
      r := en.listed(name);
      DeliveredAll(NodesOf(Eval(en.w, e, c)), r, mode);
    case Step(input, axis, test, ps) =>
      if input.Just? {
        var s := EvalNodeSet(en, input.value, c, EvalAll);
        AllDelivered(NodesOf(Eval(en.w, input.value, c)), s);
        OrderedIsDistinct(s.nodes, s.ty);
        ValueValid(en, input.value, c);
        AllDeliveredValid(en, NodesOf(Eval(en.w, input.value, c)), s);
        r := StepDo(en, axis, test, ps, s.nodes, if axis == Self then s.ty else AxisType(axis), mode);
      } else {
        var s := if c.node.Just? then [c.node.value] else [];
        r := StepDo(en, axis, test, ps, s, AxisType(axis), mode);
        assert AsSet(s) == if c.node.Just? then {c.node.value} else {};
      }
  }

  lemma AllDeliveredValid(en: Engine, full: set<XNode>, s: Raw)
    requires Delivered(full, s, EvalAll) && forall x :: x in full ==> ValidXNode(en.w.doc, x)
    ensures AllValid(en.w.doc, s.nodes)
  {
    hide ValidXNode, Ordered;
  }

  // ----- queries

  /** evaluate_node of the optimized query: the node found with all the early exits is the first, in
      the document, of the nodes that the query selects as it was written. */
  method EvaluateNode(en: Engine, query: Expr, c: Context) returns (x: Maybe<XNode>)
    requires ValidContext(en.w, c)
    requires EngineOk(en) && WellTyped(en.w, query) && StaticType(query) == TNodes && Fresh(query) && Ready(en.w, query)
    ensures x.Nothing? <==> NodesOf(Eval(en.w, query, c)) == {}
    ensures x.Just? ==> IsFirst(NodesOf(Eval(en.w, query, c)), x.value)
  {
    hide Eval, WellTyped, Fresh, EngineOk, Ready, IsFirst, Optimize, WorldOk, ListingOk, VariablesOk;
    ListsAreOk(en);
    OptimizeSound(en.w, query);
    OptimizeReady(en.w, query);
    x := EvalFirstNode(en, Optimize(query), c);
  }

  /** The optimized query has the value of the query as it was written, whatever its type. */
  method Evaluate(en: Engine, query: Expr, c: Context) returns (v: Value)
    requires ValidContext(en.w, c)
    requires EngineOk(en) && WellTyped(en.w, query) && Fresh(query) && Ready(en.w, query)
    ensures v == Eval(en.w, query, c)
  {
    hide Eval, WellTyped, Fresh, EngineOk, Ready, Optimize, WorldOk, ListingOk, VariablesOk;
    ListsAreOk(en);
    OptimizeSound(en.w, query);
    OptimizeReady(en.w, query);
    v := EvalValue(en, Optimize(query), c);
  }
}
