/** What the optimizer leaves: a query in which none of its rewrites applies any more, with every
    predicate classified (aux-src/pugixml/pugixml.cc:10855-10958). */
module XPathNormalForm {
  import opened XmlAxes
  import opened XPathOptimizer

  /** position() or last() is asked of the expression's own context, not of a path's. */
  predicate AsksPosition(e: Expr)
    decreases e
  {
    match e
    case PositionFn => true
    case LastFn => true
    case Equal(l, r) => AsksPosition(l) || AsksPosition(r)
    case Union(l, r) => AsksPosition(l) || AsksPosition(r)
    case TranslateFn(s, f, t) => AsksPosition(s) || AsksPosition(f) || AsksPosition(t)
    case Call(_, _, args) => exists i :: 0 <= i < |args| && AsksPosition(args[i])
    case Id(a) => AsksPosition(a)
    case TranslateByTable(s, _) => AsksPosition(s)
    case CompareAttribute(_, r) => AsksPosition(r)
    case _ => false
  }

  /** A number that is the same for all nodes. */
  predicate FixedNumber(e: Expr) {
    StaticType(e) == TNumber && (e.NumberConstant? || e.Variable? || e.LastFn?)
  }

  /** True or false of a node, wherever it stands in the list. */
  predicate OfNodeAlone(e: Expr) {
    StaticType(e) != TNumber && !AsksPosition(e)
  }

  predicate Classified(p: Predicate) {
    match p.cls
    case ConstantOne => p.expr == NumberConstant(1.0)
    case Constant => FixedNumber(p.expr) && p.expr != NumberConstant(1.0)
    case PosInv => OfNodeAlone(p.expr)
    case Default => !FixedNumber(p.expr) && !OfNodeAlone(p.expr)
  }

  predicate PositionTest(e: Expr) {
    e.Equal? && e.left.PositionFn? && StaticType(e.right) == TNumber
  }

  /** descendant-or-self::node()/ in front of a step that could do without it. */
  predicate LongSlash(e: Expr) {
    e.Step? && e.axis in {Child, Self, Descendant, DescendantOrSelf} &&
    e.input.Just? && e.input.value.Step? && e.input.value.axis == DescendantOrSelf &&
    e.input.value.test == TestNode && e.input.value.predicates == [] &&
    forall i :: 0 <= i < |e.predicates| ==> OfNodeAlone(e.predicates[i].expr)
  }

  /** translate() with constants of characters below 128. */
  predicate ConstantTranslate(e: Expr) {
    e.TranslateFn? && e.from.StringConstant? && e.to.StringConstant? &&
    (forall i :: 0 <= i < |e.from.text| ==> e.from.text[i] as int < 128) &&
    forall i :: 0 <= i < |e.to.text| && i < |e.from.text| ==> e.to.text[i] as int < 128
  }

  /** @name = 'constant', or = $text. */
  predicate AttributeTest(e: Expr) {
    e.Equal? && e.left.Step? && e.left.axis == AttributeAxis && e.left.test.TestName? && e.left.input.Nothing? &&
    e.left.predicates == [] &&
    (e.right.StringConstant? || (e.right.Variable? && e.right.ty == TText))
  }

  predicate Normal(e: Expr)
    decreases e
  {
    !LongSlash(e) && !ConstantTranslate(e) && !AttributeTest(e) &&
    match e
    case Equal(l, r) => Normal(l) && Normal(r)
    case Union(l, r) => Normal(l) && Normal(r)
    case TranslateFn(s, f, t) => Normal(s) && Normal(f) && Normal(t)
    case Call(_, _, args) => forall i :: 0 <= i < |args| ==> Normal(args[i])
    case Id(a) => Normal(a)
    case Step(input, _, _, ps) =>
      (input.Just? ==> Normal(input.value)) && forall i :: 0 <= i < |ps| ==> Normal(ps[i].expr) && Simple(ps[i])
    case Filter(l, p) => Normal(l) && Normal(p.expr) && Simple(p)
    case TranslateByTable(s, _) => Normal(s)
    case _ => true
  }

  predicate Simple(p: Predicate) {
    Classified(p) && !PositionTest(p.expr)
  }

  lemma {:induction false} PosInvAsks(e: Expr)
    ensures IsPosInvExpr(e) <==> !AsksPosition(e)
    decreases e
  {
    match e
    case Equal(l, r) =>
      PosInvAsks(l);
      PosInvAsks(r);
    case Union(l, r) =>
      PosInvAsks(l);
      PosInvAsks(r);
    case TranslateFn(s, f, t) =>
      PosInvAsks(s);
      PosInvAsks(f);
      PosInvAsks(t);
    case Call(_, _, args) =>
      forall i | 0 <= i < |args|
        ensures IsPosInvExpr(args[i]) <==> !AsksPosition(args[i])
      {
        PosInvAsks(args[i]);
      }
    case Id(a) => PosInvAsks(a);
    case TranslateByTable(s, _) => PosInvAsks(s);
    case CompareAttribute(_, r) => PosInvAsks(r);
    case _ =>
  }

  lemma PredicateSimple(p: Predicate)
    requires Normal(Optimize(p.expr))
    ensures Simple(OptimizePredicate(p)) && Normal(OptimizePredicate(p).expr)
    ensures OptimizePredicate(p).cls == PosInv <==> OfNodeAlone(OptimizePredicate(p).expr)
  {
    hide Optimize;
    PosInvAsks(OptimizePredicate(p).expr);
  }

  predicate NormalParts(e: Expr) {
    match e
    case Equal(l, r) => Normal(l) && Normal(r)
    case Union(l, r) => Normal(l) && Normal(r)
    case TranslateFn(s, f, t) => Normal(s) && Normal(f) && Normal(t)
    case Call(_, _, args) => forall i :: 0 <= i < |args| ==> Normal(args[i])
    case Id(a) => Normal(a)
    case Step(input, _, _, ps) =>
      (input.Just? ==> Normal(input.value)) && forall i :: 0 <= i < |ps| ==> Normal(ps[i].expr) && Simple(ps[i])
    case Filter(l, p) => Normal(l) && Normal(p.expr) && Simple(p)
    case TranslateByTable(_, _) => false
    case CompareAttribute(_, _) => false
    case _ => true
  }

  /** Rewriting an expression whose parts are in normal form. */
  lemma SelfNormal(e: Expr)
    requires NormalParts(e)
    ensures Normal(OptimizeSelf(e))
  {
    if e.Step? {
      StepNormal(e);
    }
  }

  lemma StepNormal(e: Expr)
    requires e.Step? && (e.input.Just? ==> Normal(e.input.value))
    requires forall i :: 0 <= i < |e.predicates| ==> Normal(e.predicates[i].expr) && Simple(e.predicates[i])
    ensures Normal(OptimizeSelf(e))
  {
    hide AsksPosition, FixedNumber, PositionTest;
    forall i | 0 <= i < |e.predicates|
      ensures e.predicates[i].cls == PosInv <==> OfNodeAlone(e.predicates[i].expr)
    {
      OneClass(e.predicates[i]);
    }
  }

  lemma OneClass(p: Predicate)
    requires Classified(p)
    ensures p.cls == PosInv <==> OfNodeAlone(p.expr)
  {
  }

  /** The expression with its parts optimized. */
  function Rebuilt(e: Expr): Expr {
    match e
    case Equal(l, r) => Equal(Optimize(l), Optimize(r))
    case Union(l, r) => Union(Optimize(l), Optimize(r))
    case TranslateFn(s, f, t) => TranslateFn(Optimize(s), Optimize(f), Optimize(t))
    case Call(name, ty, args) => Call(name, ty, OptimizeArgs(args))
    case Id(a) => Id(Optimize(a))
    case Step(input, axis, test, ps) =>
      Step(if input.Just? then Just(Optimize(input.value)) else Nothing, axis, test, OptimizePredicates(ps))
    case Filter(l, p) => Filter(Optimize(l), OptimizePredicate(p))
    case _ => e
  }

  lemma OptimizeIs(e: Expr)
    ensures Optimize(e) == OptimizeSelf(Rebuilt(e))
  {
    hide OptimizeSelf;
  }

  lemma {:induction false} PartsNormal(e: Expr)
    requires Fresh(e)
    ensures NormalParts(Rebuilt(e))
    decreases e, 0
  {
    hide Normal, Optimize, OptimizePredicate, Simple;
    match e
    case Equal(l, r) =>
      OptimizeNormal(l);
      OptimizeNormal(r);
    case Union(l, r) =>
      OptimizeNormal(l);
      OptimizeNormal(r);
    case TranslateFn(s, f, t) =>
      OptimizeNormal(s);
      OptimizeNormal(f);
      OptimizeNormal(t);
    case Call(name, ty, args) =>
      forall i | 0 <= i < |args|
        ensures Normal(OptimizeArgs(args)[i])
      {
        OptimizeNormal(args[i]);
      }
    case Id(a) =>
      OptimizeNormal(a);
    case Step(input, axis, test, ps) =>
      if input.Just? {
        OptimizeNormal(input.value);
      }
      forall i | 0 <= i < |ps|
        ensures Normal(OptimizePredicates(ps)[i].expr) && Simple(OptimizePredicates(ps)[i])
      {
        OptimizeNormal(ps[i].expr);
        PredicateSimple(ps[i]);
      }
    case Filter(l, p) =>
      OptimizeNormal(l);
      OptimizeNormal(p.expr);
      PredicateSimple(p);
    case _ =>
  }

  /** The optimizer leaves nothing to rewrite. */
  lemma {:induction false} OptimizeNormal(e: Expr)
    requires Fresh(e)
    ensures Normal(Optimize(e))
    decreases e, 1
  {
    hide *;
    PartsNormal(e);
    OptimizeIs(e);
    SelfNormal(Rebuilt(e));
  }
}
