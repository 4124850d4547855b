/** The expression tree of propositional formulas and its evaluation under a
    context that maps predicate names to truth values. */
module Formula {

  /** The binary connectives of a `BinaryExpression`. */
  datatype Op = And | Or | Impl | BiImpl

  /** A formula node: a truth constant, a predicate reference, a negation
      with one operand, or a binary connective with a left and a right operand. */
  datatype Expr =
    | Const(value: bool)
    | Pred(name: string)
    | Not(operand: Expr)
    | Bin(lhs: Expr, rhs: Expr, op: Op)

  /** The evaluation context: predicate name to truth value. */
  type Context = map<string, bool>

  /** Reading a predicate that the context does not hold yields false, as a
      defaulting map lookup does. */
  function Lookup(ctx: Context, name: string): bool
  {
    if name in ctx then ctx[name] else false
  }

  /** The two-valued reading of a formula. */
  function Eval(e: Expr, ctx: Context): bool
  {
    match e
    case Const(v) => v
    case Pred(n) => Lookup(ctx, n)
    case Not(x) => !Eval(x, ctx)
    case Bin(l, r, op) =>
      match op
      case And => Eval(l, ctx) && Eval(r, ctx)
      case Or => Eval(l, ctx) || Eval(r, ctx)
      case Impl => !Eval(l, ctx) || Eval(r, ctx)
      case BiImpl => Eval(l, ctx) == Eval(r, ctx)
  }

  /** The predicate names of a formula in left-to-right order, duplicates kept. */
  function Atoms(e: Expr): seq<string>
  {
    match e
    case Const(_) => []
    case Pred(n) => [n]
    case Not(x) => Atoms(x)
    case Bin(l, r, _) => Atoms(l) + Atoms(r)
  }

  /** The immediate sub-expressions of a node, left to right. */
  function Childs(e: Expr): (cs: seq<Expr>)
    ensures |cs| == match e case Const(_) => 0 case Pred(_) => 0 case Not(_) => 1 case Bin(_, _, _) => 2
    ensures forall c :: c in cs ==> c < e
  {
    match e
    case Const(_) => []
    case Pred(_) => []
    case Not(x) => [x]
    case Bin(l, r, _) => [l, r]
  }

  /** No implication or biconditional anywhere in the tree. */
  predicate ImplFree(e: Expr)
  {
    match e
    case Const(_) => true
    case Pred(_) => true
    case Not(x) => ImplFree(x)
    case Bin(l, r, op) => (op == And || op == Or) && ImplFree(l) && ImplFree(r)
  }

  predicate IsLeaf(e: Expr)
  {
    e.Const? || e.Pred?
  }

  /** Negation Normal Form: only And and Or as connectives, and every
      negation directly above a constant or a predicate. */
  predicate IsNnf(e: Expr)
  {
    match e
    case Const(_) => true
    case Pred(_) => true
    case Not(x) => IsLeaf(x)
    case Bin(l, r, op) => (op == And || op == Or) && IsNnf(l) && IsNnf(r)
  }

  lemma {:induction false} NnfIsImplFree(e: Expr)
    requires IsNnf(e)
    ensures ImplFree(e)
  {
    match e
    case Const(_) =>
    case Pred(_) =>
    case Not(x) =>
    case Bin(l, r, _) =>
      NnfIsImplFree(l);
      NnfIsImplFree(r);
  }

  /** A formula's value depends only on the values of its own atoms. */
  lemma {:induction false} EvalDependsOnlyOnAtoms(e: Expr, c1: Context, c2: Context)
    requires forall n :: n in Atoms(e) ==> Lookup(c1, n) == Lookup(c2, n)
    ensures Eval(e, c1) == Eval(e, c2)
  {
    match e
    case Const(_) =>
    case Pred(_) =>
    case Not(x) =>
      EvalDependsOnlyOnAtoms(x, c1, c2);
    case Bin(l, r, _) =>
      EvalDependsOnlyOnAtoms(l, c1, c2);
      EvalDependsOnlyOnAtoms(r, c1, c2);
  }
}
