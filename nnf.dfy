/** The two-stage rewrite of `make_nnf`: stage 1 eliminates implications and
    biconditionals, stage 2 pushes negations down to the leaves. */
module Nnf {
  import opened Formula

  /** Stage 1, the `implremover` pass. A binary node is rewritten first and
      the pass then descends into the children of the rewritten node, so
      the operands (and the copies made of them) are rewritten too. */
  function RemoveImpl(e: Expr): (r: Expr)
    ensures ImplFree(r)
  {
    match e
    case Const(_) => e
    case Pred(_) => e
    case Not(x) => Not(RemoveImpl(x))
    case Bin(a, b, op) =>
      match op
      case Impl => Bin(Not(RemoveImpl(a)), RemoveImpl(b), Or)
      // the second disjunct is built from deep copies of a and b, which as
      // values are equal to the originals
      case BiImpl =>
        var a', b' := RemoveImpl(a), RemoveImpl(b);
        assert ImplFree(Bin(Not(a'), b', Or)) && ImplFree(Bin(Not(b'), a', Or));
        Bin(Bin(Not(a'), b', Or), Bin(Not(b'), a', Or), And)
      case _ => Bin(RemoveImpl(a), RemoveImpl(b), op)
  }

  /** A termination measure for stage 2: a negation doubles the weight of
      its operand, so a De Morgan step (one negation over a binary node
      replaced by two negations under it) makes the tree lighter. */
  function Weight(e: Expr): (w: nat)
    ensures w >= 1
  {
    match e
    case Const(_) => 1
    case Pred(_) => 1
    case Not(x) => 2 * Weight(x)
    case Bin(l, r, _) => Weight(l) + Weight(r) + 1
  }

  /** Stage 2, the `nnf` pass. A binary node keeps its connective and its
      operands are normalised; a double negation is replaced by its inner
      operand, normalised; a negated conjunction or disjunction is replaced
      by the De Morgan dual over the negated operands, which is normalised
      in turn. A negation over anything else (a leaf, or an implication
      that stage 1 has already removed) is left as it is. */
  function Push(e: Expr): Expr
    decreases Weight(e)
  {
    match e
    case Const(_) => e
    case Pred(_) => e
    case Bin(l, r, op) => Bin(Push(l), Push(r), op)
    case Not(x) =>
      match x
      case Not(y) =>
        assert Weight(x) == 2 * Weight(y);
        Push(y)
      case Bin(b, c, And) =>
        assert Weight(Bin(Not(b), Not(c), Or)) < Weight(e) by { WeightDeMorgan(b, c, And, Or); }
        Push(Bin(Not(b), Not(c), Or))
      case Bin(b, c, Or) =>
        assert Weight(Bin(Not(b), Not(c), And)) < Weight(e) by { WeightDeMorgan(b, c, Or, And); }
        Push(Bin(Not(b), Not(c), And))
      case _ => e
  }

  /** A De Morgan step of stage 2 sheds weight: the dual node over the
      negated operands weighs less than the negated node. */
  lemma WeightDeMorgan(b: Expr, c: Expr, op: Op, dual: Op)
    ensures Weight(Bin(Not(b), Not(c), dual)) < Weight(Not(Bin(b, c, op)))
  {
    assert Weight(Not(Bin(b, c, op))) == 2 * Weight(Bin(b, c, op));
  }

  /** `make_nnf`: stage 1 over the whole tree, then stage 2. */
  function MakeNnf(e: Expr): Expr
  {
    Push(RemoveImpl(e))
  }

  // ---------------------------------------------------------------------
  // Stage 1

  /** Stage 1 preserves the value of the formula in every context. */
  lemma {:induction false} RemoveImplEval(e: Expr, ctx: Context)
    ensures Eval(RemoveImpl(e), ctx) == Eval(e, ctx)
  {
    match e
    case Const(_) =>
    case Pred(_) =>
    case Not(x) =>
      RemoveImplEval(x, ctx);
    case Bin(a, b, op) =>
      RemoveImplEval(a, ctx);
      RemoveImplEval(b, ctx);
      match op
      case Impl =>
      case BiImpl =>
        var a', b' := RemoveImpl(a), RemoveImpl(b);
        var d1, d2 := Bin(Not(a'), b', Or), Bin(Not(b'), a', Or);
        assert RemoveImpl(e) == Bin(d1, d2, And);
        assert Eval(d1, ctx) == (!Eval(a, ctx) || Eval(b, ctx));
        assert Eval(d2, ctx) == (!Eval(b, ctx) || Eval(a, ctx));
      case _ =>
  }

  /** Stage 1 changes nothing in a tree that has no implication left; this
      is why the recursive `make_nnf` calls that stage 2 makes on subtrees
      of an already rewritten tree amount to stage 2 alone. */
  lemma {:induction false} RemoveImplIdentity(e: Expr)
    requires ImplFree(e)
    ensures RemoveImpl(e) == e
  {
    match e
    case Const(_) =>
    case Pred(_) =>
    case Not(x) =>
      RemoveImplIdentity(x);
    case Bin(a, b, _) =>
      RemoveImplIdentity(a);
      RemoveImplIdentity(b);
  }

  /** Stage 1 keeps the set of predicate names (a biconditional repeats
      its operands' atoms, but adds none). */
  lemma {:induction false} RemoveImplAtoms(e: Expr)
    ensures forall n :: n in Atoms(RemoveImpl(e)) <==> n in Atoms(e)
  {
    match e
    case Const(_) =>
    case Pred(_) =>
    case Not(x) =>
      RemoveImplAtoms(x);
    case Bin(a, b, op) =>
      RemoveImplAtoms(a);
      RemoveImplAtoms(b);
      match op
      case Impl =>
      case BiImpl =>
        var a', b' := RemoveImpl(a), RemoveImpl(b);
        var d1, d2 := Bin(Not(a'), b', Or), Bin(Not(b'), a', Or);
        assert RemoveImpl(e) == Bin(d1, d2, And);
        assert Atoms(d1) == Atoms(a') + Atoms(b');
        assert Atoms(d2) == Atoms(b') + Atoms(a');
      case _ =>
  }

  // ---------------------------------------------------------------------
  // Stage 2

  /** On an implication-free tree, stage 2 yields Negation Normal Form. */
  lemma {:induction false} PushIsNnf(e: Expr)
    requires ImplFree(e)
    ensures IsNnf(Push(e))
    decreases Weight(e)
  {
    match e
    case Const(_) =>
    case Pred(_) =>
    case Bin(l, r, _) =>
      PushIsNnf(l);
      PushIsNnf(r);
    case Not(x) =>
      match x
      case Not(y) =>
        assert Weight(x) == 2 * Weight(y);
        PushIsNnf(y);
      case Bin(b, c, And) =>
        WeightDeMorgan(b, c, And, Or);
        PushIsNnf(Bin(Not(b), Not(c), Or));
      case Bin(b, c, Or) =>
        WeightDeMorgan(b, c, Or, And);
        PushIsNnf(Bin(Not(b), Not(c), And));
      case _ =>
  }

  /** Stage 2 preserves the value of the formula in every context. */
  lemma {:induction false} PushEval(e: Expr, ctx: Context)
    ensures Eval(Push(e), ctx) == Eval(e, ctx)
    decreases Weight(e)
  {
    match e
    case Const(_) =>
    case Pred(_) =>
    case Bin(l, r, _) =>
      PushEval(l, ctx);
      PushEval(r, ctx);
    case Not(x) =>
      match x
      case Not(y) =>
        assert Weight(x) == 2 * Weight(y);
        PushEval(y, ctx);
      case Bin(b, c, And) =>
        WeightDeMorgan(b, c, And, Or);
        PushEval(Bin(Not(b), Not(c), Or), ctx);
      case Bin(b, c, Or) =>
        WeightDeMorgan(b, c, Or, And);
        PushEval(Bin(Not(b), Not(c), And), ctx);
      case _ =>
  }

  /** Stage 2 keeps the atoms in their order: the De Morgan rewrite keeps
      the former left operand first, and double-negation elimination only
      drops negations. */
  lemma {:induction false} PushAtoms(e: Expr)
    ensures Atoms(Push(e)) == Atoms(e)
    decreases Weight(e)
  {
    match e
    case Const(_) =>
    case Pred(_) =>
    case Bin(l, r, _) =>
      PushAtoms(l);
      PushAtoms(r);
    case Not(x) =>
      match x
      case Not(y) =>
        assert Weight(x) == 2 * Weight(y);
        PushAtoms(y);
      case Bin(b, c, And) =>
        WeightDeMorgan(b, c, And, Or);
        PushAtoms(Bin(Not(b), Not(c), Or));
      case Bin(b, c, Or) =>
        WeightDeMorgan(b, c, Or, And);
        PushAtoms(Bin(Not(b), Not(c), And));
      case _ =>
  }

  /** Stage 2 changes nothing in a tree that is already in NNF. */
  lemma {:induction false} PushIdentity(e: Expr)
    requires IsNnf(e)
    ensures Push(e) == e
  {
    match e
    case Const(_) =>
    case Pred(_) =>
    case Not(x) =>
    case Bin(l, r, _) =>
      PushIdentity(l);
      PushIdentity(r);
  }

  /** Double-negation elimination hands back the inner operand itself. */
  lemma {:induction false} DoubleNegation(e: Expr)
    requires IsNnf(e)
    ensures Push(Not(Not(e))) == e
  {
    PushIdentity(e);
  }

  // ---------------------------------------------------------------------
  // Both stages

  /** A recursive `make_nnf` call made by stage 2 on an implication-free
      subtree is stage 2 alone. */
  lemma NestedMakeNnf(e: Expr)
    requires ImplFree(e)
    ensures MakeNnf(e) == Push(e)
  {
    RemoveImplIdentity(e);
  }

  /** The result of `make_nnf` is in Negation Normal Form. */
  lemma MakeNnfIsNnf(e: Expr)
    ensures IsNnf(MakeNnf(e))
  {
    PushIsNnf(RemoveImpl(e));
  }

  /** `make_nnf` preserves the value of the formula in every context. */
  lemma MakeNnfEval(e: Expr, ctx: Context)
    ensures Eval(MakeNnf(e), ctx) == Eval(e, ctx)
  {
    RemoveImplEval(e, ctx);
    PushEval(RemoveImpl(e), ctx);
  }

  /** `make_nnf` keeps the set of predicate names. */
  lemma MakeNnfAtoms(e: Expr)
    ensures forall n :: n in Atoms(MakeNnf(e)) <==> n in Atoms(e)
  {
    RemoveImplAtoms(e);
    PushAtoms(RemoveImpl(e));
  }

  /** Running `make_nnf` on its own result changes nothing. */
  lemma MakeNnfIdempotent(e: Expr)
    ensures MakeNnf(MakeNnf(e)) == MakeNnf(e)
  {
    var n := MakeNnf(e);
    MakeNnfIsNnf(e);
    NnfIsImplFree(n);
    RemoveImplIdentity(n);
    PushIdentity(n);
  }

  /** `p -> q` becomes `!p || q`. */
  lemma ImplExample(p: string, q: string)
    ensures MakeNnf(Bin(Pred(p), Pred(q), Impl)) == Bin(Not(Pred(p)), Pred(q), Or)
  {
    assert RemoveImpl(Bin(Pred(p), Pred(q), Impl)) == Bin(Not(Pred(p)), Pred(q), Or);
    PushIdentity(Bin(Not(Pred(p)), Pred(q), Or));
  }
}
