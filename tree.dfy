/** The formula tree as linked heap nodes, and `make_nnf` as it works on
    them: stage 1 edits binary nodes in place, stage 2 re-links the slot
    that holds a node to its replacement. Each node's ghost `Model` is the
    formula it denotes and its ghost `Repr` the nodes it owns. */
module Tree {
  import opened Formula
  import Nnf

  datatype NodeKind = ConstNode | PredNode | NegNode | BinNode

  /** The number of implications and biconditionals in a formula. */
  function ImplCount(e: Expr): nat
  {
    match e
    case Const(_) => 0
    case Pred(_) => 0
    case Not(x) => ImplCount(x)
    case Bin(l, r, op) => ImplCount(l) + ImplCount(r) + (if op == Impl || op == BiImpl then 1 else 0)
  }

  function Size(e: Expr): nat
  {
    match e
    case Const(_) => 1
    case Pred(_) => 1
    case Not(x) => Size(x) + 1
    case Bin(l, r, _) => Size(l) + Size(r) + 1
  }

  class Node {
    var kind: NodeKind
    var value: bool
    var name: string
    var op: Op
    /** The operand of a negation, or the left operand of a binary node. */
    var lhs: Node?
    var rhs: Node?
    /** The non-owning back-reference to the node that holds this one. */
    var parent: Node?

    ghost var Model: Expr
    ghost var Repr: set<Node>

    /** The node owns a tree: children are owned exclusively (no sharing,
        no cycle), and `Model` is the formula the tree spells. */
    ghost predicate Valid()
      reads this, Repr
      decreases Repr
    {
      this in Repr &&
      match kind
      case ConstNode => Repr == {this} && Model == Const(value)
      case PredNode => Repr == {this} && Model == Pred(name)
      case NegNode =>
        lhs != null && lhs in Repr && Repr == {this} + lhs.Repr && this !in lhs.Repr &&
        lhs.Valid() && Model == Not(lhs.Model)
      case BinNode =>
        lhs != null && rhs != null && lhs in Repr && rhs in Repr &&
        Repr == {this} + lhs.Repr + rhs.Repr &&
        this !in lhs.Repr && this !in rhs.Repr && lhs.Repr !! rhs.Repr &&
        lhs.Valid() && rhs.Valid() && Model == Bin(lhs.Model, rhs.Model, op)
    }

    constructor Constant(value: bool)
      ensures Valid() && fresh(Repr) && Model == Const(value) && parent == null
    {
      kind, this.value, name, op, lhs, rhs, parent := ConstNode, value, "", And, null, null, null;
      Model, Repr := Const(value), {this};
    }

    constructor Predicate(name: string)
      ensures Valid() && fresh(Repr) && Model == Pred(name) && parent == null
    {
      kind, value, this.name, op, lhs, rhs, parent := PredNode, false, name, And, null, null, null;
      Model, Repr := Pred(name), {this};
    }

    /** `NegExpression(child, parent)`. */
    constructor Neg(child: Node, parent: Node?)
      requires child.Valid()
      ensures Valid() && Model == Not(child.Model) && Repr == {this} + child.Repr
      ensures lhs == child && this.parent == parent
    {
      kind, value, name, op, lhs, rhs, this.parent := NegNode, false, "", And, child, null, parent;
      Model, Repr := Not(child.Model), {this} + child.Repr;
    }

    /** `BinaryExpression(lhs, rhs, op, parent)`. */
    constructor Binary(lhs: Node, rhs: Node, op: Op, parent: Node?)
      requires lhs.Valid() && rhs.Valid() && lhs.Repr !! rhs.Repr
      ensures Valid() && Model == Bin(lhs.Model, rhs.Model, op) && Repr == {this} + lhs.Repr + rhs.Repr
      ensures this.lhs == lhs && this.rhs == rhs && this.parent == parent
    {
      kind, value, name, this.op, this.lhs, this.rhs, this.parent := BinNode, false, "", op, lhs, rhs, parent;
      Model, Repr := Bin(lhs.Model, rhs.Model, op), {this} + lhs.Repr + rhs.Repr;
    }

    /** The formula the tree spells, read off the nodes. */
    function ToExpr(): (e: Expr)
      reads this, Repr
      requires Valid()
      ensures e == Model
      decreases Repr
    {
      if kind == ConstNode then Const(value)
      else if kind == PredNode then Pred(name)
      else if kind == NegNode then Not(lhs.ToExpr())
      else Bin(lhs.ToExpr(), rhs.ToExpr(), op)
    }

    /** `deepcopy`: an independent tree denoting the same formula, made of
        new nodes only, with no parent set. */
    method DeepCopy() returns (c: Node)
      requires Valid()
      ensures c.Valid() && fresh(c.Repr) && c.Model == Model && c.parent == null
      decreases Repr
    {
      if kind == ConstNode {
        c := new Node.Constant(value);
      } else if kind == PredNode {
        c := new Node.Predicate(name);
      } else if kind == NegNode {
        var x := lhs.DeepCopy();
        c := new Node.Neg(x, null);
      } else {
        var l := lhs.DeepCopy();
        var r := rhs.DeepCopy();
        c := new Node.Binary(l, r, op, null);
      }
    }

    /** Re-links a binary node to new operands and a new connective. */
    method Relink(l: Node, r: Node, o: Op)
      requires kind == BinNode && l.Valid() && r.Valid() && l.Repr !! r.Repr
      requires this !in l.Repr && this !in r.Repr
      modifies this
      ensures Valid() && kind == BinNode && lhs == l && rhs == r && op == o
      ensures Model == Bin(l.Model, r.Model, o) && Repr == {this} + l.Repr + r.Repr
      ensures parent == old(parent)
    {
      lhs, rhs, op := l, r, o;
      Model, Repr := Bin(l.Model, r.Model, o), {this} + l.Repr + r.Repr;
      assert l.Valid() && r.Valid();
    }

    /** The `implremover` edit of an implication node: it becomes a
        disjunction whose left operand is a new negation of the old left
        operand. */
    method RewriteImpl()
      requires Valid() && kind == BinNode && op == Impl
      modifies this
      ensures Valid() && kind == BinNode && Model == RewriteTop(old(Model))
      ensures fresh(Repr - old(Repr)) && parent == old(parent)
    {
      var nota := new Node.Neg(lhs, this);
      Relink(nota, rhs, Or);
    }

    /** The `implremover` edit of a biconditional node: it becomes the
        conjunction of `!a || b`, over the old operands, and `!b' || a'`,
        over deep copies of them. */
    method RewriteBiImpl()
      requires Valid() && kind == BinNode && op == BiImpl
      modifies this
      ensures Valid() && kind == BinNode && Model == RewriteTop(old(Model))
      ensures fresh(Repr - old(Repr)) && parent == old(parent)
    {
      var a, b := lhs, rhs;
      var left := NegatedDisjunction(a, b, this);
      var right := CopiedDisjunction(a, b, this);
      Relink(left, right, And);
    }

    /** Stage 1, the `implremover` visit: the node is edited first, then
        the visit descends into the children of the edited node, so the
        new negations and the copies are visited too. */
    method RemoveImplications()
      requires Valid()
      modifies Repr
      ensures Valid() && Model == Nnf.RemoveImpl(old(Model))
      ensures fresh(Repr - old(Repr)) && parent == old(parent)
      decreases ImplCount(Model), Size(Model), 1
    {
      if kind == BinNode {
        ghost var m := Model;
        RewriteTopSpec(m);
        if op == Impl {
          RewriteImpl();
        } else if op == BiImpl {
          RewriteBiImpl();
        }
        Descend(m);
      } else if kind == NegNode {
        lhs.RemoveImplications();
        Model, Repr := Not(lhs.Model), {this} + lhs.Repr;
      }
    }

    /** The descent of stage 1 into both children of an edited binary node
        whose unedited form was `e`. */
    method Descend(ghost e: Expr)
      requires Valid() && kind == BinNode && e.Bin? && Model == RewriteTop(e)
      requires ImplCount(lhs.Model) < ImplCount(e) || (ImplCount(lhs.Model) == ImplCount(e) && Size(lhs.Model) < Size(e))
      requires ImplCount(rhs.Model) < ImplCount(e) || (ImplCount(rhs.Model) == ImplCount(e) && Size(rhs.Model) < Size(e))
      modifies Repr
      ensures Valid() && Model == Bin(Nnf.RemoveImpl(old(lhs.Model)), Nnf.RemoveImpl(old(rhs.Model)), old(op))
      ensures fresh(Repr - old(Repr)) && parent == old(parent)
      decreases ImplCount(e), Size(e), 0
    {
      var l, r := lhs, rhs;
      l.RemoveImplications();
      r.RemoveImplications();
      Relink(l, r, op);
    }
  }

  /** A new disjunction `!a || b` over a new negation of `a`, both nodes
      having `parent` as their parent. */
  method NegatedDisjunction(a: Node, b: Node, parent: Node?) returns (d: Node)
    requires a.Valid() && b.Valid() && a.Repr !! b.Repr
    ensures d.Valid() && d.Model == Bin(Not(a.Model), b.Model, Or)
    ensures fresh(d) && fresh(d.lhs) && d.Repr == {d, d.lhs} + a.Repr + b.Repr
  {
    var nota := new Node.Neg(a, parent);
    d := new Node.Binary(nota, b, Or, parent);
  }

  /** A new disjunction `!b' || a'` over deep copies `a'` of `a` and `b'`
      of `b`: every node of it is new. */
  method CopiedDisjunction(a: Node, b: Node, parent: Node?) returns (d: Node)
    requires a.Valid() && b.Valid()
    ensures d.Valid() && d.Model == Bin(Not(b.Model), a.Model, Or) && fresh(d.Repr)
  {
    var a2 := a.DeepCopy();
    var b2 := b.DeepCopy();
    var notb := new Node.Neg(b2, parent);
    d := new Node.Binary(notb, a2, Or, parent);
  }

  /** The edit `implremover` makes to a single binary node, before it
      descends into the node's (new) children. */
  function RewriteTop(e: Expr): Expr
  {
    match e
    case Bin(a, b, Impl) => Bin(Not(a), b, Or)
    case Bin(a, b, BiImpl) => Bin(Bin(Not(a), b, Or), Bin(Not(b), a, Or), And)
    case _ => e
  }

  /** Editing a binary node and then rewriting its new children is stage 1
      on the node, and each new child has fewer implications than the node
      had, or as many and fewer nodes. */
  lemma RewriteTopSpec(e: Expr)
    requires e.Bin?
    ensures RewriteTop(e).Bin? && RewriteTop(e).op != Impl && RewriteTop(e).op != BiImpl
    ensures e.op != Impl && e.op != BiImpl ==> RewriteTop(e) == e
    ensures Nnf.RemoveImpl(e) ==
      Bin(Nnf.RemoveImpl(RewriteTop(e).lhs), Nnf.RemoveImpl(RewriteTop(e).rhs), RewriteTop(e).op)
    ensures ImplCount(RewriteTop(e).lhs) < ImplCount(e) ||
      (ImplCount(RewriteTop(e).lhs) == ImplCount(e) && Size(RewriteTop(e).lhs) < Size(e))
    ensures ImplCount(RewriteTop(e).rhs) < ImplCount(e) ||
      (ImplCount(RewriteTop(e).rhs) == ImplCount(e) && Size(RewriteTop(e).rhs) < Size(e))
  {
  }

  /** Stage 2, the `nnf` visit, on an implication-free tree. The slot that
      held `input` is to hold `output`, which takes over `input`'s parent. */
  method Push(input: Node) returns (output: Node)
    requires input.Valid() && ImplFree(input.Model)
    modifies input.Repr
    ensures output.Valid() && output.Model == Nnf.Push(old(input.Model))
    ensures fresh(output.Repr - old(input.Repr))
    ensures output.parent == old(input.parent)
    ensures IsLeaf(old(input.Model)) || old(input.Model).Bin? ==> output == input
    decreases 0, Nnf.Weight(input.Model), 1
  {
    if input.kind == BinNode {
      NormaliseOperands(input);
      output := input;
    } else if input.kind == NegNode && input.lhs.kind == NegNode {
      output := EliminateDoubleNegation(input);
    } else if input.kind == NegNode && input.lhs.kind == BinNode && (input.lhs.op == And || input.lhs.op == Or) {
      output := DeMorgan(input);
    } else {
      output := input;
    }
  }

  /** A binary node stays in place; its operand slots are re-linked to the
      results of `make_nnf` on the operands. */
  method NormaliseOperands(input: Node)
    requires input.Valid() && input.kind == BinNode && ImplFree(input.Model)
    modifies input.Repr
    ensures input.Valid() && input.Model == Nnf.Push(old(input.Model))
    ensures fresh(input.Repr - old(input.Repr)) && input.parent == old(input.parent)
    decreases 0, Nnf.Weight(input.Model), 0
  {
    var a := input.lhs;
    var b := input.rhs;
    Nnf.NestedMakeNnf(a.Model);
    Nnf.NestedMakeNnf(b.Model);
    a := MakeNnf(a);
    b := MakeNnf(b);
    input.Relink(a, b, input.op);
  }

  /** A double negation yields its inner operand, normalised, which takes
      over the parent of the outer negation. */
  method EliminateDoubleNegation(input: Node) returns (output: Node)
    requires input.Valid() && input.kind == NegNode && input.lhs.kind == NegNode
    requires ImplFree(input.Model)
    modifies input.Repr
    ensures output.Valid() && output.Model == Nnf.Push(old(input.Model))
    ensures fresh(output.Repr - old(input.Repr)) && output.parent == old(input.parent)
    ensures old(input.lhs.lhs) != null && IsLeaf(old(input.lhs.lhs.Model)) ==> output == old(input.lhs.lhs)
    decreases 0, Nnf.Weight(input.Model), 0
  {
    var e := input.lhs.lhs;
    assert Nnf.Weight(input.lhs.Model) == 2 * Nnf.Weight(e.Model);
    Nnf.NestedMakeNnf(e.Model);
    e := MakeNnf(e);
    e.parent := input.parent;
    output := e;
  }

  /** A negated conjunction (disjunction) yields a new disjunction
      (conjunction) of new negations of the old operands, which takes over
      the parent of the negation and is normalised in turn. */
  method DeMorgan(input: Node) returns (output: Node)
    requires input.Valid() && input.kind == NegNode && input.lhs.kind == BinNode
    requires input.lhs.op == And || input.lhs.op == Or
    requires ImplFree(input.Model)
    modifies input.Repr
    ensures output.Valid() && output.Model == Nnf.Push(old(input.Model))
    ensures fresh(output.Repr - old(input.Repr)) && output.parent == old(input.parent)
    decreases 0, Nnf.Weight(input.Model), 0
  {
    var x := input.lhs;
    var dual := if x.op == And then Or else And;
    Nnf.WeightDeMorgan(x.lhs.Model, x.rhs.Model, x.op, dual);
    assert x.Valid() && x.lhs.Repr + x.rhs.Repr <= input.Repr;
    var n := NegatedDual(x.lhs, x.rhs, dual, input.parent);
    assert fresh(n.Repr - input.Repr);
    Nnf.NestedMakeNnf(n.Model);
    output := MakeNnf(n);
  }

  /** A new node `!b op !c` over new negations of `b` and `c`, its parent
      being `parent`. */
  method NegatedDual(b: Node, c: Node, op: Op, parent: Node?) returns (n: Node)
    requires b.Valid() && c.Valid() && b.Repr !! c.Repr
    ensures n.Valid() && n.Model == Bin(Not(b.Model), Not(c.Model), op) && n.parent == parent
    ensures fresh(n) && fresh(n.lhs) && fresh(n.rhs) && n.Repr == {n, n.lhs, n.rhs} + b.Repr + c.Repr
  {
    var notb := new Node.Neg(b, null);
    var notc := new Node.Neg(c, null);
    n := new Node.Binary(notb, notc, op, parent);
  }

  /** `make_nnf` on the tree held by a slot: stage 1 over the whole tree,
      then stage 2; the slot is re-linked to the returned node. */
  method MakeNnf(input: Node) returns (output: Node)
    requires input.Valid()
    modifies input.Repr
    ensures output.Valid() && output.Model == Nnf.MakeNnf(old(input.Model))
    ensures fresh(output.Repr - old(input.Repr))
    ensures output.parent == old(input.parent)
    ensures IsLeaf(old(input.Model)) || old(input.Model).Bin? ==> output == input
    decreases if ImplFree(input.Model) then 0 else 1, Nnf.Weight(input.Model), 2
  {
    ghost var m := input.Model;
    if ImplFree(m) {
      Nnf.RemoveImplIdentity(m);
    }
    input.RemoveImplications();
    output := Push(input);
  }
}
