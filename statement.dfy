/** Statements and their execution against an evaluation context: printing
    a formula's value, assigning a predicate, listing atoms, printing a
    truth table, and printing the NNF of a formula. */
module Statements {
  import opened Formula
  import opened Nnf
  import opened Cartesian
  import opened AtomColumns
  import Tree

  /** The mutable evaluation context shared by the statements of a run. */
  class EvaluationContext {
    var predicates: Context

    constructor ()
      ensures predicates == map[]
    {
      predicates := map[];
    }
  }

  // ---------------------------------------------------------------------
  // Assignment

  /** The context after `Set p e`: `p` holds the value `e` had before the
      assignment, and every other name reads as it did. */
  function Assigned(ctx: Context, p: string, e: Expr): (r: Context)
    ensures r.Keys == ctx.Keys + {p}
    ensures Lookup(r, p) == Eval(e, ctx)
    ensures forall q :: q != p ==> Lookup(r, q) == Lookup(ctx, q)
  {
    ctx[p := Eval(e, ctx)]
  }

  // ---------------------------------------------------------------------
  // Truth tables

  /** No name occurs twice. */
  predicate Distinct(s: seq<string>)
  {
    forall i, j :: 0 <= i < j < |s| ==> s[i] != s[j]
  }

  lemma StrictlySortedDistinct(s: seq<string>)
    requires StrictlySorted(s)
    ensures Distinct(s)
  {
    forall i, j | 0 <= i < j < |s|
      ensures s[i] != s[j]
    {
      StrLessIrreflexive(s[i]);
    }
  }

  /** The context of one table row: the names of `cols` set, in order, to
      the values of `vals`, starting from an empty context. */
  function RowContext(cols: seq<string>, vals: seq<bool>): Context
    requires |cols| == |vals|
  {
    if cols == [] then map[]
    else RowContext(cols[..|cols| - 1], vals[..|vals| - 1])[cols[|cols| - 1] := vals[|vals| - 1]]
  }

  /** With distinct names, the row context maps the i-th name to the i-th
      value and holds no other entries. */
  lemma {:induction false} RowContextSpec(cols: seq<string>, vals: seq<bool>)
    requires |cols| == |vals| && Distinct(cols)
    ensures RowContext(cols, vals).Keys == set n | n in cols
    ensures forall i :: 0 <= i < |cols| ==> RowContext(cols, vals)[cols[i]] == vals[i]
  {
    if cols != [] {
      var n := |cols| - 1;
      RowContextSpec(cols[..n], vals[..n]);
      forall i | 0 <= i < n
        ensures RowContext(cols, vals)[cols[i]] == vals[i]
      {
        assert cols[..n][i] == cols[i] && vals[..n][i] == vals[i];
      }
      assert cols == cols[..n] + [cols[n]];
    }
  }

  /** One row of a truth table: the values of the atoms, of each immediate
      child of the formula, and of the formula itself. */
  datatype Row = Row(atomValues: seq<bool>, childValues: seq<bool>, value: bool)

  /** The row of formula `f` for the assignment `vals` to the columns `cols`. */
  function RowOf(f: Expr, cols: seq<string>, vals: seq<bool>): Row
    requires |cols| == |vals|
  {
    var ctx := RowContext(cols, vals);
    var cs := Childs(f);
    Row(vals, seq(|cs|, c requires 0 <= c < |cs| => Eval(cs[c], ctx)), Eval(f, ctx))
  }

  /** The boolean tuples enumerated for `n` columns. */
  function Assignments(n: nat): seq<seq<bool>>
  {
    Product(Copies(n, [false, true]))
  }

  lemma AssignmentWidth(n: nat, k: nat)
    requires k < |Assignments(n)|
    ensures |Assignments(n)[k]| == n
  {
    ProductIsTuple(Copies(n, [false, true]), k);
  }

  /** The data rows of the truth table of `f`, one per assignment. */
  function TableRows(f: Expr): seq<Row>
  {
    var cols := Columns(f);
    var p := Assignments(|cols|);
    seq(|p|, k requires 0 <= k < |p| => AssignmentWidth(|cols|, k); RowOf(f, cols, p[k]))
  }

  lemma TableRowsAt(f: Expr, k: nat)
    requires k < |Assignments(|Columns(f)|)|
    ensures |TableRows(f)| == |Assignments(|Columns(f)|)|
    ensures |Assignments(|Columns(f)|)[k]| == |Columns(f)|
    ensures TableRows(f)[k] == RowOf(f, Columns(f), Assignments(|Columns(f)|)[k])
  {
    AssignmentWidth(|Columns(f)|, k);
  }

  /** One data row of `PrintTable`: a fresh context is filled with the
      i-th column set to the i-th value of the tuple, then every immediate
      child and the formula itself are evaluated in it. */
  method EvalRow(f: Expr, atoms: seq<string>, ctuple: seq<bool>) returns (row: Row)
    requires |ctuple| == |atoms|
    ensures row == RowOf(f, atoms, ctuple)
  {
    var ec := new EvaluationContext();
    var counter := 0;
    while counter < |ctuple|
      invariant 0 <= counter <= |ctuple|
      invariant ec.predicates == RowContext(atoms[..counter], ctuple[..counter])
    {
      assert atoms[..counter + 1][..counter] == atoms[..counter];
      assert ctuple[..counter + 1][..counter] == ctuple[..counter];
      ec.predicates := ec.predicates[atoms[counter] := ctuple[counter]];
      counter := counter + 1;
    }
    assert atoms[..counter] == atoms && ctuple[..counter] == ctuple;
    var childs := Childs(f);
    ghost var ctx := ec.predicates;
    var childValues := [];
    var c := 0;
    while c < |childs|
      invariant 0 <= c <= |childs|
      invariant childValues == seq(c, i requires 0 <= i < c => Eval(childs[i], ctx))
    {
      childValues := childValues + [Eval(childs[c], ec.predicates)];
      c := c + 1;
    }
    row := Row(ctuple, childValues, Eval(f, ec.predicates));
  }

  /** `PrintTable` without its rendering: the sorted, deduplicated atoms
      are the columns, the product of one `[false, true]` per column gives
      the rows, and each row is evaluated in a fresh context that holds
      exactly that row's assignment. */
  method TruthTable(f: Expr) returns (atoms: seq<string>, rows: seq<Row>)
    ensures atoms == Columns(f) && rows == TableRows(f)
    ensures StrictlySorted(atoms) && forall n :: n in atoms <==> n in Atoms(f)
    ensures |rows| == Pow2(|atoms|)
  {
    atoms := Atoms(f);
    atoms := Sort(atoms);
    atoms := Unique(atoms);
    ColumnsSpec(f);
    var cproduct := CartesianProduct(Copies(|atoms|, [false, true]));
    BoolRowCount(|atoms|);
    rows := EvalRows(f, atoms, cproduct);
  }

  /** The row loop of `PrintTable`: one row per tuple of the product, in
      the product's order. */
  method EvalRows(f: Expr, atoms: seq<string>, cproduct: seq<seq<bool>>) returns (rows: seq<Row>)
    requires atoms == Columns(f) && cproduct == Assignments(|atoms|)
    ensures rows == TableRows(f)
  {
    ghost var table := TableRows(f);
    BoolRowCount(|atoms|);
    TableRowsAt(f, 0);
    rows := [];
    var k := 0;
    while k < |cproduct|
      invariant 0 <= k <= |cproduct|
      invariant rows == table[..k]
    {
      TableRowsAt(f, k);
      var row := EvalRow(f, atoms, cproduct[k]);
      assert table[..k + 1] == table[..k] + [row];
      rows := rows + [row];
      k := k + 1;
    }
    assert rows == table;
  }

  // ---------------------------------------------------------------------
  // What the truth table states

  /** Row `k` assigns to the i-th column bit `|cols| - 1 - i` of `k`: the
      rows count up in binary with the first column as the most
      significant digit. */
  lemma TableRowBits(f: Expr, k: nat, i: nat)
    requires k < |TableRows(f)| && i < |Columns(f)|
    ensures |TableRows(f)| == Pow2(|Columns(f)|)
    ensures |TableRows(f)[k].atomValues| == |Columns(f)|
    ensures TableRows(f)[k].atomValues[i] == Bit(k, |Columns(f)| - 1 - i)
  {
    var n := |Columns(f)|;
    BoolRowCount(n);
    TableRowsAt(f, k);
    BoolRowBits(n, k, i);
  }

  /** The values in a row are the values of the children and of the formula
      under every context that agrees with the row on the columns. */
  lemma TableRowSound(f: Expr, k: nat, ctx: Context)
    requires k < |TableRows(f)|
    requires |TableRows(f)[k].atomValues| == |Columns(f)|
    requires forall i :: 0 <= i < |Columns(f)| ==> Lookup(ctx, Columns(f)[i]) == TableRows(f)[k].atomValues[i]
    ensures TableRows(f)[k].value == Eval(f, ctx)
    ensures |TableRows(f)[k].childValues| == |Childs(f)|
    ensures forall c :: 0 <= c < |Childs(f)| ==> TableRows(f)[k].childValues[c] == Eval(Childs(f)[c], ctx)
  {
    var cols := Columns(f);
    TableRowsAt(f, k);
    var vals := Assignments(|cols|)[k];
    var rc := RowContext(cols, vals);
    ColumnsSpec(f);
    StrictlySortedDistinct(cols);
    RowContextSpec(cols, vals);
    AgreeOnColumns(f, cols, vals, ctx);
    forall c | 0 <= c < |Childs(f)|
      ensures Eval(Childs(f)[c], rc) == Eval(Childs(f)[c], ctx)
    {
      ChildAtomsIn(f, c);
      EvalDependsOnlyOnAtoms(Childs(f)[c], rc, ctx);
    }
    EvalDependsOnlyOnAtoms(f, rc, ctx);
  }

  lemma AgreeOnColumns(f: Expr, cols: seq<string>, vals: seq<bool>, ctx: Context)
    requires |cols| == |vals| && Distinct(cols)
    requires forall n :: n in cols <==> n in Atoms(f)
    requires forall i :: 0 <= i < |cols| ==> Lookup(ctx, cols[i]) == vals[i]
    ensures forall n :: n in Atoms(f) ==> Lookup(RowContext(cols, vals), n) == Lookup(ctx, n)
  {
    RowContextSpec(cols, vals);
    forall n | n in Atoms(f)
      ensures Lookup(RowContext(cols, vals), n) == Lookup(ctx, n)
    {
      var i :| 0 <= i < |cols| && cols[i] == n;
    }
  }

  lemma ChildAtomsIn(f: Expr, c: nat)
    requires c < |Childs(f)|
    ensures forall n :: n in Atoms(Childs(f)[c]) ==> n in Atoms(f)
  {
  }

  /** Every assignment of the formula's atoms has a row: for any context
      there is a row that agrees with it on the columns, and that row's
      value is the formula's value in the context. */
  lemma TableComplete(f: Expr, ctx: Context) returns (k: nat)
    ensures k < |TableRows(f)|
    ensures |TableRows(f)[k].atomValues| == |Columns(f)|
    ensures forall i :: 0 <= i < |Columns(f)| ==> TableRows(f)[k].atomValues[i] == Lookup(ctx, Columns(f)[i])
    ensures TableRows(f)[k].value == Eval(f, ctx)
  {
    var cols := Columns(f);
    var n := |cols|;
    var t := seq(n, i requires 0 <= i < n => Lookup(ctx, cols[i]));
    var input := Copies(n, [false, true]);
    assert IsTuple(t, input) by {
      forall i | 0 <= i < n
        ensures t[i] in input[i]
      {
        assert t[i] == false || t[i] == true;
      }
    }
    TupleInProduct(input, t);
    k :| 0 <= k < |Assignments(n)| && Assignments(n)[k] == t;
    TableRowsAt(f, k);
    TableRowSound(f, k, ctx);
  }

  /** The unused row count `2 ^ atoms.size()` as written: `^` is the
      exclusive or of the unsigned 64-bit size, not a power. */
  function RowCountAsWritten(atomCount: nat): nat
    requires atomCount < 0x1_0000_0000_0000_0000
  {
    ((2 as bv64) ^ (atomCount as bv64)) as nat
  }

  /** With three atoms the expression yields 1, while the table has 2^3 = 8
      rows; for no count up to three does it agree. */
  lemma RowCountAsWrittenDiffers()
    ensures RowCountAsWritten(3) == 1 && Pow2(3) == 8
    ensures forall n :: 0 <= n <= 3 ==> RowCountAsWritten(n) != Pow2(n)
  {
    assert RowCountAsWritten(0) == 2 && RowCountAsWritten(1) == 3;
    assert RowCountAsWritten(2) == 0 && RowCountAsWritten(3) == 1;
  }

  // ---------------------------------------------------------------------
  // Column widths of the rendered table

  /** The number of characters `printf` writes for a string of `len`
      characters under field width `field`: it pads up to the field width
      and never truncates. */
  function Padded(len: nat, field: nat): (w: nat)
    ensures w >= len && w >= field && (w == len || w == field)
  {
    if len < field then field else len
  }

  /** The spaces written after a child's header text by the loop that
      counts `i` down from `2 - count` while it is positive. */
  function HeaderPad(count: nat): nat
  {
    if count < 2 then 2 - count else 0
  }

  /** Header widths as `PrintTable` prints them: each atom name through
      `%2s`, each child's text followed by its pad, and the formula's own
      text with no pad. */
  function HeaderWidthsAsWritten(atomLengths: seq<nat>, childCounts: seq<nat>, rootCount: nat): seq<nat>
  {
    seq(|atomLengths|, i requires 0 <= i < |atomLengths| => Padded(atomLengths[i], 2))
      + seq(|childCounts|, i requires 0 <= i < |childCounts| => childCounts[i] + HeaderPad(childCounts[i]))
      + [rootCount]
  }

  /** Header widths with the formula's own text padded like a child's. */
  function HeaderWidths(atomLengths: seq<nat>, childCounts: seq<nat>, rootCount: nat): seq<nat>
  {
    HeaderWidthsAsWritten(atomLengths, childCounts, rootCount)[..|atomLengths| + |childCounts|]
      + [rootCount + HeaderPad(rootCount)]
  }

  /** Data-cell widths: each two-character value `tt` or `ff` is printed
      with `%*s` and its column's recorded width (the name length for an
      atom, the printed count for a child or for the formula). */
  function DataWidths(atomLengths: seq<nat>, childCounts: seq<nat>, rootCount: nat): seq<nat>
  {
    seq(|atomLengths|, i requires 0 <= i < |atomLengths| => Padded(2, atomLengths[i]))
      + seq(|childCounts|, i requires 0 <= i < |childCounts| => Padded(2, childCounts[i]))
      + [Padded(2, rootCount)]
  }

  /** With the formula's header padded, every header cell is exactly as wide
      as the data cells below it, one column per atom, per child and for
      the formula. */
  lemma HeaderAligned(atomLengths: seq<nat>, childCounts: seq<nat>, rootCount: nat)
    ensures |HeaderWidths(atomLengths, childCounts, rootCount)| == |atomLengths| + |childCounts| + 1
    ensures HeaderWidths(atomLengths, childCounts, rootCount) == DataWidths(atomLengths, childCounts, rootCount)
  {
    var h := HeaderWidths(atomLengths, childCounts, rootCount);
    var d := DataWidths(atomLengths, childCounts, rootCount);
    assert |h| == |d|;
    forall c | 0 <= c < |h|
      ensures h[c] == d[c]
    {
    }
  }

  /** As written, the formula's header cell is narrower than the data cells
      below it exactly when the formula prints in fewer than two
      characters, as a lone one-letter predicate `p` does; every other
      column lines up. */
  lemma RootHeaderMisaligned(atomLengths: seq<nat>, childCounts: seq<nat>, rootCount: nat)
    ensures var h := HeaderWidthsAsWritten(atomLengths, childCounts, rootCount);
            var d := DataWidths(atomLengths, childCounts, rootCount);
            |h| == |d| == |atomLengths| + |childCounts| + 1
            && (forall c :: 0 <= c < |h| - 1 ==> h[c] == d[c])
            && (h[|h| - 1] < d[|d| - 1] <==> rootCount < 2)
            && (h[|h| - 1] == d[|d| - 1] <==> rootCount >= 2)
  {
  }

  /** The formula `p` alone: its header cell is one character, its data
      cells `ff` and `tt` are two. */
  lemma OneLetterFormulaMisaligned()
    ensures HeaderWidthsAsWritten([1], [], 1) == [2, 1]
    ensures DataWidths([1], [], 1) == [2, 2]
    ensures HeaderWidths([1], [], 1) == [2, 2]
  {
  }

  // ---------------------------------------------------------------------
  // Statements

  /** The statement types; `Plain` is the source's `Expr` type, whose
      execution does nothing. */
  datatype Kind = Plain | Print | Set | PrintAtoms | PrintTable | PrintNnf

  /** What executing a statement reports, without its rendering. */
  datatype Report =
    | Silent
    | Value(holds: bool)
    | AtomList(atoms: seq<string>)
    | Table(columns: seq<string>, rows: seq<Row>)
    | Normalised(formula: Expr, holds: bool)

  /** A top-level statement owning the tree of its formula. */
  class Statement {
    var kind: Kind
    var pred: string
    var other: Tree.Node

    ghost predicate Valid()
      reads this, other, other.Repr
    {
      other.Valid()
    }

    /** A statement of the given type over a formula. */
    constructor (other: Tree.Node, kind: Kind)
      requires other.Valid()
      ensures Valid() && this.kind == kind && this.other == other && pred == ""
    {
      this.kind := kind;
      this.pred := "";
      this.other := other;
    }

    /** `Set pred other`. */
    constructor Assign(pred: string, other: Tree.Node)
      requires other.Valid()
      ensures Valid() && kind == Set && this.pred == pred && this.other == other
    {
      kind := Set;
      this.pred := pred;
      this.other := other;
    }

    /** `Statement::exec`. `Set` writes one entry of the shared context;
        `PrintNNF` rewrites the statement's own tree into NNF, in place,
        and reports the rewritten formula with its value, which is the
        value the formula had; the other statements only read. */
    method Exec(ec: EvaluationContext) returns (report: Report)
      requires Valid()
      modifies this`other, ec`predicates, other.Repr
      ensures Valid() && kind == old(kind) && pred == old(pred)
      ensures kind == PrintNnf ==>
        other.Model == MakeNnf(old(other.Model)) && fresh(other.Repr - old(other.Repr))
      ensures kind != PrintNnf ==> other == old(other) && unchanged(old(other.Repr))
      ensures ec.predicates ==
        if kind == Set then Assigned(old(ec.predicates), pred, old(other.Model)) else old(ec.predicates)
      ensures report == match kind
        case Plain => Silent
        case Set => Silent
        case Print => Value(Eval(other.Model, ec.predicates))
        case PrintAtoms => AtomList(Atoms(other.Model))
        case PrintTable => Table(Columns(other.Model), TableRows(other.Model))
        case PrintNnf => Normalised(MakeNnf(old(other.Model)), Eval(old(other.Model), ec.predicates))
    {
      match kind
      case Print =>
        report := Value(Eval(other.ToExpr(), ec.predicates));
      case Set =>
        ec.predicates := ec.predicates[pred := Eval(other.ToExpr(), ec.predicates)];
        report := Silent;
      case PrintAtoms =>
        report := AtomList(Atoms(other.ToExpr()));
      case PrintTable =>
        var atoms, rows := TruthTable(other.ToExpr());
        report := Table(atoms, rows);
      case PrintNnf =>
        MakeNnfEval(other.Model, ec.predicates);
        other := Tree.MakeNnf(other);
        var f := other.ToExpr();
        report := Normalised(f, Eval(f, ec.predicates));
      case Plain =>
        report := Silent;
    }
  }
}
