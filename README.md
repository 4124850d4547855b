# SATSolver core in Dafny

A model of the core of SATSolver (`ast.cpp`), a small propositional-logic tool. The tool runs a list of statements against a shared evaluation context. The statements:

- print a formula's value;
- assign a predicate;
- list a formula's atoms;
- print a truth table;
- print a formula's Negation Normal Form (NNF).

The model covers three parts of `ast.cpp`:

- **`cartesian`** is the list-of-lists Cartesian product (`cartesian.dfy`). It is an imperative method with three nested loops. The method is proved equal to a pure `Product`. Lemmas about `Product` give:
  - its length;
  - its membership: exactly the tuples of the lists;
  - its order: the last list varies fastest, so the truth-table rows count up in binary.
- **`make_nnf`** rewrites a formula into NNF. It is modelled twice:
  - `nnf.dfy` gives the rewrite as pure functions on a formula value. Stage 1 (`implremover`) removes implications and biconditionals. Stage 2 (`nnf`) pushes negations to the leaves. The lemmas about these functions are the properties of the rewrite: the result is in NNF; the value is kept in every context; the atoms are kept; the rewrite is idempotent.
  - `tree.dfy` gives the rewrite as the source performs it, on linked heap nodes. Stage 1 edits binary nodes in place and then descends into their new children. Stage 2 re-links the slot that held a node to its replacement, and the replacement takes over the replaced node's parent. Every method is proved to leave a well-formed tree that denotes the pure function's result.
- **`Statement::exec`** is in `statement.dfy`, with the column list in `columns.dfy`.
  - The column list is the atoms, sorted with `std::string` ordering and stripped of adjacent duplicates.
  - `PrintTable` is modelled without its rendering. It yields the columns and, per row, the atom values, the child values and the formula value. It is proved sound and complete against `Eval`.
  - The column widths of the rendered table are modelled separately, to show a misalignment; see Findings.
  - `Set` writes one entry of the context.
  - `PrintNNF` runs the in-place `make_nnf` on the statement's own tree.

`formula.dfy` holds the formula datatype, `Eval`, `Atoms` and `Childs`.

- The `Expression` class hierarchy (`eval`, `atoms`, `childs`, `print`, `deepcopy`, `update_parents`) is not part of the files of this model. They are modelled by the usual two-valued semantics of propositional formulas.
- A predicate the context does not hold evaluates to false.
- `atoms` lists the names left to right, with repetitions.

A biconditional `a <-> b` becomes `(!a || b) && (!b' || a')`, where `a'` and `b'` are deep copies (ast.cpp:169-177).

## Model

| member | source | states |
|---|---|---|
| Cartesian.Product | ast.cpp:5-21 | the product built list by list, the last list varying fastest; no contract of its own: `ProductLength`, `ProductMembers`, `ProductIsTuple`, `TupleInProduct`, `ExtendAt`, `BoolRowCount` and `BoolRowBits` state its properties, and `CartesianProduct` is proved equal to it |
| Cartesian.CartesianProduct | ast.cpp:5-21 | the loops build exactly `Product(input)`: starting from one empty tuple, each round extends every tuple built so far, in order, by every element of the next list, in order |
| Cartesian.ProductLength | ast.cpp:5-21 | the product has as many tuples as the product of the list lengths (one empty tuple for no lists) |
| Cartesian.ProductMembers | ast.cpp:5-21 | a sequence is in the product if and only if it has one element per list, the i-th drawn from the i-th list |
| Cartesian.ProductIsTuple | ast.cpp:10-18 | every tuple of the product draws its i-th element from the i-th list |
| Cartesian.TupleInProduct | ast.cpp:10-18 | every such tuple occurs in the product |
| Cartesian.ExtendAt | ast.cpp:12-16 | for a new list of length `n`, position `k` of a round is tuple `k / n` of the previous round extended by element `k % n` of the new list, so the last list varies fastest |
| Cartesian.BoolRowCount | ast.cpp:91-94 | the product of `n` copies of `{false, true}` has `2^n` rows |
| Cartesian.BoolRowBits | ast.cpp:91-94 | row `k` of that product is `k` written in binary, the first column being the most significant digit |
| Cartesian.HalfBit | ast.cpp:91-94 | helper of `BoolRowBits`: bit `j` of `k / 2` is bit `j + 1` of `k` (the step from one column to the next) |
| AtomColumns.StrLessTotal | ast.cpp:87 | the string order used by `sort` orders any two different strings one way and never both ways |
| AtomColumns.StrLessTransitive | ast.cpp:87 | the string order is transitive |
| AtomColumns.Insert | ast.cpp:87 | inserting into a sorted list keeps it sorted and adds exactly the inserted name |
| AtomColumns.Sort | ast.cpp:87 | the sorted atoms are ordered and a permutation of the atoms |
| AtomColumns.SortedUnique | ast.cpp:87 | two sorted permutations of the same list are equal, so `std::list::sort` yields the same list as `Sort` |
| AtomColumns.Unique | ast.cpp:88 | `erase(unique(...))`: each run of equal adjacent names collapses to one; no contract of its own: `UniqueMembers` and `UniqueStrictlySorted` state its properties |
| AtomColumns.UniqueMembers | ast.cpp:88 | `erase(unique(...))` keeps every name and adds none, and keeps the last one |
| AtomColumns.UniqueStrictlySorted | ast.cpp:88 | on a sorted list, removing adjacent duplicates leaves a strictly increasing list |
| AtomColumns.Columns | ast.cpp:86-88 | the atoms, sorted and deduplicated; no contract of its own: `ColumnsSpec` and `StrictlySortedUnique` state its properties |
| AtomColumns.ColumnsSpec | ast.cpp:86-88 | the columns are strictly increasing and name exactly the atoms of the formula |
| AtomColumns.StrictlySortedUnique | ast.cpp:86-88 | the columns are the only strictly increasing list of the formula's atoms |
| Formula.Childs | ast.cpp:100-103 | a constant or predicate has no children, a negation one, a binary node two, and each child is a proper sub-formula |
| Formula.EvalDependsOnlyOnAtoms | ast.cpp:119-141 | a formula's value depends only on the values of its own atoms, which is why a row can be evaluated in a fresh context that holds only the columns |
| Nnf.RemoveImpl | ast.cpp:161-181 | stage 1 leaves no implication or biconditional |
| Nnf.RemoveImplEval | ast.cpp:161-181 | stage 1 keeps the value of the formula in every context |
| Nnf.RemoveImplIdentity | ast.cpp:161-181 | stage 1 changes nothing in an implication-free tree |
| Nnf.RemoveImplAtoms | ast.cpp:166-177 | stage 1 keeps the set of predicate names (a biconditional repeats its operands' atoms but adds none) |
| Nnf.Push | ast.cpp:183-230 | stage 2 on a formula value; no contract of its own: `PushIsNnf`, `PushEval`, `PushAtoms`, `PushIdentity`, `DoubleNegation` and `NestedMakeNnf` state its properties, and `Tree.Push` is proved to denote it |
| Nnf.PushIsNnf | ast.cpp:183-230 | on an implication-free tree, stage 2 yields NNF: only And and Or, and every negation directly above a leaf |
| Nnf.PushEval | ast.cpp:183-230 | stage 2 keeps the value of the formula in every context |
| Nnf.PushAtoms | ast.cpp:183-230 | stage 2 keeps the atoms and their left-to-right order |
| Nnf.PushIdentity | ast.cpp:183-230 | stage 2 changes nothing in a tree already in NNF |
| Nnf.DoubleNegation | ast.cpp:195-201 | `!!e` becomes `e` itself when `e` is in NNF |
| Nnf.NestedMakeNnf | ast.cpp:183-230 | the `make_nnf` calls that stage 2 makes on implication-free subtrees amount to stage 2 alone |
| Nnf.MakeNnf | ast.cpp:159-234 | stage 1 then stage 2 on a formula value; no contract of its own: `MakeNnfIsNnf`, `MakeNnfEval`, `MakeNnfAtoms` and `MakeNnfIdempotent` state its properties, and `Tree.MakeNnf` is proved to denote it |
| Nnf.MakeNnfIsNnf | ast.cpp:159-234 | the result of `make_nnf` is in NNF |
| Nnf.MakeNnfEval | ast.cpp:159-234 | `make_nnf` keeps the value of the formula in every context |
| Nnf.MakeNnfAtoms | ast.cpp:159-234 | `make_nnf` keeps the set of predicate names |
| Nnf.MakeNnfIdempotent | ast.cpp:159-234 | `make_nnf` applied to its own result changes nothing |
| Nnf.ImplExample | ast.cpp:162-165 | `p -> q` becomes `!p \|\| q` |
| Tree.Node.Neg | ast.cpp:164 | a new negation node owns its operand's tree, denotes `!operand` and has the given parent |
| Tree.Node.Binary | ast.cpp:175-176 | a new binary node owns both operand trees, denotes `lhs op rhs` and has the given parent |
| Tree.Node.DeepCopy | ast.cpp:171-172 | the copy is made of new nodes only and denotes the same formula |
| Tree.Node.RewriteImpl | ast.cpp:162-165 | the implication node becomes, in place, a disjunction whose left operand is a new negation of the old one |
| Tree.Node.RewriteBiImpl | ast.cpp:166-177 | the biconditional node becomes, in place, the conjunction of `!a \|\| b` and `!b' \|\| a'` over deep copies |
| Tree.NegatedDisjunction | ast.cpp:169-175 | the new left disjunct `!a \|\| b` shares `a` and `b` and adds two new nodes |
| Tree.CopiedDisjunction | ast.cpp:171-176 | the new right disjunct `!b' \|\| a'` is made of new nodes only |
| Tree.RewriteTopSpec | ast.cpp:161-181 | editing a node and then rewriting its new children is stage 1 on the node, and each new child has fewer implications, or as many and fewer nodes |
| Tree.Node.RemoveImplications | ast.cpp:161-181 | the in-place stage 1 leaves a well-formed tree denoting `RemoveImpl` of the old formula, with the parent untouched and only new nodes added |
| Tree.Node.Descend | ast.cpp:179-181 | the visit descends into both children of the edited node and rewrites each |
| Tree.Push | ast.cpp:183-230 | the in-place stage 2 returns a well-formed tree denoting `Push` of the old formula, which takes over the old node's parent; a leaf or a binary node is returned as the same node |
| Tree.NormaliseOperands | ast.cpp:183-193 | a binary node stays in place and its operand slots are re-linked to the normalised operands |
| Tree.EliminateDoubleNegation | ast.cpp:195-201 | a double negation is replaced by its inner operand, normalised, which takes over the outer parent; when that operand is a leaf, the result is that very node (`!!p` gives `p` itself) |
| Tree.DeMorgan | ast.cpp:202-225 | a negated conjunction or disjunction is replaced by the new dual node, normalised, which takes over the parent |
| Tree.NegatedDual | ast.cpp:204-210 | the dual node over new negations of the operands, with the replaced node's parent |
| Tree.MakeNnf | ast.cpp:159-234 | `make_nnf` on a slot returns a well-formed tree denoting `MakeNnf` of the old formula, with the old parent, and made of the old nodes plus new ones; a leaf or a binary node is returned as the same node |
| Statements.EvaluationContext.constructor | ast.cpp:120 | a new evaluation context holds no predicate |
| Statements.Assigned | ast.cpp:67-68 | after `Set p e` the context holds `p` with the value `e` had before, and every other name reads as it did |
| Statements.RowContext | ast.cpp:120-128 | the fresh context of one row, the columns bound in order to the tuple's values; no contract of its own: `RowContextSpec` states its properties |
| Statements.RowContextSpec | ast.cpp:120-128 | a row's context holds exactly the columns, the i-th column bound to the i-th value of the tuple |
| Statements.EvalRow | ast.cpp:119-142 | one row: the tuple's values, each child's value and the formula's value, all evaluated in the row's context |
| Statements.EvalRows | ast.cpp:119-144 | one row per tuple of the product, in the product's order |
| Statements.TruthTable | ast.cpp:82-146 | the columns are the sorted, deduplicated atoms; there are `2^columns` rows, and they are `TableRows` |
| Statements.TableRowBits | ast.cpp:91-94 | row `k` gives column `i` bit `columns - 1 - i` of `k` |
| Statements.TableRowSound | ast.cpp:119-141 | in any context that agrees with a row on its columns, the row's formula value and child values are the values `Eval` gives there |
| Statements.TableComplete | ast.cpp:91-141 | every context has a row that agrees with it on the columns, and that row's formula value is the formula's value in the context |
| Statements.Padded | ast.cpp:97 | a string printed with a field width takes at least its own length and at least the width, and exactly one of the two |
| Statements.HeaderAligned | ast.cpp:96-141 | with the formula's header cell padded like a child's, every header cell is as wide as the data cells under it |
| Statements.RootHeaderMisaligned | ast.cpp:113-117 | as written, every column but the formula's lines up, and the formula's header cell is narrower than its data cells exactly when the formula prints in fewer than two characters |
| Statements.OneLetterFormulaMisaligned | ast.cpp:113-141 | for the formula `p` the header is `[2, 1]` wide while the data cells are `[2, 2]` |
| Statements.RowCountAsWrittenDiffers | ast.cpp:90 | `2 ^ atoms.size()` yields 1 for three atoms, against 8 rows, and differs from `2^n` for every `n` up to three |
| Statements.Statement.constructor | ast.cpp:29-34 | a statement of the given type owns the given well-formed tree |
| Statements.Statement.Assign | ast.cpp:36-42 | a `Set` statement for `pred` owns the given well-formed tree |
| Statements.Statement.Exec | ast.cpp:60-157 | the report and new state for each statement type: `Print` gives the value; `Set` writes `Assigned`; `PrintAtoms` gives the atoms in order; `PrintTable` gives the columns and `TableRows`; `PrintNNF` rewrites its own tree to `MakeNnf` in place and reports the rewritten formula with the value the original had; the default type does nothing |

## Left out

- The parser, `main` (satsolver.cpp) and `StatementList::run` are not part of this model. `Exec` models one statement against a given context.
- The `Expression` classes (`eval`, `atoms`, `childs`, `print`, `deepcopy`, the constructors, `visit` and `update_parents`) are not part of this model. Their behaviour is modelled by `Eval`, `Atoms`, `Childs`, `Tree.Node.DeepCopy`, and the constructors `Tree.Node.Neg` and `Tree.Node.Binary`.
- `Tree.MakeNnf` sets the parent pointer only where `make_nnf` does, on the node that replaces another. Whether the `NegExpression` and `BinaryExpression` constructors and `update_parents` re-point children's parents is defined outside ast.cpp and not modelled, so the tree invariant does not constrain parent pointers.
- The `OverloadedVisitor` dispatch is written out as a case analysis on the node kind. Handlers that return false make the visit stop at the node; handlers that return true make it descend.
- `shared_ptr` reference counting and the freeing of replaced nodes are left out. Nodes are never freed in the model.
- All `printf` rendering is left out: the `tt`/`ff` strings, `" | "` separators, `Statement::print` and the character counts that `print` returns. Reports carry values instead. Column widths are modelled only as numbers, from the counts, to expose the misalignment.
- `Statements.Padded` counts characters, whereas `printf` counts bytes. For non-ASCII names (and for the `⇒` arrow) the two differ.
- Evaluation of a missing predicate returns false and leaves the context unchanged. The C++ `operator[]` on the map may insert a `false` entry on first lookup. Inside `Exec` this would only add entries that read as false anyway.
- The default constructor `Statement()`, whose tree pointer is null, is left out. Every modelled statement owns a well-formed tree.
- The unused variable `rows` (ast.cpp:90) is modelled only as `RowCountAsWritten`, for the finding below.

## Findings

| source | as written | input that shows it | evidently intended | confidence | as-written member | corrected member |
|---|---|---|---|---|---|---|
| ast.cpp:113-117 | the formula's header cell is printed with no padding, while atom headers are padded by `%2s` and child headers by the count-down loop; its data cells are padded to two characters | the formula `p`: header widths 2 and 1, data widths 2 and 2 | pad the formula's header like a child's, so that every column lines up | medium, not executed | Statements.RootHeaderMisaligned | Statements.HeaderAligned |
| ast.cpp:90 | `2 ^ atoms.size()` is an exclusive or | three atoms: the expression yields 1, the table has 8 rows | two to the power of the number of atoms (the variable is never read, so no output changes) | high, not executed | Statements.RowCountAsWrittenDiffers | Statements.TruthTable |
