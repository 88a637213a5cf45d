# SDD++ wrapper logic in Dafny

SDD++ is a C++ wrapper around libsdd, a library of Sentential Decision
Diagrams (SDDs). This project models the part of the wrapper that has logic
of its own, over an abstract model of what libsdd computes:

- `literals.dfy` (module `Literals`): the value types `sdd::variable` (an
  unsigned index) and `sdd::literal` (a signed integer whose magnitude is its
  variable and whose sign is its polarity), with 0 as the default "no
  variable / no literal" value.
- `semantics.dfy` (module `Semantics`): what an SDD node denotes. A node of a
  manager with `n` variables is the Boolean function over variables `1..n`
  given by its set of models (`a[v - 1]` is the value of variable `v`).
  libsdd keeps SDDs canonical, so two nodes are the same object exactly when
  they denote the same function. Datatype equality therefore stands for the
  pointer equality `node::operator==`. The libsdd calls the wrapper makes
  are specification functions here: negate, conjoin, disjoin, condition,
  exists, exists_multiple, forall, rename_variables, the support flags of
  `sdd_variables`, and the literal and decision tests. Lemmas state the
  facts about them that the wrapper relies on.
- `managers.dfy` (module `Managers`): `manager::variables`, the range check of
  `manager::literal`, `manager::top` and `manager::bottom`.
- `nodes.dfy` (module `Nodes`): the wrapper's node operations. These are the
  support list of `node::variables`, the indicator array of `exists(vector)`,
  `forall(vector)`, the literal overloads of `&&`, `||`, `implies` and `iff`,
  the short-circuit fold of `condition(vector)`, the three-way `value`, the
  renaming table of both `rename` overloads, the greedy `model()` search,
  `literal()` and `elements()`.
- `outcomes.dfy` (module `Outcomes`): `Option` for `std::optional` and
  `Result` for a thrown `std::invalid_argument`.

The loops of the wrapper are methods with loop invariants. Each method is
proved against a specification function or a semantic property. The most
involved proof is about `node::model()`. It shows that the index into the
support never runs past its end. It also shows that the search returns
nothing exactly when the node is unsat. Otherwise it returns literals on a
prefix of the ascending support whose conditioning is valid, so that every
assignment making them true is a model.

## Model

| member | source | states |
|---|---|---|
| Literals.Literal.Negate | src/lib++/include/sdd++/sdd++.hpp:111-113 | `!l` keeps the variable, flips the polarity of a nonzero literal and leaves 0 unchanged |
| Literals.Literal.Var | src/lib++/include/sdd++/sdd++.hpp:119-121 | the variable is the magnitude of the literal, and it is 0 exactly for the literal 0 |
| Literals.Literal.IsPositive | src/lib++/include/sdd++/sdd++.hpp:115-117 | `bool(l)` is `l > 0` (a definition; `Literals.Literal.Negate` states that it flips for nonzero literals) |
| Literals.FromVariable | src/lib++/include/sdd++/sdd++.hpp:104 | the literal built from a variable recovers that variable, is positive for a nonzero variable, and is 0 for variable 0 |
| Literals.Variable.Negate | src/lib++/include/sdd++/sdd++.hpp:127-129 | `!v` is a literal of `v` and is negative for a nonzero variable |
| Literals.DoubleNegation | src/lib++/include/sdd++/sdd++.hpp:111-113 | `!!l == l` |
| Literals.VariableIsMagnitude | src/lib++/include/sdd++/sdd++.hpp:119-121 | `l.variable()` is `l` for a positive literal and `-l` otherwise |
| Literals.VariableNegation | src/lib++/include/sdd++/sdd++.hpp:127-129 | `!v == literal(-v)` |
| Literals.Sentinels | src/lib++/include/sdd++/sdd++.hpp:97-124 | the default literal 0 has the default variable 0, is not positive, and is `!` of the default variable |
| Managers.Variables | src/lib++/src/sdd.cpp:51-56 | the result is `[1, 2, ..., var_count]`: length `var_count`, entry `k` is `k + 1`, and it holds exactly the variables `1..var_count` |
| Managers.LiteralNode | src/lib++/src/sdd.cpp:90-95 | `invalid_argument` exactly when the literal's variable exceeds `var_count`; a node exactly for literals of variables `1..var_count`, and that node's models are the assignments making the literal true |
| Managers.Top | src/lib++/src/sdd.cpp:97-99 | the manager's true node is valid |
| Managers.Bottom | src/lib++/src/sdd.cpp:101-103 | the manager's false node is unsat |
| Semantics.LiteralFunction | src/lib++/src/sdd.cpp:90-95 | the node of a literal has as models exactly the assignments making the literal true |
| Semantics.IsValid | src/lib++/src/sdd.cpp:262-264 | `is_valid()`: every assignment of the manager's variables is a model (a definition) |
| Semantics.IsUnsat | src/lib++/src/sdd.cpp:270-272 | `is_unsat()`: there is no model (a definition) |
| Nodes.IsSat | src/lib++/src/sdd.cpp:266-268 | `is_sat()` is `!is_unsat()` (a definition) |
| Semantics.ValidIsSat | src/lib++/src/sdd.cpp:262-272 | a valid node is satisfiable |
| Semantics.Negate | src/lib++/src/sdd.cpp:128-130 | `!n` has no model in common with `n` |
| Semantics.NegateInvolution | src/lib++/src/sdd.cpp:128-130 | `!!n == n` |
| Semantics.NegateConjoin | src/lib++/src/sdd.cpp:128-143 | De Morgan: `!(n1 && n2) == !n1 \|\| !n2` |
| Semantics.NegateDisjoin | src/lib++/src/sdd.cpp:128-156 | De Morgan: `!(n1 \|\| n2) == !n1 && !n2` |
| Semantics.Complement | src/lib++/src/sdd.cpp:128-156 | `n && !n` is unsat and `n \|\| !n` is valid |
| Semantics.Conjoin | src/lib++/src/sdd.cpp:132-135 | the models of `n1 && n2` are among the models of each operand |
| Semantics.Disjoin | src/lib++/src/sdd.cpp:145-148 | every model of either operand is a model of `n1 \|\| n2` |
| Semantics.Condition | src/lib++/src/sdd.cpp:212-216 | every model of `n` that makes the literal true is a model of `n.condition(lit)` |
| Semantics.ConditionAgrees | src/lib++/src/sdd.cpp:212-216 | on assignments making the literal true, conditioning does not change membership |
| Semantics.ConditionUnsat | src/lib++/src/sdd.cpp:228-234 | `n.condition(lit)` is unsat exactly when no model of `n` makes the literal true |
| Semantics.ConditionIdempotent | src/lib++/src/sdd.cpp:212-216 | conditioning twice on the same literal is conditioning once |
| Semantics.ConditionConstant | src/lib++/src/sdd.cpp:218-226 | conditioning keeps a valid node valid and an unsat node unsat, which is why the fold may stop there |
| Semantics.ConditionSplit | src/lib++/src/sdd.cpp:289-294 | for a satisfiable node, conditioning on a literal or on its negation is satisfiable, so `model()`'s second choice is never unsat |
| Semantics.SupportFlags | src/lib++/src/sdd.cpp:117-118 | the flag array has `var_count + 1` entries, entry 0 is 0, and entry `v` is nonzero exactly when the node depends on `v` |
| Semantics.ConstantOrDepends | src/lib++/src/sdd.cpp:282-288 | a node that is neither valid nor unsat depends on some variable |
| Semantics.ConditionSupport | src/lib++/src/sdd.cpp:289-298 | after conditioning on a literal, the node no longer depends on its variable and depends only on variables it depended on before |
| Semantics.ExistsWeakens | src/lib++/src/sdd.cpp:158-175 | every model of `n` is a model of `exists(vars, n)` |
| Semantics.ExistsCompose | src/lib++/src/sdd.cpp:158-175 | quantifying two sets of variables one after the other is quantifying their union |
| Semantics.Forall | src/lib++/src/sdd.cpp:181-186 | every model of `forall(vars, n)` is a model of `n` |
| Semantics.Exists | src/lib++/src/sdd.cpp:158-163 | `exists(var, n)` with `q = {var}`: the models are the assignments that agree with some model of `n` outside `q`; `ExistsWeakens`, `ExistsCompose` and `ExistsInRange` state its properties |
| Semantics.ExistsInRange | src/lib++/src/sdd.cpp:165-175 | quantifying a name that is not a variable of the manager, such as 0, changes nothing |
| Semantics.ExistsMultipleMarks | src/lib++/src/sdd.cpp:165-175 | `sdd_exists_multiple` reads the indicator only at `1..var_count` and only asks whether an entry is 1, so entry 0 is ignored |
| Semantics.ForallDuality | src/lib++/src/sdd.cpp:177-179 | universal quantification is `!exists(vars, !n)` |
| Semantics.Rename | src/lib++/src/sdd.cpp:246-249 | `sdd_rename_variables`: an assignment is a model of the result when the original node accepts it read through the table; `RenameIdentity` and `RenameLiteral` state its properties |
| Semantics.RenameIdentity | src/lib++/src/sdd.cpp:252-260 | renaming with the identity table changes nothing |
| Semantics.RenameLiteral | src/lib++/src/sdd.cpp:236-250 | renaming the node of literal `v` gives the node of literal `table[v]` |
| Semantics.FindLiteral | src/lib++/src/sdd.cpp:303-316 | a nonzero result is a literal whose node the given node is; a zero result means no literal from the start index on has it as its node |
| Semantics.IsLiteral | src/lib++/src/sdd.cpp:303-305 | `is_literal()`: the node is the node of some literal (a definition, characterised by `Semantics.FindLiteral`) |
| Semantics.IsDecision | src/lib++/src/sdd.cpp:307-309 | `is_decision()`: the node is neither valid, nor unsat, nor a literal (a definition) |
| Nodes.CollectFlagged | src/lib++/src/sdd.cpp:117-126 | collecting the flags gives exactly the flagged variables, strictly ascending, all within range |
| Nodes.Variables | src/lib++/src/sdd.cpp:117-126 | the result is strictly ascending and holds exactly the variables `1..var_count` the node depends on |
| Nodes.AndLiteral | src/lib++/src/sdd.cpp:137-139 | `n && l` fails exactly for out-of-range literals; otherwise its models are the models of `n` making `l` true |
| Nodes.LiteralAnd | src/lib++/src/sdd.cpp:141-143 | `l && n` fails exactly for out-of-range literals; otherwise its models are the models of `n` making `l` true |
| Nodes.OrLiteral | src/lib++/src/sdd.cpp:150-152 | `n \|\| l` fails exactly for out-of-range literals; otherwise its models are the models of `n` and the assignments making `l` true |
| Nodes.LiteralOr | src/lib++/src/sdd.cpp:154-156 | `l \|\| n` fails exactly for out-of-range literals; otherwise its models are the assignments making `l` true and the models of `n` |
| Nodes.Implies | src/lib++/src/sdd.cpp:188-190 | `implies(n1, n2)` holds on exactly the assignments where being a model of `n1` entails being a model of `n2` |
| Nodes.Iff | src/lib++/src/sdd.cpp:200-202 | `iff(n1, n2)` holds on exactly the assignments that are models of both or of neither |
| Nodes.ImpliesLiteral | src/lib++/src/sdd.cpp:192-194 | `implies(n, l)` fails exactly for out-of-range literals; otherwise it holds where every model of `n` makes `l` true |
| Nodes.LiteralImplies | src/lib++/src/sdd.cpp:196-198 | `implies(l, n)` fails exactly for out-of-range literals; otherwise it holds where making `l` true entails being a model of `n` |
| Nodes.IffLiteral | src/lib++/src/sdd.cpp:204-206 | `iff(n, l)` fails exactly for out-of-range literals; otherwise it holds where being a model of `n` coincides with making `l` true |
| Nodes.LiteralIff | src/lib++/src/sdd.cpp:208-210 | `iff(l, n)` fails exactly for out-of-range literals; otherwise it holds where making `l` true coincides with being a model of `n` |
| Nodes.ExistsIndicator | src/lib++/src/sdd.cpp:165-170 | the array has `var_count + 1` entries, entry `i` is 1 exactly when variable `i` is listed and 0 otherwise; this includes index 0, which is 1 only when variable 0 is listed |
| Nodes.ExistsMany | src/lib++/src/sdd.cpp:165-175 | `exists(vars, n)` quantifies exactly the set of listed variables (a listed 0 is ignored) |
| Nodes.ForallMany | src/lib++/src/sdd.cpp:177-179 | `forall(vars, n)` built as `!exists(vars, !n)` is universal quantification of exactly the listed variables |
| Nodes.ConditionSeqConstant | src/lib++/src/sdd.cpp:218-226 | once valid or unsat, further conditioning changes nothing |
| Nodes.ConditionFoldIsSeq | src/lib++/src/sdd.cpp:218-226 | the fold that stops at the first valid or unsat result equals conditioning on all the literals |
| Nodes.ConditionSeqSnoc | src/lib++/src/sdd.cpp:218-226 | conditioning on one more literal at the end is one more conditioning of the result |
| Nodes.ConditionAll | src/lib++/src/sdd.cpp:218-226 | `condition(lits)` is the short-circuit fold, and equals conditioning on every literal in order |
| Nodes.ConditionSeqAgrees | src/lib++/src/sdd.cpp:218-226 | on assignments making every literal true, conditioning on the list does not change membership |
| Nodes.Value | src/lib++/src/sdd.cpp:228-234 | `false` exactly when no model makes the literal true; `true` exactly when some model does and all models do; none exactly when models of both kinds exist |
| Nodes.RenameWith | src/lib++/src/sdd.cpp:236-250 | the table passed down has 0 at index 0 and `renaming(i)` at each `i` in `1..var_count`, and the result is the renaming by that table |
| Nodes.RenameMap | src/lib++/src/sdd.cpp:252-260 | each variable goes to its map value when it is a key and to itself otherwise; a map that fixes every variable in range leaves the node unchanged |
| Nodes.ValidConditionImplicant | src/lib++/src/sdd.cpp:274-301 | literals whose conditioning is valid form an implicant: every assignment making them all true is a model |
| Nodes.PositionAbove | src/lib++/src/sdd.cpp:117-126 | a support variable above `vars[i - 1]` sits at an index at least `i` of the ascending support |
| Nodes.RemainingSupport | src/lib++/src/sdd.cpp:286-288 | when the node left is neither valid nor unsat, `vars.at(i)` is in bounds |
| Nodes.SupportAfterCondition | src/lib++/src/sdd.cpp:288-298 | after fixing `vars[i]`, the node left depends only on support variables above `vars[i]` |
| Nodes.ModelStep | src/lib++/src/sdd.cpp:288-299 | one round of `model()` (fix `vars[i]`, push the literal, condition) keeps the search invariant: the literals follow the support, the node is their conditioning, and its support lies above the last fixed variable |
| Nodes.ModelFound | src/lib++/src/sdd.cpp:284-285 | when the search stops on a valid node, the short-circuit conditioning on the literals is valid and they form an implicant |
| Nodes.Model | src/lib++/src/sdd.cpp:274-301 | none exactly when the node is unsat; otherwise at most `\|vars\|` literals whose variables are the ascending support in order, whose conditioning is valid both as `condition(vector)` computes it and when every literal is applied, and which every satisfying assignment extends to a model |
| Nodes.LiteralOf | src/lib++/src/sdd.cpp:311-316 | a nonzero result is the literal the node is; the result is 0 exactly when the node is the node of no literal |
| Nodes.Flatten | src/lib++/src/sdd.cpp:318-334 | the flat layout has two entries per element, the prime at `2i` and the sub at `2i + 1` |
| Nodes.Elements | src/lib++/src/sdd.cpp:318-334 | empty for a non-decision node; otherwise `nelems` entries with entry `i` the pair `(elems[2i], elems[2i+1])`, and flattening them gives back the first `2 * nelems` entries of the array |

## Left out

- The internals of libsdd are not modelled: the vtree, the unique node table and the SDD decomposition. Each libsdd call is a specification function on Boolean functions.
- `sdd_variables` is taken to report the essential variables of the function (those it depends on). This is what canonical, trimmed SDDs give.
- `sdd_node_is_literal` and `sdd_node_elements` are stated semantically. A literal node is the node of some literal. A decision node is neither constant nor a literal. The element array and its size are parameters of `Nodes.Elements`, because their contents come from the SDD structure.
- Variable insertion and the variable order (`add_var_*`, `var_order`) are not modelled. They only forward to libsdd's vtree code. So a manager is the value of its variable count.
- Reference counting, the `shared_ptr`/`unique_ptr` deleters and `free` of libsdd arrays are not modelled. They are foreign lifetime management.
- The `std::hash` specialisations are not modelled: their values are library-defined.
- `node::size` and `node::count` are not modelled. They report the sizes of the SDD structure, which the model does not have.
- `exists(var, n)` and `forall(var, n)` for a single variable are single libsdd calls. `Semantics.Exists` and `Semantics.Forall` with a one-element set model them.
- Integer widths are not modelled: literals are unbounded integers, so `-LONG_MIN` and the `unsigned` truncation in `variable()` do not arise.
- Managers.LiteralNode: the literal 0 passes the wrapper's range check and reaches libsdd, which has no node for it. The model returns the error `ZeroLiteral` there.
- The `std::function` callback of `rename` is a total Dafny function `nat -> nat`. Side effects of the callback are not modelled.
- Nodes.RenameWith: it requires the callback to map every variable in `1..var_count` into that range, which libsdd demands of the table; the source does not check it.
- Nodes.ConditionAll: it requires every literal of the list to be in range, even those after the point where the fold stops; libsdd demands this only of the literals actually used.
- Nodes.ExistsMany, Nodes.ForallMany: they require every listed variable to be at most `var_count`. The source writes `map[var]` unchecked into an array of `var_count + 1` entries, so a larger variable is out-of-bounds access.
- Nodes.Value: it requires the literal to be in range, as libsdd's conditioning does.
