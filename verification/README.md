# Kconfig engine and boot image checksum: a verified model

The project models the Kconfig engine under `initramfs/buildroot/support/kconfig` and the
checksum of `initramfs/buildroot/package/mkpimage`, and proves what they are for.

| module | file | what it covers |
|---|---|---|
| Exprs | Expr.dfy | three-valued expressions, valuations, and what a well-formed valuation is |
| Simplify, Matching | Simplify.dfy, Matching.dfy | constant elimination, cancellation, equality, joining; exactly when expressions are found equal |
| Places, Duplicates, Rewriting | Places.dfy, Dups.dfy, Rewriter.dfy | the walk that joins operands; the in-place passes, where a `struct expr **` is a tree variable and a path into it |
| Transforming | Transform.dfy | negation push-down |
| Conditions, Submenus, Propagation | Conditions.dfy, Submenus.dfy, Propagation.dfy | comparison insertion, the literal `m`, bool weakening, inheritance of conditions, the superset rule and exactly when it is sound |
| Belonging, Outcome | Belonging.dfy, Outcome.dfy | which items go below a symbol, by the operands of their conditions; what finalisation amounts to for single nodes and symbols |
| MenuTree, MenuSpec, Finalizing | MenuTree.dfy, MenuSpec.dfy, Finalize.dfy | linked menu nodes; conditions and shape of the finished tree as functions of the parsed one; finalisation in place; the stackless traversal |
| Symbols, Laws | Symbols.dfy, Laws.dfy | what the values must be, as a step that computes them and, independently, by what raises a symbol to m or y |
| Goals, SymEval | Goals.dfy, SymEval.dfy | what a run of evaluation is to find, and the memoised evaluation that finds it |
| Modules | Modules.dfy | the modules symbol: evaluation once it is finished, and exactly when evaluating it finds its value |
| Saving, ConfLines, Persistence, Reading, Writing | Saving.dfy, ConfLines.dfy, Persistence.dfy, Reading.dfy, Writing.dfy | defaults, assignments, lines, what a file says by its lines, the minimal configuration and its round trip |
| Choices | Choices.dfy | choices and their members |
| Cycle | Cycle.dfy | the search for recursive dependencies |
| Crc | Crc.dfy | the table-driven CRC-32 against bitwise polynomial division |

Code that the source writes as loops over shared state is a method here, proved against a
function on values; the main results are then theorems about these functions. What such a function
means is stated without its recursion: by operands and places of a condition (`Belonging`,
`Matching`, `Simplify.JoinExact`), by what raises a symbol to a value (`Laws`), by the lines of a
file and their indices (`Reading`), by the least index that qualifies (`Choices.SelectionOrder`).

**Valuations.** An expression is evaluated under a tristate for every symbol and a comparison
result for every pair of symbols. A valuation is well formed if y, m and n have their values,
bool symbols are never m, comparing a bool or tristate symbol with y, m or n agrees with its
value, and all pairs can be ordered. `Saving.SolutionWellFormed` shows that the values of every
configuration are. Passes that join operands need one thing more, about the constants of the
expression at hand: no tristate symbol equals two of them (`Exprs.ConstantsDistinct`).
`Saving.DistinctConstants` says when this is so in terms of the constants' texts,
`Saving.AssumptionsHold` gives a configuration that has it, and `Saving.EqualConstantsArise` one
that has not and in which a pass changes a value.

**Finalisation.** `MenuSpec` computes from the parsed tree, its conditions and its properties what
conditions are wanted everywhere and what shape the tree takes under them. `Finalizing` does it
in place, interleaved as in the source, and is proved to arrive there.

**Evaluation.** The values of a configuration are a fixed point of one evaluation step. With
acyclic dependencies it exists and is unique, and once the modules symbol is finished the
memoised evaluation computes it, whatever the order of the calls and whatever the modules symbol
itself depends on. Evaluating the modules symbol is different, because a tristate at m is printed
as n until it is finished. A run of evaluation has a goal (`Goals.Goal`): values, what each
evaluation sees while it computes them, and which symbols it may ask for.
`Modules.CalcModules` shows that such a run finds every value if and only if nothing that is
evaluated for the value of the modules symbol changes when all that is m is printed as n
(`Modules.Settles`), and which values it finds otherwise (`Modules.Mixed`).
The methods carry a ghost flag: when it is not set, nothing is assumed about the graph, there may
be choices and pending choice values, and termination is what is claimed.

## Where the code differs from its documentation or purpose

- `expr_eq` (expr.c:245-250): the comment compares operands as sets; the code uses each operand up once, so a repeated operand makes a difference. With operands y or n, which are dropped after the comparison, the test is not even transitive.
- `expr_join_and` (expr.c:561-563): the comment gives `a='m'` for `a!='m' && a!='n'`; the code gives, rightly, `a='y'`.
- `expr_join_and` (expr.c:531-548): constants that are different symbols are taken to be different values, which "1" and "0x1" are not.
- `expr_trans_bool` (expr.c:391-407): the comment says bool, the code tests for tristate.
- The superset rule for submenus (menu.c:464-485) is sound exactly for operands whose comparison with n agrees with their value. An undefined symbol counts as n but its string is not "n".
- The superset rule cancels operands of junctions only (expr.c:220-240). So an item whose one condition is that of the prompt before it is not found to have a superset of the conditions, and does not go below unless it depends on the symbol; an item with that condition and a further one does (`Belonging.SupersetExact`).
- `expr_trans_compare` (expr.c:924-944): asked to compare with m, which nothing does, it returns a junction as it is.
- `expr_calc_value` (expr.c:1064-1072): compared by order with the literals y, m and n, a bool or tristate symbol is compared by the alphabet, since only one of the two sides has a type. What is m is less than n (`Laws.LettersByAlphabet`); two tristate symbols are compared by value.
- `sym->dir_dep` (menu.c:496): for a symbol with several nodes, a node without any condition does not make the direct dependency y.
- Recursive dependencies (zconf.y:554-559): the parser counts a symbol returned by `sym_check_deps` as an error, but the outermost call never returns one (outside choices), so a cycle is printed and does not stop the program. The graph that is searched is not the one evaluation depends on: it lacks implications and the conditions of enclosing menus, and has conditions that evaluation ignores.
- `sym_get_string_value` (symbol.c:812-816): printing a tristate at m evaluates the modules symbol. If that symbol is being evaluated itself, its unfinished value is used and m is printed as n: with T at m and `default y if T = m`, the modules symbol comes out n, not y.
- `sym_set_tristate_value` (symbol.c:532-537): setting the current value is not checked, and the value may drop at the next evaluation.
- `conf_write_defconfig`: an int, hex or string symbol that is selected, and a symbol marked automatic, loses its user value.
- Choices: a hidden member with a default spoils exclusivity.

## Model

| member | source | states |
|---|---|---|
| Simplify.EliminateYnValue | initramfs/buildroot/support/kconfig/expr.c:308-389 | dropping y and n operands of && and or keeps the value under every valuation that fixes the constants |
| Simplify.EliminateYnExact | initramfs/buildroot/support/kconfig/expr.c:308-389 | no constant operand is left outside negations; the tree shrinks exactly when there was one and is otherwise untouched, which is what makes the loop of `expr_eliminate_dups` end |
| Simplify.CancelWalkCommon | initramfs/buildroot/support/kconfig/expr.c:149-189 | one cancelling walk removes a common part: there is a value c with which each remainder combines to the old expression |
| Simplify.EliminateEqReflects | initramfs/buildroot/support/kconfig/expr.c:220-240 | cancellation reflects order both ways: if the remainders compare, so do the originals, under every valuation |
| Simplify.CancelledImpliesBelow | initramfs/buildroot/support/kconfig/expr.c:220-240 | if the second remainder is y, the old first expression is at most the old second one, under every valuation |
| Simplify.ExprEqSound | initramfs/buildroot/support/kconfig/expr.c:251-295 | expressions found equal have equal values; mutually recursive with cancellation and bounded by the combined size although both trees change while walked |
| Matching.EqualJustMatching | initramfs/buildroot/support/kconfig/expr.c:245-295 | two expressions without y or n as an operand are found equal if and only if at every level, at any depth and under any grouping, they have the same operands, each equally often |
| Matching.DocumentedEquality | initramfs/buildroot/support/kconfig/expr.c:245-295 | the comment asks that every operand of either equals some operand of the other, recursively: expressions found equal always meet this, and if no level repeats an operand the two are the same |
| Matching.RepeatedOperandsDiffer | initramfs/buildroot/support/kconfig/expr.c:245-295 | repeating any operand of any junction, as in `X && X && Y` for `X && Y`, keeps the documented meaning, and the two are found different |
| Matching.ConstantsNotTransitive | initramfs/buildroot/support/kconfig/expr.c:149-295 | with constant operands equality is not transitive: `(S or n) && T`, `S && T` and `S && (T or n)` are equal in turn, the first and the last are not |
| Matching.EliminateEqExact | initramfs/buildroot/support/kconfig/expr.c:149-240 | without y or n as an operand: at the level that the two expressions determine, each remainder has exactly the operands that it has more often than the other, equal ones counted as one; where they determine no level nothing changes |
| Matching.CancelledExact | initramfs/buildroot/support/kconfig/expr.c:149-240 | cancelling leaves y of the second expression if and only if that is y, or the first is a conjunction that has every operand of the second as often |
| Matching.DecidedEqual | initramfs/buildroot/support/kconfig/expr.c:149-295 | two conjunctions with an operand n, or two disjunctions with an operand y, are found equal whatever else they have |
| Simplify.JoinSize | initramfs/buildroot/support/kconfig/expr.c:423-579 | a joined operand is smaller than the two it replaces |
| Simplify.JoinOrSound | initramfs/buildroot/support/kconfig/expr.c:423-485 | every special case of the or joiner has the value of the disjunction under every well-formed valuation in which no tristate symbol equals two of the constants involved |
| Simplify.JoinAndSound | initramfs/buildroot/support/kconfig/expr.c:487-579 | every special case of the && joiner has the value of the conjunction under the same valuations |
| Simplify.JoinSound | initramfs/buildroot/support/kconfig/expr.c:423-579 | both joiners, including the case of equal operands |
| Simplify.JoinExact | initramfs/buildroot/support/kconfig/expr.c:423-579 | which operands are joined, and into what: equal ones into either; under or two tests of a tristate symbol for letters into the test that excludes the third, and a bool symbol with its negation into y; under and a symbol with its own test, a test for one constant with a test against one, and tests against two letters; nothing else |
| Duplicates.JoinNeedsDistinctConstants | initramfs/buildroot/support/kconfig/expr.c:531-548 | the whole pass turns `a='b' && a!='c'` into `a='b'`, which keeps the value if and only if a does not equal both constants |
| Places.PutCongruence | initramfs/buildroot/support/kconfig/expr.c:308-389 | a rewrite through a child pointer that keeps the value of the place keeps the value of the whole tree |
| Places.JoinedValue | initramfs/buildroot/support/kconfig/expr.c:588-643 | overwriting one operand of a level by the neutral constant and another by the joined one keeps the value of the level, wherever the two stand |
| Places.JoinedPlaces | initramfs/buildroot/support/kconfig/expr.c:588-643 | the constant goes to the first of the two places and the joined operand to the second, and every other operand of the level stays where it is |
| Duplicates.WalkSettled | initramfs/buildroot/support/kconfig/expr.c:588-654 | the walk, whose two arguments alias one tree, joins nothing if and only if no pair of operands it meets, at any depth, can be joined |
| Duplicates.WalkKeeps | initramfs/buildroot/support/kconfig/expr.c:588-654 | it keeps the value of the tree and its normal form although it joins in the tree it is walking, and brings in no constants |
| Duplicates.SettledIsSaturated | initramfs/buildroot/support/kconfig/expr.c:656-678 | nothing left to join for the walk means exactly that no two different operands of any level can be joined |
| Duplicates.DupsCorrect | initramfs/buildroot/support/kconfig/expr.c:656-678 | repeated until nothing is joined, the pass keeps the value under every well-formed valuation whose constants are distinct, keeps normal form, and leaves no two operands of any level that can be joined |
| Duplicates.DistinctJustWhenKept | initramfs/buildroot/support/kconfig/expr.c:656-678 | the assumption is exact: a tristate symbol equals no two of a set of constants if and only if the pass keeps the value of every expression over these constants |
| Duplicates.DupsFixed | initramfs/buildroot/support/kconfig/expr.c:656-678 | a tree comes out unchanged if and only if nothing in it can be joined |
| Rewriting.Rewriter.EliminateYnAt | initramfs/buildroot/support/kconfig/expr.c:308-389 | the in-place pass writes exactly the eliminated tree at its place and nothing elsewhere |
| Rewriting.Rewriter.CancelWalkAt | initramfs/buildroot/support/kconfig/expr.c:149-189 | the in-place walk over two trees refines the cancelling walk on values |
| Rewriting.Rewriter.EliminateEqIn | initramfs/buildroot/support/kconfig/expr.c:220-240 | the in-place cancellation leaves exactly the two remainders |
| Rewriting.Rewriter.ExpressionsEqual | initramfs/buildroot/support/kconfig/expr.c:251-295 | the test by cancelling copies agrees with the equality on values and puts the counter back |
| Rewriting.Rewriter.EliminateDupsWalk | initramfs/buildroot/support/kconfig/expr.c:588-654 | the walk in place, through two paths into the tree that it rewrites, computes exactly the walk on values and counts its joins, and touches nothing outside |
| Rewriting.Rewriter.EliminateDups | initramfs/buildroot/support/kconfig/expr.c:656-678 | the loop over the shared counter ends, leaves exactly the result of the pass on values and puts the counter back |
| Transforming.TransformNormal | initramfs/buildroot/support/kconfig/expr.c:686-841 | the result is in negation normal form: negation only over a symbol other than y, m, n, and no bool symbol (un)equal to one of these |
| Transforming.TransformFixed | initramfs/buildroot/support/kconfig/expr.c:686-841 | a tree in normal form is returned as it is |
| Transforming.TransformIdempotent | initramfs/buildroot/support/kconfig/expr.c:686-841 | transforming twice is transforming once |
| Transforming.TransformValue | initramfs/buildroot/support/kconfig/expr.c:686-841 | the value is kept whenever bool symbols are never m and comparisons agree with values |
| Transforming.NegatedOrderNeedsOrder | initramfs/buildroot/support/kconfig/expr.c:770-785 | replacing !(a<b) by a>=b is exact if and only if the pair can be ordered |
| Transforming.TransformAt | initramfs/buildroot/support/kconfig/expr.c:686-841 | the in-place pass, terminating by a weight in which a negation doubles its operand, writes exactly the transformed tree |
| Conditions.Sandwich | initramfs/buildroot/support/kconfig/expr.c:914-977 | if every operand's comparison with n (or y) agrees with its value, the forms for != and = are two-valued and lie between the strict and the lax reading, under any valuation that fixes the constants |
| Conditions.SandwichLogical | initramfs/buildroot/support/kconfig/expr.c:914-977 | so they do for every expression whose operands are bool or tristate symbols or y, m and n, under every well-formed valuation |
| Conditions.SandwichNeedsAgreement | initramfs/buildroot/support/kconfig/expr.c:914-977 | for an operand the bounds hold if and only if its comparison agrees with its value |
| Conditions.SandwichExact | initramfs/buildroot/support/kconfig/expr.c:914-977 | the forms are exact when no negation has an operand at m |
| Conditions.AgainstMod | initramfs/buildroot/support/kconfig/expr.c:914-977 | against m, which no caller asks for: the form of a comparison is exact, and a junction is left as it is, which is exact if and only if it is n |
| Conditions.DependsIsAbsolute | initramfs/buildroot/support/kconfig/expr.c:871-898 | a condition found to depend on a symbol is n whenever the symbol is n; which conditions are found is Belonging.DependsExact |
| Conditions.AbsentSymbolIrrelevant | initramfs/buildroot/support/kconfig/expr.c:843-869 | a condition found not to contain a symbol does not change with it |
| Belonging.ContainsExact | initramfs/buildroot/support/kconfig/expr.c:843-869 | a condition is found to contain a symbol if and only if at some place in it stands the symbol or a comparison with it |
| Belonging.DependsExact | initramfs/buildroot/support/kconfig/expr.c:871-898 | a condition is found to depend on a symbol if and only if one of its conjuncts, at any depth, is the symbol, `s=y`, `s=m` or `s!=n` |
| Conditions.RewriteMValue | initramfs/buildroot/support/kconfig/menu.c:81-104 | after the rewriting the literal m counts as m && MODULES and nothing else changes |
| Conditions.RewriteMAt | initramfs/buildroot/support/kconfig/menu.c:81-104 | the in-place pass writes exactly the rewritten tree |
| Conditions.TransBoolValue | initramfs/buildroot/support/kconfig/expr.c:394-418 | on negation normal forms the weakening of FOO!=n to FOO is invisible once m is promoted to y |
| Conditions.TransBoolBelowNegation | initramfs/buildroot/support/kconfig/expr.c:394-418 | below a negation it is visible if and only if the symbol is m |
| Conditions.TransBoolAt | initramfs/buildroot/support/kconfig/expr.c:394-418 | the in-place pass writes exactly the weakened tree |
| Conditions.InheritValue | initramfs/buildroot/support/kconfig/menu.c:343-373 | the condition a child gets has the value of the minimum of the parent's and its own with m read as m && MODULES |
| Conditions.InheritShape | initramfs/buildroot/support/kconfig/menu.c:343-373 | it stays in normal form and has nothing left to join |
| Conditions.InheritPlain | initramfs/buildroot/support/kconfig/menu.c:343-351 | where there is nothing to rewrite, transform or join, the inherited condition is the conjunction of the parent's and the own one, in that order |
| Conditions.PropertyCondValue | initramfs/buildroot/support/kconfig/menu.c:387-398 | the condition of a property has the value of the child's and its own, for a symbol that cannot be m once m is promoted to y; this needs the child's condition to be in normal form, which inheriting provides |
| Conditions.PropertyCondExact | initramfs/buildroot/support/kconfig/menu.c:387-398 | place by place: for a symbol that is not a tristate every `FOO!=n` on a tristate becomes FOO, and for a tristate nothing changes |
| Conditions.Propagate | initramfs/buildroot/support/kconfig/menu.c:343-373 | the passes in place compute exactly that condition |
| Conditions.ReduceValue | initramfs/buildroot/support/kconfig/menu.c:449-451 | the prepared condition is equivalent to the explicit comparison with n |
| Conditions.ReduceShape | initramfs/buildroot/support/kconfig/menu.c:449-451 | it is in normal form and no two of its operands can be joined |
| Conditions.BelongsJustified | initramfs/buildroot/support/kconfig/menu.c:455-487 | an item that belongs below a symbol is n whenever the symbol is n, or is y only where the symbol's prompt is not n, given operands that agree with n |
| Conditions.GoesBelow | initramfs/buildroot/support/kconfig/menu.c:455-487 | cancelling copies in place decides exactly whether the item belongs there, and puts the counter back; which items do is Belonging.BelongsExact |
| Belonging.SupersetExact | initramfs/buildroot/support/kconfig/menu.c:453-485 | without y or n as an operand: the conditions of an item are found to be a superset if and only if the prompt has none or the item has several and among them every conjunct of the prompt's, as often |
| Belonging.DemandBelongs | initramfs/buildroot/support/kconfig/menu.c:453-487 | an item with a conjunct s, s=y, s=m or s!=n belongs below s whatever the condition of the prompt, with any operands |
| Belonging.BelongsExact | initramfs/buildroot/support/kconfig/menu.c:453-487 | the whole rule by operands: the item mentions the symbol, and it has such a conjunct or a superset of the prompt's conjuncts |
| Submenus.SoundJustWhenAgreeing | initramfs/buildroot/support/kconfig/menu.c:455-487 | the superset rule is sound for all conditions over a symbol u and operands that agree if and only if u agrees: comparing u with n gives equality exactly when u is n |
| Submenus.UnsoundPair | initramfs/buildroot/support/kconfig/menu.c:455-487 | for every operand that does not agree, such as an undefined symbol, an item that is absorbed and is y while the prompt above is n |
| Saving.UndefinedOperand | initramfs/buildroot/support/kconfig/menu.c:469-487 | a configuration in which this happens: `(A or B) && U!=n` is absorbed below A, whose prompt depends on the undefined U |
| Propagation.PulledStep | initramfs/buildroot/support/kconfig/menu.c:386-398 | a select or imply adds exactly its contribution to the target's reverse dependency |
| MenuTree.SplitLast | initramfs/buildroot/support/kconfig/menu.c:489-494 | a chain of siblings is everything before its last node and that node, found by next alone |
| MenuTree.CutSubmenu | initramfs/buildroot/support/kconfig/menu.c:489-494 | relinking makes exactly the absorbed trees the list of the symbol and leaves the rest as its siblings |
| MenuTree.Splice | initramfs/buildroot/support/kconfig/menu.c:567-577 | flattening a node puts its children right behind it under its own parent |
| MenuTree.Traverse | initramfs/buildroot/support/kconfig/confdata.c:680-735 | the stackless traversal by list, next and parent visits every node below the root exactly in preorder and terminates |
| MenuSpec.AbsorbedBelong | initramfs/buildroot/support/kconfig/menu.c:453-494 | exactly the items that belong below the symbol (Belonging.BelongsExact) are absorbed: each absorbed one does, and the first that is left does not |
| MenuSpec.AbsorbedJustified | initramfs/buildroot/support/kconfig/menu.c:453-494 | so every absorbed item depends on the symbol absolutely or is y only where the prompt above is not n |
| Belonging.TakesExact | initramfs/buildroot/support/kconfig/menu.c:444-494 | a symbol without children takes the item that follows if and only if that belongs below it, judged by the prompt's condition or else the item's own, and stops only at an item that does not |
| Belonging.FinishedTakesNothing | initramfs/buildroot/support/kconfig/menu.c:444-494 | in a finished list nothing is left to take: no item belongs below the symbol right before it, if that had no children of its own |
| Belonging.AbsorbedIsFinished | initramfs/buildroot/support/kconfig/menu.c:444-494 | absorbed items are finished as in their own list: with what is left over they make up the finished list |
| Belonging.DemandTaken | initramfs/buildroot/support/kconfig/menu.c:444-494 | an item that depends absolutely on the symbol before it is absorbed and becomes its first child, whatever the condition of the symbol's prompt |
| Belonging.TakesNothing | initramfs/buildroot/support/kconfig/menu.c:300-446 | a node with children of its own, or without a symbol, takes no following item |
| MenuSpec.FinishOrder | initramfs/buildroot/support/kconfig/menu.c:296-605 | the shape that submenus and flattening give a tree conserves its preorder |
| MenuSpec.FinishFlat | initramfs/buildroot/support/kconfig/menu.c:567-577 | in that shape only nodes with a prompt have children, at every depth |
| Belonging.FinishedChildren | initramfs/buildroot/support/kconfig/menu.c:422-577 | a node with children ends up with exactly those of its finished list of children, those of nodes without a prompt lifted |
| Belonging.FlattenedExact | initramfs/buildroot/support/kconfig/menu.c:567-577 | flattening lifts exactly the children of nodes without a prompt, through any number of such nodes; every other node keeps its children |
| MenuSpec.SpreadPlanned | initramfs/buildroot/support/kconfig/menu.c:342-425 | filling in conditions top down gives every node and property what it inherits from the node that listed it when it was parsed |
| MenuSpec.PlanMeaning | initramfs/buildroot/support/kconfig/menu.c:342-425 | everywhere in the tree a condition is in normal form and is worth the parent's and the own one together |
| Outcome.ChildCondition | initramfs/buildroot/support/kconfig/menu.c:311-373 | at any depth a node's condition is worth the minimum of its own, with the literal m limited by MODULES, and of what its parent gives: the mode of a choice, the condition of a prompt, or else the parent's own condition |
| Outcome.PropertyPlaces | initramfs/buildroot/support/kconfig/menu.c:367-398 | everywhere in the tree a property's condition is, place by place, its node's and its own joined, with FOO in the place of `FOO!=n` exactly for a symbol that is not a tristate |
| Outcome.LiteralLimited | initramfs/buildroot/support/kconfig/menu.c:81-104 | limiting concerns the literal m alone, which is then worth at most what MODULES is worth |
| Outcome.TotalExact | initramfs/buildroot/support/kconfig/menu.c:400-605 | what finalising any list of nodes adds to a dependency of a symbol reaches m, or y, if and only if one node adds that much: by a select or imply of one of its children, as a node of the symbol with a condition and no children, or as a visible choice that is not optional |
| MenuSpec.UnconditionalForgotten | initramfs/buildroot/support/kconfig/menu.c:496 | nodes without a condition are dropped from a symbol's direct dependency instead of making it y: over any list of nodes it means 'some node is reachable' if and only if no node, or every node, is unconditional, or the condition of some node is y |
| MenuSpec.SecondNodeForgotten | initramfs/buildroot/support/kconfig/menu.c:496 | one node depending on S and one on nothing: where S is n, the direct dependency is n although the second node is always reachable |
| MenuSpec.RegisterNodeOnce | initramfs/buildroot/support/kconfig/menu.c:499-540 | however the tree is flattened, every symbol that becomes a value of a choice does so in one choice and once |
| Outcome.RegisterAllVals | initramfs/buildroot/support/kconfig/menu.c:499-540 | a choice gets exactly the symbols among its children that were not values yet, behind those it had, and no other choice gets any |
| Outcome.RegisteredNode | initramfs/buildroot/support/kconfig/menu.c:498-578 | afterwards every symbol directly below a choice, at any depth, is a value of a choice, and only choices have values |
| Finalizing.Finalizer.PropagateTo | initramfs/buildroot/support/kconfig/menu.c:343-400 | a child gets exactly the inherited condition and its own properties theirs, properties elsewhere stay, and selected and implied symbols gain exactly the strongest contribution |
| Finalizing.Finalizer.PropagateAll | initramfs/buildroot/support/kconfig/menu.c:343-400 | every child ends up with what the plan wants, nothing below has changed, and the dependencies of symbols have grown by exactly the children's contributions |
| Finalizing.Finalizer.AbsorbFollowing | initramfs/buildroot/support/kconfig/menu.c:444-494 | the scan, which finalises items as it goes, and the cut move exactly the items that belong below the symbol, in the shape finalising gives them |
| Finalizing.Finalizer.FinalizeChildren | initramfs/buildroot/support/kconfig/menu.c:342-425 | the children inherit, and the loop over them, although each may take following ones below itself, gives exactly the finished list |
| Finalizing.Finalizer.Gather | initramfs/buildroot/support/kconfig/menu.c:300-497 | either the children are finalised or following items are absorbed, exactly as the conditions wanted demand, and the direct dependency grows |
| Finalizing.Finalizer.Flatten | initramfs/buildroot/support/kconfig/menu.c:498-578 | children of nodes without a prompt take their place, exactly and in order, and exactly the nodes then in the list are offered to the choice, in that order; conditions change only by the restrictions that this brings |
| Finalizing.Finalizer.RegisterChoiceValue | initramfs/buildroot/support/kconfig/menu.c:499-540 | a symbol that is not a value yet becomes the last one of the choice above; a non-tristate value of a tristate choice also requires the choice to be y, in its node and in each of its own properties, and nowhere else; otherwise nothing changes |
| Finalizing.RestrictedValue | initramfs/buildroot/support/kconfig/menu.c:520-538 | such a restriction is worth the minimum with 'the choice is y' |
| Finalizing.DirRaises | initramfs/buildroot/support/kconfig/menu.c:496 | with its node's condition joined to it, the direct dependency of a symbol is worth the maximum of what it was and that condition, a missing one counting as n, and no other symbol's changes |
| Finalizing.ModeRaises | initramfs/buildroot/support/kconfig/menu.c:590-604 | the reverse dependency of a choice that is not optional is then worth the maximum of what it was and the minimum of its prompt's visibility and m |
| Finalizing.Finalizer.MenuFinalize | initramfs/buildroot/support/kconfig/menu.c:296-605 | the whole recursion gives the tree exactly the shape that follows from the conditions wanted, leaves on every node and property these conditions with exactly the restrictions that registration brings, registers exactly the values due in order, finalises each node below once and adds exactly its contributions |
| Finalizing.FinalizeAll | initramfs/buildroot/support/kconfig/menu.c:296-605 | from the root, starting with the conditions as parsed: conditions as inherited with exactly the restrictions of non-tristate values of tristate choices, every value in one choice and once, in the order in which flattening meets them, the shape that follows, each node finalised exactly once, the contributions of all selects, implies, direct dependencies and choices and no others, and a traversal afterwards in the order of the files |
| Symbols.StrCmpZero | initramfs/buildroot/support/kconfig/expr.c:1064-1072 | string comparison is zero exactly for equal strings |
| Symbols.EvalAgree | initramfs/buildroot/support/kconfig/expr.c:1026-1104 | an expression depends only on the symbols that occur in it |
| Symbols.StepAgree | initramfs/buildroot/support/kconfig/symbol.c:357-498 | one evaluation of a symbol depends only on its dependencies |
| Symbols.SolutionUnique | initramfs/buildroot/support/kconfig/symbol.c:357-498 | with acyclic dependencies there is at most one assignment of values that every evaluation step confirms |
| Symbols.SolutionExists | initramfs/buildroot/support/kconfig/symbol.c:357-498 | the memo-free recursive evaluation is such an assignment |
| Laws.TristateExact | initramfs/buildroot/support/kconfig/symbol.c:209-447 | in every solution a bool or tristate symbol is at least m if and only if a select, the user within a prompt, or else the first default or an implication raises it to m; and y if and only if one raises it to y, or to m where m does not last |
| Laws.SelectedExact | initramfs/buildroot/support/kconfig/symbol.c:253-442 | in every solution a symbol is at least what selects it, and exactly that, m promoted for what behaves as a bool, where neither the user nor a default nor an implication counts |
| Laws.ImpliedExact | initramfs/buildroot/support/kconfig/symbol.c:243-438 | in every solution, where the user's value does not count, a symbol is at least what implies it if its direct dependency is not n; with a direct dependency at n an implication counts for nothing |
| Laws.BoundsExact | initramfs/buildroot/support/kconfig/symbol.c:209-270 | visibility, select, direct dependency and implication of a symbol reach m or y exactly when some prompt, the select, the dependency or the implication does, m counting as y for what behaves as a bool |
| Laws.TextExact | initramfs/buildroot/support/kconfig/symbol.c:448-467 | in every solution an int, hex or string symbol has the user's text where a prompt shows, else that of the symbol its first default at work names, else none |
| Laws.WrittenExact | initramfs/buildroot/support/kconfig/symbol.c:376-467 | a symbol is marked for writing if and only if it is not automatic and a prompt shows or something besides the user gives it a value |
| Laws.PlainExact | initramfs/buildroot/support/kconfig/symbol.c:14-27 | in every solution y, m and n have their letter and value, what is neither bool nor tristate counts as n, and a symbol without a type has its name for a text |
| Laws.StrCmpExact | initramfs/buildroot/support/kconfig/expr.c:1064-1104 | string comparison is the lexicographic order: less if and only if one text is a proper beginning of the other or has the smaller character where they first differ |
| Laws.RelationsExact | initramfs/buildroot/support/kconfig/expr.c:1074-1104 | the six relations in terms of two |
| Laws.TristatesCompared | initramfs/buildroot/support/kconfig/expr.c:1026-1104 | two bool or tristate symbols are compared by their values, in every solution |
| Laws.LettersByAlphabet | initramfs/buildroot/support/kconfig/expr.c:1051-1072 | compared with the literal n, a bool or tristate symbol is less exactly when it is m |
| Laws.TextsCompared | initramfs/buildroot/support/kconfig/expr.c:1051-1104 | int, hex and string symbols are compared as numbers where both texts are read as such and not both symbols are strings, in a word of 64 bits if one of the two has no sign; else as texts |
| SymEval.Evaluator.CalcExpr | initramfs/buildroot/support/kconfig/expr.c:1026-1104 | evaluation of an expression with its side effects on symbols finds the value that the goal of the run gives it, on every acyclic graph without choices |
| SymEval.Evaluator.GetString | initramfs/buildroot/support/kconfig/symbol.c:803-825 | the string of a symbol under the mode that the goal prescribes; for one at m the modules symbol is evaluated on demand, or seen unfinished |
| SymEval.Evaluator.CalcVisibility | initramfs/buildroot/support/kconfig/symbol.c:209-270 | the four bounds of a symbol in progress get the values of the goal, and its value and write mark are left alone |
| SymEval.Evaluator.FindDefault | initramfs/buildroot/support/kconfig/symbol.c:115-125 | the first default whose condition is not n, as the goal sees it; later conditions are not evaluated |
| SymEval.Evaluator.CalcTristate | initramfs/buildroot/support/kconfig/symbol.c:402-447 | user value within visibility, default, imply and select combine to the value of the goal, with the mark for writing |
| SymEval.Evaluator.CalcText | initramfs/buildroot/support/kconfig/symbol.c:448-467 | the same for int, hex and string symbols |
| SymEval.Evaluator.CalcNew | initramfs/buildroot/support/kconfig/symbol.c:376-498 | a symbol just marked valid is finished: value, bounds and write mark; the modules symbol is seen at n meanwhile |
| SymEval.Evaluator.CalcValue | initramfs/buildroot/support/kconfig/symbol.c:357-498 | the memoised, mutually recursive evaluation terminates on every graph, with cycles, choices and pending choice values, by the pair of pending values and invalid symbols; on acyclic graphs without choices it only adds symbols, with the values, bounds and marks of the goal, changes no valid one, and makes the value of the modules symbol the mode |
| SymEval.Evaluator.FinishChoice | initramfs/buildroot/support/kconfig/symbol.c:467-497 | the end of a choice's evaluation, which may make the choice invalid again, still goes forward: it is pending no longer |
| SymEval.Evaluator.SelectMember | initramfs/buildroot/support/kconfig/symbol.c:304-334 | while evaluating whatever it needs, it selects the user's pick if that is visible, finds a visible member otherwise, and none only if none is visible |
| SymEval.Evaluator.SetAllChoiceValues | initramfs/buildroot/support/kconfig/confdata.c:1136-1154 | unset members become n, the choice counts as set, and is neither valid nor pending |
| SymEval.Evaluator.CalcPending | initramfs/buildroot/support/kconfig/symbol.c:370-375 | a value that is pending has its choice evaluated first and is pending no longer |
| Goals.ReadsSame | initramfs/buildroot/support/kconfig/symbol.c:357-498 | two runs that agree on what one of them reads for a symbol read the same for it and give it the same bounds, value and mark |
| Modules.CalcTop | initramfs/buildroot/support/kconfig/symbol.c:357-498 | one call from outside, with the modules symbol finished: the symbol gets the value of the memo-free definition, and what is valid stays |
| Modules.RunExact | initramfs/buildroot/support/kconfig/symbol.c:803-816 | a run that evaluates the modules symbol finds every value, bound and mark if and only if nothing evaluated for its value changes when all that is m is printed as n |
| Modules.CalcModules | initramfs/buildroot/support/kconfig/symbol.c:357-498 | evaluating a modules symbol that is not valid: everything is found exactly under that condition, the mode then stays, and in any case the symbol gets the value computed with tristates printed as n while it was unfinished |
| Modules.SettlesUnprinted | initramfs/buildroot/support/kconfig/symbol.c:803-816 | the condition holds if neither the modules symbol nor what is evaluated for its value compares anything that is m |
| Modules.SettlesWithoutModules | initramfs/buildroot/support/kconfig/symbol.c:803-816 | and it holds whenever modules are off |
| Modules.UnfinishedPrinted | initramfs/buildroot/support/kconfig/symbol.c:812-816 | an input where it fails: T is m by default and the modules symbol is y by default if T = m; its value should be y and it comes out n |
| Modules.ClearAllValid | initramfs/buildroot/support/kconfig/symbol.c:500-509 | everything is forgotten and the modules symbol evaluated anew: everything is found if and only if the condition holds, and then nothing but found values is left |
| Writing.CalcAll | initramfs/buildroot/support/kconfig/symbol.c:357-498 | with the modules symbol finished, whatever it depends on, any order of evaluation requests on an acyclic graph without choices gives every symbol the value of the memo-free definition |
| Saving.SolutionWellFormed | initramfs/buildroot/support/kconfig/symbol.c:803-825 | the values of every configuration form a well-formed valuation, the assumption of the rewriting passes |
| Saving.DistinctConstants | initramfs/buildroot/support/kconfig/expr.c:991-1024 | no tristate symbol equals two constants if no two of them are read as the same number 0, 1 or 2 or the letter of the same value; this can be checked before the passes are run |
| Saving.DistinctJustWhen | initramfs/buildroot/support/kconfig/expr.c:991-1024 | for the values at hand: constants are distinct if and only if no tristate symbol has a value that two of them denote |
| Saving.AssumptionsHold | initramfs/buildroot/support/kconfig/expr.c:991-1024 | a configuration with a constant besides y, m and n that meets all assumptions |
| Saving.EqualConstantsArise | initramfs/buildroot/support/kconfig/expr.c:531-548 | a configuration in which a tristate at m equals both "1" and "0x1", and the pass over duplicates turns a condition that is n into one that is y |
| Saving.DefaultsAgree | initramfs/buildroot/support/kconfig/symbol.c:732-801 | where no user value is in force, the separate computation of a default gives the string of the evaluated value, for every type |
| Saving.DefaultIsUnset | initramfs/buildroot/support/kconfig/symbol.c:732-801 | the separately computed default of a symbol is the string it would have if the user had not set it, whether or not the user's value counts |
| Saving.AcceptedTakesEffect | initramfs/buildroot/support/kconfig/symbol.c:511-566 | an assignment accepted by the range check is the value after re-evaluation |
| Saving.AcceptedJustWhenEffective | initramfs/buildroot/support/kconfig/symbol.c:511-530 | from the effect: a value is accepted if and only if the bounds leave room, it is within visibility, and the symbol has it after re-evaluation |
| Saving.AcceptedExact | initramfs/buildroot/support/kconfig/symbol.c:511-530 | from prompts and selects: a value is accepted if and only if some prompt allows more than selects force, no select forces more than the value, a prompt allows it, and it is not an m that does not last |
| Saving.OthersKeep | initramfs/buildroot/support/kconfig/symbol.c:532-566 | symbols that do not depend on the assigned one keep their values |
| Saving.ModulesTakeEffect | initramfs/buildroot/support/kconfig/symbol.c:511-566 | an accepted assignment to a bool modules symbol is its value under the new mode, and symbols that depend on no tristate keep theirs, if the symbol itself depends only on such |
| Saving.SameValueMayDrop | initramfs/buildroot/support/kconfig/symbol.c:532-537 | assigning the current value skips the range check; the value then survives if and only if it is not a y that a prompt at m limits, with neither select nor imply at y |
| Saving.CurrentValueDrops | initramfs/buildroot/support/kconfig/symbol.c:532-537 | a configuration in which assigning the current y turns it into m |
| Saving.SelectedStringLost | initramfs/buildroot/support/kconfig/confdata.c:693-697 | a configuration in which a selected string is lost: its user value is in force, is not saved and does not come back |
| Saving.NothingLost | initramfs/buildroot/support/kconfig/confdata.c:667-738 | if no symbol is lost, reading the saved minimum restores every value, by induction over the dependencies |
| Saving.SavedefconfigExact | initramfs/buildroot/support/kconfig/confdata.c:667-738 | the minimum restores every value if and only if no symbol is lost, that is: set automatically, selected as far as it is visible, or without a menu node, while the user's value is in force and not the default |
| Saving.SavedJustWhenNeeded | initramfs/buildroot/support/kconfig/confdata.c:682-718 | a value is saved, or lost, if and only if the symbol would have another one without the user's setting; no value is both |
| Saving.NoLineTooMany | initramfs/buildroot/support/kconfig/confdata.c:667-738 | the minimum is one: where it restores every value, leaving out any line of it changes the value of its symbol |
| Saving.TypedRarelyLost | initramfs/buildroot/support/kconfig/confdata.c:695-697 | with modules off, a bool or tristate symbol is lost only if it is set automatically or has no menu node |
| Saving.LostExact | initramfs/buildroot/support/kconfig/confdata.c:682-718 | a symbol is lost if and only if its user value counts and is not the default, and it is automatic or without a node, or selected as far as any prompt allows, for a text: selected at y |
| Writing.TristateWithinRange | initramfs/buildroot/support/kconfig/symbol.c:511-530 | the check reads the computed bounds only and accepts exactly the values in range; a member of a choice that is visible at y can only become y, and that exactly when no select forces y |
| Writing.SetTristateValue | initramfs/buildroot/support/kconfig/symbol.c:532-566 | without choices accepted if and only if it is the value already or in range, which is Saving.AcceptedJustWhenEffective; a refused call changes nothing, an accepted one sets the user value and nothing else, and a change makes evaluation start afresh towards the new values, if the modules symbol settles under them; the pick of a choice changes only by setting a member to y |
| Writing.PickMember | initramfs/buildroot/support/kconfig/symbol.c:545-562 | setting a member to y picks it, and exactly the choice and its visible members then count as set, with the values they had |
| Writing.SetAndEvaluate | initramfs/buildroot/support/kconfig/symbol.c:532-566 | through the evaluator, for an assignment that leaves the mode as it is and lets the modules symbol settle: the accepted value is the evaluated one, and independent symbols come out as before |
| Writing.DefaultParts | initramfs/buildroot/support/kconfig/symbol.c:744-767 | the part of the default computation that looks at the active default |
| Writing.StringDefault | initramfs/buildroot/support/kconfig/symbol.c:732-801 | computing a default in the middle of a run gives the default string and disturbs no finished symbol |
| Writing.WriteOne | initramfs/buildroot/support/kconfig/confdata.c:682-718 | a menu node is written exactly when its symbol is seen for the first time and worth saving |
| Writing.WriteDefconfig | initramfs/buildroot/support/kconfig/confdata.c:667-738 | if the modules symbol settles, the loop over marks that it clears as it goes writes exactly the saved lines, each symbol at its first node |
| Writing.WriteTree | initramfs/buildroot/support/kconfig/confdata.c:667-738 | the same over a menu tree in traversal order |
| Writing.SaveAndRestore | initramfs/buildroot/support/kconfig/confdata.c:667-738 | writing the minimum, reading it back from nothing and evaluating in any order gives every symbol the value it had, if none is lost and the modules symbol settles before and after |
| ConfLines.UnquoteEscape | initramfs/buildroot/support/kconfig/symbol.c:962-1003 | reading up to the closing quote undoes the escaping, whatever follows |
| ConfLines.EscapeChar | initramfs/buildroot/support/kconfig/symbol.c:962-1003 | wherever a character stands, a quote or a backslash gets a backslash before it and any other is left as it is |
| Reading.UnquoteExact | initramfs/buildroot/support/kconfig/confdata.c:160-175 | text is read up to the next quote without a backslash; a backslash stands for nothing, whatever follows it |
| ConfLines.EscapedSize | initramfs/buildroot/support/kconfig/symbol.c:969-984 | the first pass counts the quoted text and its terminator exactly |
| ConfLines.EscapeStringValue | initramfs/buildroot/support/kconfig/symbol.c:962-1003 | the second pass fills the buffer exactly to its end with the quoted text |
| ConfLines.UnquoteInPlace | initramfs/buildroot/support/kconfig/confdata.c:160-175 | the memmove loop leaves exactly the unescaped text where it stood, and fails exactly when there is no closing quote |
| ConfLines.NotSetRoundTrip | initramfs/buildroot/support/kconfig/confdata.c:312-346 | an 'is not set' line is read back as such |
| ConfLines.AssignedRoundTrip | initramfs/buildroot/support/kconfig/confdata.c:347-380 | an assignment line is read back with its name and text |
| Reading.NotSetExact | initramfs/buildroot/support/kconfig/confdata.c:314-322 | a line is read as `is not set` if and only if it is #, any character, the prefix, a name without a space, a space and these words, whatever follows |
| Reading.AssignedExact | initramfs/buildroot/support/kconfig/confdata.c:347-357 | a line is read as an assignment if and only if it is the prefix, a name without =, = and a text |
| Reading.CutExact | initramfs/buildroot/support/kconfig/confdata.c:352-357 | the text ends before the first line break and a carriage return in front of it |
| Reading.FirstLetter | initramfs/buildroot/support/kconfig/confdata.c:130-153 | of the text for a bool or tristate only the first letter counts: y or n, or m for a tristate; anything else is refused |
| ConfLines.ValidInt | initramfs/buildroot/support/kconfig/symbol.c:599-610 | a text for an int is accepted if and only if it is the decimal form of a natural number or that with a minus sign |
| ConfLines.ValidHex | initramfs/buildroot/support/kconfig/symbol.c:611-619 | a text for a hex is accepted if and only if it is one or more hexadecimal digits, with or without 0x or 0X |
| ConfLines.PrintedForms | initramfs/buildroot/support/kconfig/confdata.c:486-507 | what is printed for each type and value |
| ConfLines.LineRoundTrip | initramfs/buildroot/support/kconfig/confdata.c:486-507 | printing a symbol and reading the line restores the user value meant, for every type and every string without a line break |
| Persistence.ReadSimple | initramfs/buildroot/support/kconfig/confdata.c:250-405 | reading a file forgets the user's values and leaves exactly what its lines say (Reading.ReadLinesExact), later ones winning, wrong types and unknown names ignored, choices updated after each line |
| Persistence.SetChoice | initramfs/buildroot/support/kconfig/confdata.c:381-399 | after a line for a member the choice is exactly at the maximum of its value and the member's, has the member picked at y, and does not count as set after the inconsistent pair of m in y |
| Reading.ReadLinesExact | initramfs/buildroot/support/kconfig/confdata.c:250-405 | by the lines and their indices: a symbol has the value of the last line that gives it one; of a choice the member of the last line that sets one to y is picked, and none without such a line; its tristate is the greatest given to it or a member since it was last set itself; it counts as set unless a line put a member at m while it was at y and it was not set itself since |
| Persistence.SavedPrintable | initramfs/buildroot/support/kconfig/confdata.c:628-647 | what is saved can be printed |
| Persistence.SavedLinesRead | initramfs/buildroot/support/kconfig/confdata.c:667-738 | reading the saved lines gives exactly the user values that restoring needs |
| Persistence.SavedFileExact | initramfs/buildroot/support/kconfig/confdata.c:667-738 | on the level of lines: the file restores every value if and only if no symbol is lost |
| Cycle.Checker.PrintRecursive | initramfs/buildroot/support/kconfig/symbol.c:1128-1204 | the 'unexpected' branch cannot be reached, and what is printed is a cycle of true reasons from the reported symbol back to it |
| Cycle.Checker.CheckExpr | initramfs/buildroot/support/kconfig/symbol.c:1206-1238 | every symbol of an expression is visited, unless a cycle is reported |
| Cycle.Checker.CheckSymDeps | initramfs/buildroot/support/kconfig/symbol.c:1241-1273 | reverse dependencies, conditions and default values are followed, selects are not, and the stack is put back |
| Cycle.Checker.CheckDeps | initramfs/buildroot/support/kconfig/symbol.c:1312-1344 | for symbols outside choices: terminates on every graph; CHECK marks are put back; unless something is reported, the symbol is finished after all it leads to; what is returned is still on the way |
| Cycle.CycleNotAcyclic | initramfs/buildroot/support/kconfig/symbol.c:1128-1204 | a printed report rules out a topological numbering |
| Cycle.SortedAcyclic | initramfs/buildroot/support/kconfig/symbol.c:1312-1344 | the order of finishing is a topological numbering |
| Cycle.Checker.CheckAll | initramfs/buildroot/support/kconfig/zconf.y:553-559 | nothing is reported if and only if the followed edges are acyclic, and each report is a real cycle; yet the error count stays 0, because the outermost call never returns a symbol |
| Cycle.FollowedOrNot | initramfs/buildroot/support/kconfig/symbol.c:1241-1273 | a dependency of the evaluation is followed or comes from an implication or an enclosing menu |
| Cycle.EvaluatedEdges | initramfs/buildroot/support/kconfig/symbol.c:1241-1273 | with the conditions of enclosing menus and the implications added, and without the properties that evaluation ignores, the followed edges are exactly the dependencies of the evaluation |
| Cycle.EvaluationAcyclic | initramfs/buildroot/support/kconfig/symbol.c:1241-1273 | the numbering that evaluation relies on exists if and only if that graph is acyclic, which the search decides |
| Cycle.PassedCheckRanks | initramfs/buildroot/support/kconfig/symbol.c:1241-1273 | a passed check of the graph as it is followed is enough where implications and enclosing menus add no further edge |
| Cycle.ImplyCycleUnseen | initramfs/buildroot/support/kconfig/symbol.c:1249-1268 | implications are not followed: two symbols, with all that the parser makes of `imply` and `depends on`, each depend on the other with nothing reported |
| Cycle.NeedlessReport | initramfs/buildroot/support/kconfig/symbol.c:1249-1268 | conditions that evaluation ignores are followed: a cycle can be reported although evaluation has none |
| Choices.SelectedShown | initramfs/buildroot/support/kconfig/symbol.c:278-334 | selection finds a visible member if and only if there is one |
| Choices.SelectionOrder | initramfs/buildroot/support/kconfig/symbol.c:278-334 | the precedence: a shown pick of the user is selected; without one the target of the default with the least index among those whose condition is not n and whose target is shown; without any the member shown with the least index; else none |
| Choices.ShownExact | initramfs/buildroot/support/kconfig/symbol.c:216-235 | a member is shown at t if and only if one of its prompts is worth t, not counting a prompt at m of a tristate member in a choice at y |
| Choices.LevelExact | initramfs/buildroot/support/kconfig/symbol.c:402-447 | the mode of a choice is t if and only if a select, or the user within a prompt, raises it to t, m counting as y for what behaves as a bool; a choice at y in which nothing is shown becomes n |
| Choices.MemberExact | initramfs/buildroot/support/kconfig/symbol.c:402-447 | a member shown at y is y or n as it is selected or not; any other has what the user within a prompt, or else its first default at work, gives it |
| Choices.ShownTwoValued | initramfs/buildroot/support/kconfig/symbol.c:221-235 | in a choice at y a member is visible at y or not at all |
| Choices.SelectedIsYes | initramfs/buildroot/support/kconfig/symbol.c:405-411 | in a choice at y the selected member is y |
| Choices.ChoiceExclusive | initramfs/buildroot/support/kconfig/symbol.c:405-447 | whatever the conditions are: all other members are n if and only if no hidden member has a default at work |
| Choices.NoDefaultsExclusive | initramfs/buildroot/support/kconfig/symbol.c:405-447 | without defaults on members exactly the selected one is y and all others are n, for bool and tristate members and any conditions |
| Choices.TwoMembersYes | initramfs/buildroot/support/kconfig/symbol.c:412-432 | a hidden member with a default is y beside the selected one |
| Choices.Group.CalcVisibility | initramfs/buildroot/support/kconfig/symbol.c:209-241 | the visibility of a member, evaluating the conditions of its prompts and with them the choice, gets the value that it has under the mode of the choice |
| Choices.Group.CalcChoice | initramfs/buildroot/support/kconfig/symbol.c:467-469 | the choice, evaluated by itself or because a condition of a member mentions it, gets its mode and its selected member, and goes on counting as set exactly if it did and, at y, the user has set every member shown |
| Choices.Group.CalcExpr | initramfs/buildroot/support/kconfig/expr.c:1026-1104 | an expression over the choice and symbols outside gets its value under the mode the choice ends up with, and the choice is evaluated if and only if it was or is mentioned |
| Choices.Group.SelectMember | initramfs/buildroot/support/kconfig/symbol.c:304-334 | a shown pick of the user, else a default of the choice, else the first member shown (Choices.SelectionOrder), else the choice becomes n; the choice goes on counting as set exactly if the user has set every member shown |
| Choices.Group.CalcMember | initramfs/buildroot/support/kconfig/symbol.c:402-447 | a member gets its value from evaluated prompts and defaults, whether or not the choice was evaluated before |
| Choices.Group.CalcAll | initramfs/buildroot/support/kconfig/symbol.c:357-498 | every order of evaluating the choice and its members gives the same values |
| Crc.RegisterIsRemainder | initramfs/buildroot/package/mkpimage/mkpimage.c:150-158 | a bit-serial register holds the remainder of long division of the message followed by 32 zeros, with the initial register added at the front |
| Crc.BitsDetermine | initramfs/buildroot/package/mkpimage/mkpimage.c:150-158 | the remainder determines the register |
| Crc.RegisterAppend | initramfs/buildroot/package/mkpimage/mkpimage.c:150-158 | the register composes over concatenation of bit strings |
| Crc.Composes | initramfs/buildroot/package/mkpimage/mkpimage.c:150-158 | the checksum composes over concatenation of buffers |
| Crc.TableIsRight | initramfs/buildroot/package/mkpimage/mkpimage.c:104-148 | each of the 256 entries is the remainder of its index |
| Crc.ByteStep | initramfs/buildroot/package/mkpimage/mkpimage.c:150-158 | feeding a byte bit by bit is feeding it at once and dividing eight times |
| Crc.TableStep | initramfs/buildroot/package/mkpimage/mkpimage.c:154-155 | one table look-up is eight steps of the register, for every register and byte |
| Crc.Crc32 | initramfs/buildroot/package/mkpimage/mkpimage.c:150-158 | the loop yields the remainder for every buffer, length and starting register |
| Crc.AddChecksum | initramfs/buildroot/package/mkpimage/mkpimage.c:249-252 | for a size that is a multiple of 4 the last word becomes the complemented remainder of everything before it, and the trailer changes no other byte; every other size, 1 to 3 included, is refused and changes nothing |

## Left out

- Allocation, freeing and sharing of expression nodes: two `struct expr **` into one tree are two paths of one tree variable, so aliasing is modelled, reuse of freed nodes and expressions shared by several owners are not.
- `E_LIST`, `E_RANGE`, `E_NONE` and symbols of type `S_OTHER`, which arise from a foreign configuration file; for the latter `AllOrdered` is assumed of valuations.
- Debug printing in the rewriting passes, warnings, `SYMBOL_CHANGED`, `MENU_CHANGED` and change counts.
- Type inference for choices and their values, and the checks that only warn, in `menu_finalize`.
- Ranges: `sym_validate_range`, `sym_string_within_range`; the source itself ignores them for defaults.
- Library number parsing: `strtoll` and `strtoull` are a parameter of the model.
- SymEval.Evaluator.CalcValue: agreement with the memo-free definition is stated without choices. With choices termination is stated; what values they get is stated in the module Choices.
- Modules.CalcModules: starts with the mode equal to the value that the modules symbol is to get; a run in which the mode changes is not covered, because the source does not re-evaluate symbols finished under the old mode.
- Matching.EqualJustMatching: y and n as operands are excluded, because with them equality is not transitive (Matching.ConstantsNotTransitive); the passes over duplicates remove them first.
- Belonging.SupersetExact: prepared conditions without y and n as operands only, for the same reason.
- Belonging.BelongsExact: the same; the absolute part of the rule is stated for all conditions by Belonging.DemandBelongs and Belonging.DemandTaken.
- Reading.ReadLinesExact: choices are symbols that are not members of choices, as the parser has it.
- Setting `SYMBOL_NEED_SET_CHOICE_VALUES` (confdata.c:1260-1266) and the rest of `conf_set_all_new_symbols`: which values are pending is a field of the evaluator that may hold anything.
- Choices.Group.CalcVisibility: conditions are expressions over the choice itself and over symbols whose values do not depend on it; those values are given, and SymEval says how they are found. That a member's prompt mentions its choice, or is n while the choice is, comes from the inherited condition (Conditions.InheritValue).
- Choices.Group.CalcMember: reverse dependencies and implications of members stay n, as the source never computes them for choice values.
- Cycle.Checker.CheckDeps: choices and their values, which the source checks as one group, are not part of the graph.
- Writing.SetTristateValue: what setting a member of a choice does is stated by PickMember; that the result is in force after evaluation is stated without choices only.
- Writing.SetAndEvaluate: an assignment to the modules symbol that changes the mode is not covered; Saving.ModulesTakeEffect states what its values are, not that one run of evaluation finds them. Where the modules symbol does not settle nothing is stated about the other symbols.
- Saving.ModulesTakeEffect: for a modules symbol whose own conditions depend on tristates nothing is stated.
- Saving.SavedefconfigExact: choices are left out of the configuration that is saved.
- Persistence.ReadSimple: looking up a name is a parameter; automatic definitions (`S_DEF_AUTO`), overriding warnings and what `conf_read` does after reading are not modelled.
- ConfLines.LineRoundTrip: a value with a line break is excluded, because the reader works line by line.
- `conf_write`'s headings, comments and file handling; the traversal is the one modelled.
- Header output, `tristate` output, autoconf, the front ends, regular expression search, help texts, `expr_print` and the parser.
- Crc.AddChecksum: covers the size check and the trailer of `add_socfpga_header`; the header fields, the header checksum and the trampoline written before it (mkpimage.c:188-247) are not modelled. A little-endian host is assumed for the word that is stored.
- Option parsing and file input and output of mkpimage.
