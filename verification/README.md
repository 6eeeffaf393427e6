# A verified model of everythingnet

everythingnet is a mesh of nodes that tell each other which nodes exist, and a build configured with a
Kconfig descended from the Linux kernel's. This project models the parts of the repository whose
correctness is not visible from one function, and proves what they promise. `dafny verify dfyconfig.toml`
checks everything.

## The parts

**Dependency expressions** (`Expressions`, `Slots`, `Equality`, `Transformation`, `Joins`, `Dups`,
`SameOperands`, `DupsExample`, `ExprTrees`, `Compare`, `NestingExample`, `PrintParse`). Conditions are trees
over the three values n < m < y. The meaning is `Calc`, the model of `expr_calc_value`, in an environment; an environment is
*well typed* when no boolean symbol is m. Every rewriting of `scripts/kconfig/expr.c` is modelled and
related to that meaning. The duplicate elimination works on two slots that may be the same tree; slots
are paths into one tree, and the class `ExprTree` does the rewriting in place. One rewriting is not exact:
where the value was m it may become something else (`DupsExample` gives an input). What holds
for all inputs is that y and n never change. An m is lost by contradictions only: if the second pass finds
none in any round nothing changes at all, and if it finds one at the outermost connective the result is
a constant. `SameOperands` says by the operands alone which expressions `expr_eq` equates, what two
expressions have in common, and what contradicts what.

**Symbols** (`SymbolTables`, `DependencyCheck`, `ChoiceDependencies`, `Evaluation`, `SymbolValues`,
`ModulesValue`, `Evaluators`, `ModulesExample`, `Choices`, `Configuration`). The search for recursive dependencies marks symbols in place; evaluation is memoised by a VALID mark.
Both are classes. The plain recursive definition of a symbol's value is a predicate on whole assignments
(`Solution`); on an acyclic table it has exactly one for each value of `modules_val`, and evaluation in any
order finds it. `SymbolValues` says what it means for one symbol: which of user value, default and select
counts. `ModulesValue` treats the value of MODULES, which takes part in its own evaluation. `Choices`
treats exclusive choices, whose members and choice symbol evaluate each other.

**The menu tree** (`Menus`, `Nesting`, `MenuConditions`, `MenuTrees`). `menu_finalize` passes conditions down,
moves following entries under the symbol they depend on, and lifts the children of entries without a
text. `Menus` describes the result on values, `Nesting` says which siblings a symbol takes and where it
stops, `MenuConditions` says what the resulting conditions and
the resulting nesting mean, and `MenuTrees` relinks list, next and parent pointers in place and walks
the result as `conf_write` does.

**The node list** (`Endian`, `Words`, `EntryLayout`, `EntryWriting`, `EntrySwap`, `ListSwap`, `NetworkOrder`,
`LocalEntry`, `NodeLists`, `Gossip`, `Networks`). A node entry is a packed record whose field positions are computed
with alignment macros.
Lists of entries are converted to network order and back in place. `Gossip` is the protocol as a system
of broadcast and deliver steps; `KnowledgeIsCausalPast` says exactly which nodes a node knows after any run:
its causal past. `NodeLists` makes, sends, receives and merges lists byte by byte, and `Networks` proves that
any run of such nodes, from `NODE_Init` on, is a run of `Gossip`.

**Formatted output** (`IntegerText`, `Printf`, `Conversions`). The integer, `%c`, `%s` and `%%` conversions
of the printf engine into a bounded buffer, against a definition of the whole output that knows no buffer;
`Conversions` says what letters, flags, width and precision mean in that output.

**Two scanners** (`Fixdep`, `SavedConfig`). The dependency scanner of the build, and the lines of a saved
configuration with the escaping of strings.

## Reading notes

- A missing expression (a null pointer) means y; it is `None`.
- A symbol is compared by identity, as the source compares pointers. A quoted constant other than
  "y", "m", "n" carries all three constant bits, as `sym_lookup` with `isconst` sets them; therefore
  `__expr_eliminate_eq` never cancels it, and `expr_eq` is not reflexive on such operands
  (`QuotedOperandNotReflexive`).
- `expr_trans_compare` is documented as a comparison with a tristate constant. With y or n it compares not
  the value but a reading of the expression, in which a negation of m counts as the constant
  (`TransCompareReads`). It is right exactly unless the value is m and read as the constant
  (`TransCompareExact`; `TransCompareWrongAtMod` gives an input, `TransCompareNeedsLogic` another kind).
  The nesting test of `menu_finalize` inherits this (`NotNoValue`, `NestingSound`, `NestingFailsAtMod`).
- `menu_finalize` can nest a visible entry below an invisible one when a symbol without a prompt stands
  between them: such a symbol takes every follower that mentions it (`PromptlessTakes`,
  `HiddenSymbolNests`, `HiddenSymbolShows`). `NestingJustified` states what remains true: an entry that is
  seen stands in an open place or mentions the symbol that let it pass.
- `sym_clear_all_valid` evaluates MODULES, and what it depends on, with the `modules_val` of before, and
  the rest follows with the new one (`ClearAndEvaluate`). This is one configuration if no tristate that
  MODULES depends on, nor MODULES itself, is m (`AgreeExactly`); otherwise a tristate that selects MODULES
  can keep a value for modules being off until the next call (`ModulesExample.ClearTwice`).
- `ENTRY_CALC_SIZE` is cut to 16 bits. An entry of 64 KiB or more would be given a size that is too small
  and would be no entry of a list (`LocalIsEntry`); the buffer of 4096 bytes in `NODE_Init` excludes it.
- The precision of an integer conversion is ignored when the text is left-justified, as the code does
  and section 7.21.6.1 of ISO/IEC 9899:2011 does not. Digits that fill the buffer displace the sign
  (`IntTextExactly`).
- `parse_config_file` goes on one character behind the beginning of a name it has recorded, so it may
  also record the tail of a name that contains a second prefix. It never misses one.

## Model

| member | source | states |
|---|---|---|
| Expressions.CalcDependsOnSymbols | scripts/kconfig/expr.c:942-981 | the value of an expression depends on the mentioned symbols only |
| Expressions.TwoValued | scripts/kconfig/expr.c:942-981 | if no mentioned symbol is m, no value is |
| Slots.PutApart | scripts/kconfig/expr.c:508-558 | overwriting one slot of a tree leaves every slot apart from it unchanged |
| Slots.Split | scripts/kconfig/expr.c:508-558 | the value of a connective tree is the value of one operand combined with the tree in which that operand is the unit |
| Equality.EliminateYnValue | scripts/kconfig/expr.c:235-316 | folding constants keeps the value in every environment |
| Equality.EliminateYnFolds | scripts/kconfig/expr.c:235-316 | folding removes every constant y and n below connectives and is the identity exactly on what has none |
| Equality.EliminatePairsValue | scripts/kconfig/expr.c:135-166 | cancelling common operands takes the same value out of both expressions |
| Equality.EliminateEqValue | scripts/kconfig/expr.c:168-188 | both expressions are one monotone function of what is left of them, across the AND and the OR pass |
| Equality.EqSound | scripts/kconfig/expr.c:193-233 | expressions found equal have equal values in every environment |
| Equality.EqReflexive | scripts/kconfig/expr.c:193-233 | an expression without quoted operands equals itself |
| Equality.QuotedOperandNotReflexive | scripts/kconfig/expr.c:147-149 | an expression with quoted operands that does not equal itself |
| Equality.EliminateEqImplication | scripts/kconfig/expr.c:168-188 | if y is left of the second expression, the first is at most the second in every environment |
| SameOperands.EqIsShape | scripts/kconfig/expr.c:193-233 | two expressions without y, n and quoted operands are found equal if and only if they differ in nothing but order and grouping of operands, at every depth |
| SameOperands.EqOfTrees | scripts/kconfig/expr.c:193-233 | with y and n among the outermost operands: if and only if both contain the deciding constant, or neither does and the other operands are the same |
| SameOperands.EqCommutes | scripts/kconfig/expr.c:193-233 | in particular the order of two operands does not matter |
| SameOperands.EqRegroups | scripts/kconfig/expr.c:193-233 | nor does the grouping of three |
| SameOperands.ImpliedExactly | scripts/kconfig/expr.c:168-188 | cancelling two conjunctions leaves y of the second if and only if all its operands are among those of the first |
| SameOperands.ExtractEqExactly | scripts/kconfig/expr.c:852-879 | extraction moves exactly the operands both sides have, as often as both have them, and leaves the others |
| SameOperands.ContradictsExactly | scripts/kconfig/expr.c:578-593 | an operand is contradicted if and only if all operands of its transformed negation stand beside it |
| SameOperands.NoDuplicateLeft | scripts/kconfig/expr.c:616-638 | in the result of expr_eliminate_dups no two operands differ only in order and grouping |
| Transformation.DeMorgan | scripts/kconfig/expr.c:720-737 | negating the operands of a negated connective lowers the measure by which expr_transform terminates |
| Transformation.TransformValue | scripts/kconfig/expr.c:640-775 | the transformation keeps the value in every well-typed environment |
| Transformation.TransformNormal | scripts/kconfig/expr.c:640-775 | negation is left on symbols other than n, m, y only, and no boolean is compared with these |
| Transformation.NormalFixed | scripts/kconfig/expr.c:640-775 | the normal forms are exactly the fixed points of the transformation |
| Transformation.TransformLogic | scripts/kconfig/expr.c:640-775 | the transformation introduces no operand that is not a logic symbol |
| Transformation.TransformNeedsWellTyped | scripts/kconfig/expr.c:658-701 | where a boolean is m the rule for comparing it with m is wrong |
| Transformation.TransformInPlace | scripts/kconfig/expr.c:640-775 | every operand stays in its place, but for constants found out |
| Joins.JoinOrValue | scripts/kconfig/expr.c:350-412 | a joined pair of operands of OR has the value of the pair |
| Joins.JoinAndValue | scripts/kconfig/expr.c:414-506 | a joined pair of operands of AND has the value of the pair |
| Joins.JoinShape | scripts/kconfig/expr.c:350-506 | a join yields its first operand, a symbol or a comparison, and keeps the normal form |
| Joins.ConjunctionOfComparisonsJoins | scripts/kconfig/expr.c:350-506 | two comparisons of a tristate with constants join exactly unless they demand different values (AND), or exactly if equal or both equalities (OR) |
| Joins.AtomsJoinOr | scripts/kconfig/expr.c:350-412 | two operands about one symbol, negated or compared with constants or not, join under OR exactly if equal, two equalities of a tristate, or a boolean and its negation |
| Joins.AtomsJoinAnd | scripts/kconfig/expr.c:414-506 | and under AND exactly if equal, the symbol and a comparison that demands y or excludes n or m, or two comparisons of a tristate not both equalities |
| Joins.JoinResults | scripts/kconfig/expr.c:350-506 | what they join to: a boolean and its negation to y, two equalities of a tristate to the inequality with the third value, the symbol and a comparison to whichever says more |
| Dups.ExtractEqValue | scripts/kconfig/expr.c:852-879 | extracting common operands keeps the value of common op rest for both arguments |
| Dups.ExtractCommonValue | scripts/kconfig/expr.c:830-850 | before = common op after, for both arguments |
| Dups.MergeAtValue | scripts/kconfig/expr.c:534-555 | merging two operands into the second slot keeps the value of the tree |
| Dups.MergeAtSlots | scripts/kconfig/expr.c:534-555 | a merge leaves the unit in the first slot, the joined operand in the second, and every other slot as it was |
| Dups.Dups1Value | scripts/kconfig/expr.c:508-558 | the first pass, on two slots of one tree that may coincide, keeps the value exactly |
| Dups.Dups1Shrinks | scripts/kconfig/expr.c:508-558 | a counted change of the first pass leaves a constant to fold, never more operands, and the normal form |
| Dups.ContradictAtValue | scripts/kconfig/expr.c:578-611 | a contradicted operand means the whole was m or decided already, and replacing it decides the whole |
| Dups.ContradictAtSlots | scripts/kconfig/expr.c:578-611 | a contradiction leaves the deciding constant in the first slot and every other slot as it was |
| Dups.Dups2Value | scripts/kconfig/expr.c:560-614 | the second pass changes the value only where it was m |
| Dups.Dups2Drops | scripts/kconfig/expr.c:560-614 | a counted change of the second pass leaves strictly fewer operands |
| Dups.RoundProgress | scripts/kconfig/expr.c:616-638 | a round that counts a change, followed by folding, lowers the number of operands, so the loop ends |
| Dups.EliminateDupsValue | scripts/kconfig/expr.c:616-638 | in every well-typed environment a value of y or n is unchanged |
| Dups.EliminateDupsExact | scripts/kconfig/expr.c:616-638 | with two-valued symbols the value is exactly preserved, contradictions or not |
| Dups.UncontradictedExact | scripts/kconfig/expr.c:616-638 | if the second pass counts nothing in any round, every value is exactly preserved, m included |
| Dups.TopFiresValue | scripts/kconfig/expr.c:560-614 | a contradiction between operands of the connective decides the value of the whole, whatever the pass does before and after it |
| Dups.ContradictedValue | scripts/kconfig/expr.c:616-638 | a contradiction on top in some round makes the result one constant in every environment, so the value is kept exactly where it was not m |
| Dups.EliminateDupsForm | scripts/kconfig/expr.c:616-638 | the normal form of expr_transform survives |
| Dups.EliminateDupsFixed | scripts/kconfig/expr.c:616-638 | the result is a fixed point of a round and of the whole elimination |
| Dups.EliminateDupsFinished | scripts/kconfig/expr.c:616-638 | in the result no two operands of a connective join and no operand is contradicted by another, at every depth |
| DupsExample.EliminateDupsChangesMod | scripts/kconfig/expr.c:578-593 | an input whose value changes from m to n |
| ExprTrees.ExprTree.EliminateDups1 | scripts/kconfig/expr.c:508-558 | the in-place first pass does to the slots, and to trans_count, what the function describes |
| ExprTrees.ExprTree.MergeSlots | scripts/kconfig/expr.c:534-555 | the in-place merge of two slots of one tree |
| ExprTrees.ExprTree.EliminateDups2 | scripts/kconfig/expr.c:560-614 | the in-place second pass does to the slots, and to trans_count, what the function describes |
| ExprTrees.ExprTree.EliminateDups | scripts/kconfig/expr.c:616-638 | the loop ends with the described tree and restores trans_count |
| Compare.TransBoolKeepsNo | scripts/kconfig/expr.c:321-345 | on normal forms the rewriting keeps whether the value is n |
| Compare.TransBoolNeedsNormal | scripts/kconfig/expr.c:321-345 | under a negation it would not |
| Compare.TransBoolRemoves | scripts/kconfig/expr.c:321-345 | no tristate is compared with n for inequality afterwards, and nothing else changes |
| Compare.ReadAsAgrees | scripts/kconfig/expr.c:881-940 | the reading that the comparison sees differs from the value only where that is m |
| Compare.TransCompareReads | scripts/kconfig/expr.c:881-940 | the rewritten comparison with y or n compares the reading, for both polarities |
| Compare.TransCompareExact | scripts/kconfig/expr.c:881-940 | it compares the value rightly if and only if the value is not m or the m is not read as the constant |
| Compare.TransCompareValue | scripts/kconfig/expr.c:881-940 | the comparison with y or n is two-valued; it is right where the value is y or n, and where no negated part is m |
| Compare.TransCompareWrongAtMod | scripts/kconfig/expr.c:892-913 | a negated tristate at m is compared wrongly |
| Compare.TransCompareNeedsLogic | scripts/kconfig/expr.c:932-933 | an operand that is no logic symbol is compared by its string |
| Compare.TransCompareMod | scripts/kconfig/expr.c:881-940 | comparing with m: right for symbols and comparisons, reversed for a negation, and no comparison at all for connectives |
| Compare.ContainsIsMentions | scripts/kconfig/expr.c:777-799 | the containment test is exact |
| Compare.DependsSymbolSound | scripts/kconfig/expr.c:801-828 | a dependency found to depend on a logic symbol is n whenever the symbol is, and contains it |
| Compare.DependsSymbolComplete | scripts/kconfig/expr.c:801-828 | a conjunction of symbols and comparisons with constants, all else y, is n where the symbol is n if and only if it is found to depend on it |
| Compare.NotNoValue | scripts/kconfig/menu.c:259-270 | the simplified "is not n" of menu_finalize says whether the reading is n, and whether the value is n exactly unless an m is read as n |
| Compare.NotNoForm | scripts/kconfig/menu.c:259-270 | it is in normal form, with nothing left to merge or to contradict |
| Compare.NestingSound | scripts/kconfig/menu.c:263-278 | in every well-typed environment an accepted follower that is not read as n implies a prompt not read as n; a follower not n implies a visible prompt unless it is an m read as n |
| NestingExample.NestingFailsAtMod | scripts/kconfig/menu.c:263-278 | a follower accepted by the nesting test that is m where the prompt is n |
| PrintParse.LeftAssociatedValue | scripts/kconfig/zconf.y:80-83 | left association keeps the value and the symbols |
| PrintParse.RoundTrip | scripts/kconfig/expr.c:1015-1079 | parsing the printed tokens with the grammar's precedences gives the left-associated expression exactly if no symbol is quoted, and then the same value |
| PrintParse.ParenthesesNeeded | scripts/kconfig/expr.c:985-1079 | as many parentheses are printed as operands would be taken apart without them: a connective under !, an OR under AND |
| DependencyCheck.RankedIsAcyclic | scripts/kconfig/symbol.c:790-829 | the order in which symbols are finished excludes every cycle |
| DependencyCheck.Checker.CheckDeps | scripts/kconfig/symbol.c:790-829 | one search: what it reports is a cycle, and if nothing was ever reported the symbol is finished after all it depends on |
| DependencyCheck.Checker.CheckAll | scripts/kconfig/zconf.y:473-476 | something is reported if and only if the followed edges have a cycle, each report is a real cycle, and every CHECK mark is cleared |
| ChoiceDependencies.FollowedExactly | scripts/kconfig/symbol.c:790-829 | the symbols followed: those mentioned by selects of the symbol, by conditions of its prompts and defaults, and, unless it is a choice, by the values of its defaults |
| ChoiceDependencies.ChoiceValuesHarmless | scripts/kconfig/symbol.c:806-818 | what the defaults of choices name makes or breaks no cycle |
| ChoiceDependencies.CheckBoth | scripts/kconfig/zconf.y:473-476 | two tables that differ only in that draw the same warning |
| ChoiceDependencies.CheckChoice | scripts/kconfig/zconf.y:473-476 | a choice with any members as defaults, and members that depend on it, draw no warning |
| Evaluation.SettleAgrees | scripts/kconfig/symbol.c:262-361 | the value of a symbol depends on the symbols it mentions only |
| SymbolValues.VisibleByPrompts | scripts/kconfig/symbol.c:193-210 | a symbol is visible as the highest condition of its prompts, m counting as y unless it is a tristate with modules on |
| SymbolValues.RevBySelects | scripts/kconfig/symbol.c:211-220 | and selected as the condition of its selects, likewise |
| SymbolValues.LogicByPriority | scripts/kconfig/symbol.c:299-325 | a shown boolean or tristate has the user's value between selects and visibility; without it, shown or not, the first default that applies; without that, what selects demand |
| SymbolValues.TextByPriority | scripts/kconfig/symbol.c:326-348 | a visible string has the user's value; otherwise the first default that applies gives the string of the symbol it names; otherwise it is empty |
| Evaluation.HoldingUnique | scripts/kconfig/symbol.c:262-361 | on an acyclic table, states in which some symbols are held and the others follow by the recursive definition are unique |
| Evaluation.HoldingExists | scripts/kconfig/symbol.c:262-361 | and they exist |
| Evaluation.SolutionUnique | scripts/kconfig/symbol.c:262-361 | on an acyclic table the recursive definition has at most one solution |
| Evaluation.SolutionExists | scripts/kconfig/symbol.c:262-361 | and at least one |
| ModulesValue.AgreeExactly | scripts/kconfig/symbol.c:76-88 | the solutions for two values of modules_val agree on a closed set of symbols if and only if both values are n, or neither, or no tristate of the set is visible, selected or set as m |
| ModulesValue.ConfiguredUnique | scripts/kconfig/symbol.c:355-381 | without tristates below MODULES there is at most one pair of modules_val and solution in which MODULES has that value |
| Evaluators.LogicBounded | scripts/kconfig/symbol.c:306-324 | promoting m to y keeps the select and visibility bounds |
| Evaluators.Evaluator.SymCalcValue | scripts/kconfig/symbol.c:262-369 | on any graph: ends, keeps evaluated symbols, and respects select and visibility bounds; on an acyclic graph: gives the value of the recursive definition for the current modules_val, MODULES included, and then stores modules_val |
| Evaluators.Evaluator.CalcVisibility | scripts/kconfig/symbol.c:193-221 | visible and rev_dep.tri of a symbol |
| Evaluators.Evaluator.CalcExpr | scripts/kconfig/expr.c:942-981 | evaluating the mentioned symbols on the way gives the expression's value |
| Evaluators.Evaluator.ClearAllValid | scripts/kconfig/symbol.c:371-381 | afterwards only MODULES and symbols it depends on are valid, with the values of the recursive definition for the old modules_val, and modules_val is the value of MODULES |
| Evaluators.Evaluator.EvaluateAll | scripts/kconfig/symbol.c:262-369 | any symbols in any order get the values of the recursive definition, in which those already valid are held |
| Evaluators.Evaluator.ClearAndEvaluate | scripts/kconfig/symbol.c:262-381 | from any state and any modules_val: MODULES and some symbols below it have their values for the old modules_val, all others follow from these with the new one, in any order; one configuration if modules were on before as after, or off before as after, or no tristate below MODULES is m |
| ModulesExample.ClearTwice | scripts/kconfig/symbol.c:371-381 | a tristate at m that selects MODULES is left at y by the first sym_clear_all_valid, which no solution for the new modules_val gives it, and at m by the second |
| Configuration.SolutionWellTyped | scripts/kconfig/symbol.c:323-324 | booleans are never m, so the rewriting theorems apply |
| Configuration.SolutionBounded | scripts/kconfig/symbol.c:306-324 | rev_dep <= value <= max(visible, rev_dep) whenever that maximum is not n |
| Configuration.TransformKeepsSolution | scripts/kconfig/menu.c:231-255 | passing every condition, those of selects included, through expr_transform leaves the solutions as they are, in both directions |
| Configuration.TransBoolKeepsVisibility | scripts/kconfig/menu.c:246-247 | expr_trans_bool leaves the visibility of a symbol that is no tristate unchanged |
| Configuration.CheckAndEvaluate | scripts/kconfig/zconf.y:463-476 | a quiet check means: without tristates below MODULES there is exactly one configuration, and clearing and evaluating in any order finds it; with them, the values for modules off where MODULES needs them and what follows for the value MODULES then has, one solution if no such tristate is m |
| Choices.TakesUnique | scripts/kconfig/symbol.c:223-260 | user choice, else first visible default, else first visible member names at most one member |
| Choices.ClosedHides | scripts/kconfig/menu.c:225-235 | members of a choice that is n are invisible |
| Choices.OwnValueByPriority | scripts/kconfig/symbol.c:306-324 | a choice has the user's value between its selects and its visibility, and no default |
| Choices.ChoiceGroup.CalcChoice | scripts/kconfig/symbol.c:223-260 | the member taken, or none and the choice reset to n exactly if no member is eligible |
| Choices.ChoiceGroup.CalcVisibility | scripts/kconfig/symbol.c:193-210 | visibility of a member, which evaluates the choice on the way |
| Choices.ChoiceGroup.CalcChoiceValue | scripts/kconfig/symbol.c:262-352 | the choice is settled, also when its members are evaluated in between |
| Choices.ChoiceGroup.CalcMember | scripts/kconfig/symbol.c:303-305 | a member is y exactly if the choice is y and takes it, whether the choice was evaluated before or not |
| Choices.ChoiceGroup.EvaluateAll | scripts/kconfig/symbol.c:262-369 | in any call order: a choice that is y has exactly one member that is y, an eligible one; otherwise all are n |
| Menus.FinalizeOrder | scripts/kconfig/menu.c:205-324 | finalizing one entry, whatever siblings it takes, keeps the pre-order sequence of entries and their conditions |
| Menus.TakeOrder | scripts/kconfig/menu.c:258-289 | so does the loop that takes followers |
| Menus.LiftOrder | scripts/kconfig/menu.c:314-323 | and the loop that lifts children |
| Menus.FinalizeRoot | scripts/kconfig/menu.c:205-324 | menu_finalize on the root: every entry once, in the order read, with the conditions of the tree as read |
| Menus.FinalizePresents | scripts/kconfig/menu.c:314-323 | afterwards only entries with a prompt text have children |
| Nesting.TakesWhatBelongs | scripts/kconfig/menu.c:258-289 | the siblings taken are exactly those up to the first that does not mention the symbol, or neither depends on it nor implies its prompt |
| Nesting.FinalizeNests | scripts/kconfig/menu.c:205-324 | after finalizing a symbol without children its next sibling, if there is one, fails the test; one that passed is its first child |
| Nesting.FinalizeAllNests | scripts/kconfig/menu.c:254-257 | the same for a symbol in a list all of whose entries are finalized |
| Nesting.LiftPlaces | scripts/kconfig/menu.c:314-323 | an entry with a text keeps its children, one without leaves them to its list |
| MenuConditions.InheritValue | scripts/kconfig/menu.c:231-255 | without m, a rewritten condition is the conjunction of the parent's demand, the dependency and the prompt's own condition |
| MenuConditions.InheritForm | scripts/kconfig/menu.c:231-255 | rewritten conditions have nothing left to merge, and those of prompts of symbols that are no tristates compare no tristate with n for inequality |
| MenuConditions.RestrictPlain | scripts/kconfig/menu.c:232-243 | where nothing merges, the parent's demand stands in front of the entry's own condition |
| MenuConditions.FinalizeConditions | scripts/kconfig/menu.c:205-324 | without m, the condition of every entry is the conjunction of all conditions on its path in the tree as read |
| MenuConditions.InheritHides | scripts/kconfig/menu.c:231-255 | in every well-typed environment a rewritten condition is n where the parent's demand, the dependency or the prompt's own condition is, and stays in normal form |
| MenuConditions.FinalizeHides | scripts/kconfig/menu.c:205-324 | in every well-typed environment: an n on the path of an entry in the tree as read is an n in its final condition |
| MenuConditions.FollowsOpens | scripts/kconfig/menu.c:258-278 | in every well-typed environment a follower that is seen makes the entry taking it open, or that entry's symbol has no prompt or is not logic and is mentioned in the follower's condition |
| MenuConditions.NestingJustified | scripts/kconfig/menu.c:205-324 | after menu_finalize, in every well-typed environment, every entry seen stands below or, lifted, behind an open entry, or mentions the symbol of a prompt-less one it stands below or behind |
| MenuConditions.PromptlessTakes | scripts/kconfig/menu.c:258-278 | a symbol without a prompt takes a follower exactly if the follower mentions it |
| MenuConditions.HiddenSymbolNests | scripts/kconfig/menu.c:258-323 | a tree in which this puts an entry below another it does not depend on |
| MenuConditions.HiddenSymbolShows | scripts/kconfig/menu.c:258-323 | values with which that entry is shown and the one above is not |
| MenuTrees.MenuTree.FinalizeMenu | scripts/kconfig/menu.c:205-324 | the in-place relinking ends, gives the described tree with consistent parent pointers, touches no other entry, and leaves behind a symbol without children a sibling that fails the nesting test |
| MenuTrees.MenuTree.PassDown | scripts/kconfig/menu.c:231-255 | the loop that rewrites the children's conditions |
| MenuTrees.MenuTree.TakeFollowers | scripts/kconfig/menu.c:258-289 | the loop that takes siblings, and the three pointer assignments behind it; the entry linked behind p afterwards fails the test for being taken |
| MenuTrees.MenuTree.LiftChildren | scripts/kconfig/menu.c:290-324 | the lifting loop |
| MenuTrees.MenuTree.AdoptChildren | scripts/kconfig/menu.c:315-319 | all children get the new parent, and the last one is found |
| MenuTrees.FinalizeNames | scripts/kconfig/menu.c:205-324 | the entries below the root are in the order read |
| MenuTrees.MenuTree.Walk | scripts/kconfig/confdata.c:435-583 | the list/next/parent walk visits every entry below the root exactly once, in pre-order |
| MenuTrees.MenuTree.FinalizeAndWalk | scripts/kconfig/confdata.c:435-583 | finalizing and then walking visits every entry exactly once in the order read |
| Endian.Swap16Reverses | include/evrnet/endian.h:24-26 | swapping reverses the two bytes |
| Endian.Swap32Reverses | include/evrnet/endian.h:46-49 | swapping reverses the four bytes |
| Endian.Swap64Reverses | include/evrnet/endian.h:71-83 | swapping by halves reverses the eight bytes |
| Endian.Swap64Twice | include/evrnet/endian.h:71-83 | swapping twice is the identity |
| Words.Swap16InMemory | include/evrnet/endian.h:24-26 | storing a swapped 16-bit word exchanges its two bytes in memory |
| Words.Swap32InMemory | include/evrnet/endian.h:46-49 | storing a swapped 32-bit word reverses its four bytes in memory |
| Words.Swap64Halves | include/evrnet/endian.h:71-83 | a swapped 64-bit word holds the swapped halves in exchanged places |
| Words.OppositeOrders | include/evrnet/endian.h:86-100 | reversed bytes read most significant first are the number that was stored least significant first |
| EntryLayout.Up8Least | include/evrnet/node.h:56 | the aligned size is the least multiple of 8 |
| EntryLayout.AccessorsAreOffsets | include/evrnet/node.h:55-139 | at an 8-aligned base the accessors, whose macros lack parentheses, give the aligned offsets, by wrap-around |
| EntryLayout.FieldsAligned | include/evrnet/node.h:67-105 | each field begins at the first place behind the one before that its alignment allows |
| EntryLayout.CalcSizeCovers | include/evrnet/node.h:145-150 | the computed size is the low 16 bits of the end of the last string rounded up to 8, and covers the entry if and only if that is below 65536 |
| EntryWriting.ReadsBack | app/node.c:104-123 | every accessor finds the field that was written, and size, number of addresses and distance stand in front |
| EntryWriting.InOrder | include/evrnet/node.h:59-105 | the fields occupy disjoint ranges in order |
| EntryWriting.TextsInOrder | include/evrnet/node.h:107-139 | so do the platform strings |
| EntryWriting.SizeIsLength | include/evrnet/node.h:145-150 | the written length is a multiple of 8 that covers the fields, and the computed size is that length if and only if it is below 65536 |
| EntryWriting.HeaderOnly | app/node.c:122-123 | storing the size last does not move any field |
| EntryWriting.NodeInit | app/node.c:104-123 | writing the fields in the source's order, through the accessors, gives the described entry with its length, cut to 16 bits, as the size |
| LocalEntry.LocalRead | app/node.c:104-123 | in the entry made, the size read back is the size stored, and the UUID the UUID |
| LocalEntry.LocalIsEntry | app/node.c:104-123 | the entry made is one that every list operation can walk over if and only if it is shorter than 65536 bytes |
| LocalEntry.MakeLocal | app/node.c:89-127 | in the buffer of 4096 bytes it always is |
| EntrySwap.OffsetsSurvive | app/node.c:163-199 | no offset depends on a swapped byte |
| EntrySwap.SwapEntryTwice | app/node.c:163-199 | converting an entry twice restores every byte |
| EntrySwap.EntryToBE | app/node.c:182-199 | the field loops convert the entry and nothing around it |
| EntrySwap.EntryToLE | app/node.c:163-180 | and back |
| NetworkOrder.NumbersSent | app/node.c:182-199 | a receiver reads, most significant byte first, the size, the UUID, the capabilities and the memory size of a converted entry; no other byte changes |
| NetworkOrder.AddressSent | app/node.c:185-187 | and every address |
| ListSwap.ListToBE | app/node.c:201-229 | collecting the entries first and then converting each in place converts the whole list |
| ListSwap.ListToNative | app/node.c:231-245 | walking a converted list, restoring each entry before its size is needed, restores it |
| ListSwap.RoundTrip | app/node.c:201-245 | there and back restores every byte of the buffer |
| NodeLists.NodeTable.constructor | app/node.c:89-127 | NODE_Init makes a valid list of the local entry alone |
| NodeLists.NodeTable.Find | app/node.c:262-276 | the search answers whether the UUID is known |
| NodeLists.NodeTable.MaybeAddEntry | app/node.c:254-318 | on the bytes: append the entry at the end unless its UUID is known |
| NodeLists.NodeTable.CheckForNewNodes | app/node.c:320-332 | on the bytes of a message in network order: converted back, and merged as in the protocol model |
| NodeLists.NodeTable.Receive | app/net.c:50-60 | a message with the node's own UUID changes nothing, any other is merged |
| NodeLists.NodeTable.Broadcast | app/net.c:66-84 | the message carries the list in network order, its first two words read most significant byte first are length and version, and the list is afterwards what it was, byte for byte |
| Gossip.OwnFirstAndDistinct | app/node.c:254-332 | after every run each list begins with the node's own entry and has distinct UUIDs |
| Gossip.CopiesIdentical | app/net.c:30-94 | any two copies of an entry, in lists or messages, are identical |
| Gossip.ListsGrow | app/node.c:254-332 | lists only grow, at the end |
| Gossip.KnowledgeIsCausalPast | app/net.c:30-94 | a node knows another if and only if a chain of broadcasts and deliveries leads from it |
| Gossip.DeliveryInforms | app/net.c:30-94 | what the sender knew at the broadcast, the receiver knows after the delivery and ever after |
| Gossip.RedeliveryIsIdle | app/net.c:30-58 | delivering a message again, at any later time, changes nothing |
| Networks.TotalBound | app/node.c:295-297 | entries with distinct UUIDs taken from a list are no more and no longer in total than it, so no list outgrows the entries of all nodes |
| Networks.Play | app/net.c:30-94 | any sequence of sends and deliveries executed on the bytes leads to what the protocol model says, lists and messages alike |
| Networks.RunInforms | app/net.c:30-94 | the run of the protocol from the entries that NODE_Init makes leaves in each list the UUIDs of exactly the node's causal past |
| Networks.Discover | app/net.c:30-94 | from NODE_Init on every node, on the bytes: in the end a node's list holds the UUIDs of exactly its causal past |
| IntegerText.DigitsModulo | plat/common/sane_printf.c:293-297 | the digit loop denotes the value modulo base to the 32nd power |
| IntegerText.DigitsExact | plat/common/sane_printf.c:293-297 | and exactly if it fits |
| IntegerText.DigitsCanonical | plat/common/sane_printf.c:293-297 | without leading zeros |
| IntegerText.NumberDenotes | plat/common/sane_printf.c:227-301 | zero padding does not change what the digits denote |
| IntegerText.IntTextMeaning | plat/common/sane_printf.c:199-301 | without '#', where all fits 32 places: sign and digits in their field; length = max(width, sign + max(digits, precision)), precision ignored when left-justified |
| IntegerText.IntTextExactly | plat/common/sane_printf.c:199-301 | the text is the number in its field if and only if all fits, or nothing but a blank sign is lost next to blanks |
| Conversions.FieldPlaces | plat/common/sane_printf.c:199-223 | a number stands at the right, or left-justified at the left end of its field, and the rest is blank |
| Conversions.StringPlaces | plat/common/sane_printf.c:776-822 | the same for characters and strings; a precision cuts a string |
| Conversions.IntegerMeaning | plat/common/sane_printf.c:682-757 | an integer conversion without '#' shows the argument, cut to its length, with its sign or what the flags put there, in the base and case of its letter, with zeros only where asked for |
| Conversions.HashMeaning | plat/common/sane_printf.c:243-264 | with '#' alone: 0x, 0X, 0b or 0 in front of the digits, nothing in front of a zero |
| Conversions.SpecRead | plat/common/sane_printf.c:601-680 | flags, width, precision and length written in front of a letter are read as what they say |
| Conversions.LiteralOutput | plat/common/sane_printf.c:588-595 | other characters are put out as they are |
| Conversions.ConversionOutput | plat/common/sane_printf.c:577-857 | a conversion puts out its argument and the rest of the format uses the next ones |
| Conversions.PercentOutput | plat/common/sane_printf.c:840-843 | two percent signs put out one |
| Printf.ConvertDigits | plat/common/sane_printf.c:281-301 | the buffer index never exceeds 32, and the buffer holds the digits in reverse |
| Printf.NtoaFormat | plat/common/sane_printf.c:227-277 | zeros, prefix, sign and field in the conversion buffer, then reversed output |
| Printf.OutRev | plat/common/sane_printf.c:199-223 | reversed output between its padding |
| Printf.OutItem | plat/common/sane_printf.c:587-850 | one character or conversion of the format, flags, width, precision and length included |
| Printf.Vsnprintf | plat/common/sane_printf.c:577-857 | the prefix law: the result is the length of the whole output for every buffer size, and the buffer holds its prefix and a NUL |
| Fixdep.MatchesAreStored | scripts/basic/fixdep.c:168-179 | a match in the string is a name that was defined |
| Fixdep.StoredMatches | scripts/basic/fixdep.c:168-179 | a defined name is matched |
| Fixdep.Scanner.IsDefined | scripts/basic/fixdep.c:168-179 | the answer is membership in the names defined since the last clearing |
| Fixdep.Scanner.UseConfig | scripts/basic/fixdep.c:205-224 | a new name is recorded and printed once, a known one ignored |
| Fixdep.LongPrefixUses | scripts/basic/fixdep.c:240-266 | a maximal identifier with a long prefix and something behind it uses exactly what is behind it |
| Fixdep.PrefixesExactly | scripts/basic/fixdep.c:240-252 | a prefix is found exactly where CONFIG_, ENABLE_, IF_NOT_ or IF_ stands |
| Fixdep.IdentExactly | scripts/basic/fixdep.c:236-237 | identifiers consist of letters, digits and underscores |
| Fixdep.PathFollowsName | scripts/basic/fixdep.c:216-222 | the printed path is the name in lower case with a slash for every underscore |
| Fixdep.SharedPath | scripts/basic/fixdep.c:216-222 | two names share a path if and only if they differ in upper and lower case only |
| Fixdep.Scanner.ParseConfigFile | scripts/basic/fixdep.c:226-269 | no name behind a prefix of a maximal identifier is missed, and every recorded name follows a prefix |
| SavedConfig.DecodeEscape | scripts/kconfig/confdata.c:499-520 | unescaping undoes escaping, whatever follows the closing quote |
| SavedConfig.WriteEscaped | scripts/kconfig/confdata.c:505-519 | the writing loops escape exactly quotes and backslashes |
| SavedConfig.EscapeEach | scripts/kconfig/confdata.c:505-519 | each quote and backslash gets a backslash, every other character is itself |
| SavedConfig.UnescapeInPlace | scripts/kconfig/confdata.c:205-218 | the in-place loop decodes up to the first unescaped quote, and reports a missing one |
| SavedConfig.SavedIsRead | scripts/kconfig/confdata.c:134-223 | a boolean, tristate or string value written to a line is read back from it |
| SavedConfig.UnsetIsComment | scripts/kconfig/confdata.c:466-486 | a symbol that is n, and no other, is written as a comment |
| SavedConfig.OnlyDeclaredRead | scripts/kconfig/confdata.c:134-223 | a line gives a value only to a declared symbol, and one of its type |

## Left out

- Equality.EqReflexive: is stated for expressions without quoted operands; with one it can still hold, and QuotedOperandNotReflexive shows one for which it does not.
- SameOperands.EqIsShape: with y or n below the outermost connective, where folding also equates expressions of different operands, only EqSound is stated.
- SameOperands.ImpliedExactly: for a second expression that is no disjunction.
- Printf.Vsnprintf: the result is an unbounded number, where the source casts to int; formats that are not well-formed, floating point and `%p` are outside, as is a null buffer.
- Conversions.HashMeaning: the '#' flag together with a width, zeros or a precision is in the model of the buffer but not in this statement, because the prefix may overwrite digits there.
- Evaluators.Evaluator.SymCalcValue: choices are treated in Choices, ranges and the CHANGED marks are not; the values are related to the recursive definition only when MODULES is evaluated before any other symbol, as sym_clear_all_valid does.
- Choices.ChoiceGroup.EvaluateAll: no member's condition mentions another member and members have no defaults.
- MenuConditions.FinalizeConditions: exact for environments in which no symbol and no original condition is m; with m FinalizeHides is what holds.
- MenuConditions.NestingJustified: for conditions over logic symbols and comparisons, and for entries whose m is not read as n by the test, of which NestingFailsAtMod shows why.
- Dups.ContradictedValue: for a contradiction inside an operand only EliminateDupsValue is stated.
- NodeLists.NodeTable.MaybeAddEntry: the length of the list is assumed to stay below 2^32; the source does not check it. Networks.Play needs no such assumption on the way, only that the entries of all nodes fit one message and are at most 512.
- expr_transform, expr_eliminate_yn, expr_eliminate_eq, expr_extract_eq and expr_trans_bool are modelled on values: their slots never overlap, so what the model does not capture is the reuse and freeing of nodes.
- Menu properties other than prompts (defaults, selects, rev_dep), choice member lists and warnings of menu_finalize.
- SavedConfig.SavedIsRead: one line for a symbol not assigned before; lines longer than the 1024-byte buffer are not modelled, nor are int and hex values and the choice bookkeeping behind each line.
- SavedConfig.UnescapeInPlace: a text that ends in a backslash with nothing to escape is excluded, because the loop would step over the NUL.
- Lexing: the parser model begins with tokens. Statements other than expressions are not parsed.
- Allocation and freeing everywhere.
- Byte swapping on a big-endian host, where the conversions are empty.
- The CRC of messages (a TODO in the source), the message header other than the sender's UUID, sockets and timers.
- Terminal and graphical configuration front ends, regular expression search, include/config timestamps, the C library subset.
