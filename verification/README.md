# The Kconfig engine and the translation cache in Dafny

This Dafny project models two independent parts of a hypervisor for ARM and the number
conversions they are surrounded by, and proves what these parts are for.

**The Kconfig engine** (`scripts/kconfig`) reads a configuration language whose conditions
are expressions over the tristate values n < m < y.

- `Expressions`, `ExprEquality`, `ExprTransform`, `ExprPaths`, `ExprDuplicates`,
  `ExprContradiction`, `ExprUndecided` and `ExprSettled` model the expression simplifier.
  Every pass is a function on trees and is proved to keep the value in every environment, or
  exactly as much of it as it keeps, and to leave nothing of what it is there to remove.
  `ExprNodes`, `ExprTransformNodes`, `ExprEqualityNodes`, `ExprExtractNodes`, `ExprPlaces`,
  `ExprJoinNodes`, `ExprDuplicatesNodes` and `ExprContradictionNodes` are the passes as the
  program has them, overwriting nodes through pointers to their places, also where one such
  place lies inside another; each is proved to compute the function.
- `ExprSyntax` is the printer of expressions and the parser that reads them back;
  `ExprGrammar` has the grammar that the parser accepts.
- `MenuTree`, `MenuBuilders`, `MenuWalk` and `MenuDependencies` model the menu tree: the
  parser's calls that build it, its rearrangement by `menu_finalize` through the pointers of
  the menus, the conditions handed down it, and the walk that writes a configuration.
- `SymbolValues`, `SymbolMeanings`, `SymbolSets` and `SymbolStores` model the calculation of
  symbol values and what setting a value does; `DependencyCheck` is the search for recursive
  dependencies, and `ConfigRun` leads from a search without reports to the values.
- `StringEscapes` is the quoting of string values and the unescaping in the line buffer.

**The translation cache** (`src/guestManager`, `src/instructionEmu`) holds translated guest
blocks. `MachineWords`, `ExecBitmap`, `CodeCache`, `GuestMemory`, `CacheSteps` and
`GuestStores` model it as a state machine of scan, link, unlink, clear and guest store steps
with an invariant over all runs, also when a scan reaches the end of the code store and starts
again at its front. `BlockRuns` says what the processor does when it executes a translated
block, and where a linked block leads. `TranslationStores` holds the class whose methods update
the code store, the block table and the bitmap in place; each is proved to make the step of the
state machine.

**Numbers** (`src/common/stdio.c`): `DecimalNumbers` and `HexNumbers` print numbers into
digit buffers and fields and scan them, and are proved to undo each other; `NumberFields`
says exactly for which fields, and `NumberScans` what any text is scanned to. They implement
part of sections 7.19.6.1 and 7.19.6.2 of ISO/IEC 9899:1999.

## Conventions

A constant symbol is identified by its name, because `sym_lookup` keeps one symbol for each
name. Environments are *typed*: a boolean symbol is never m, and m appears only when modules
are on; `SymbolSets.FinalIsTyped` shows that calculated values are typed. A pointer to the
place of a subexpression, `struct expr **`, is a path in `ExprDuplicates` and a field of a
node in `ExprPlaces`, since two places may lie inside one another there; where the two
expressions share nothing it is a result that the caller stores.

The tables of the decoder, the words that a `pcHandler` emits and the words of a branch are
given by `Decoder` and `MachineWords`. The code store is counted in words. The outcome of
the dependency tests in `menu_finalize` is an arbitrary relation `Depends`. What a shift by
the size of a type or more yields is left open by `HexNumbers.Shifted`.

## What the code does that its comments do not say

- The contradictions that `expr_eliminate_dups2` looks for are none for the value m: the
  result can be n or y where the value was m (`ExprContradiction.ModIsNotKept`). The value is
  kept everywhere if no conjunction in the expression is unsatisfiable and no disjunction
  valid (`ExprUndecided.UndecidedIsKept`), as in one without negations, comparisons and
  constants, and if it is never m (`ExprUndecided.NeverModIsKept`). Neither is necessary:
  a contradiction of boolean symbols is removed without harm
  (`ExprUndecided.ContradictionButKept`).
- `sym_check_deps` returns a symbol only below the call that started the search, so the
  sweep of `conf_parse` never counts an error. Something is reported if and only if there is a
  cycle, and every cycle goes through a symbol that some report names
  (`DependencyCheck.SymbolTable.Sweep`); but no symbol is named twice, so that a cycle that
  shares a symbol with a reported one goes unreported
  (`DependencyCheck.NotEveryCycleIsReported`). Every simple cycle is reported if and only if no
  two different ones share a symbol (`DependencyCheck.AllReportedIffApart`).
- A value that a symbol already has is accepted for its user value without the range test, so
  the next calculation may give another one; and a refused value may be one that the next
  calculation would have given. The exact conditions are `SymbolSets.AcceptedIsNext` and
  `SymbolSets.RefusedIsOutOfReach`, with inputs in `SymbolSets.AcceptedMayNotBeNext` and
  `SymbolSets.RefusedMayBeNext`.
- `setExecBitmap` reads the byte for the last page of a block at the index of the bit and
  writes it at the index of the byte. The last page of a block over two pages is left unmarked
  if it was and the page at nine times its bit index is marked; if that page is not marked,
  the other pages of its byte get the marks of the pages of another byte. A mark is lost
  then unless the page at the same place of the other byte is marked
  (`ExecBitmap.SetExecTwoPages`, `ExecBitmap.TwoPagesMarkWell`, with an input in
  `ExecBitmap.MarkIsLost`). The pages between the first and the last of a longer block are
  never marked for it (`ExecBitmap.SpanMarksWell`).
- Before a store is emulated the translations for one address are cleared. A store behind the
  start of the last instruction of a block changes that instruction without clearing the block
  (`GuestStores.SurvivorsAfterWrite`, with such stores in `GuestStores.MissedStore`), and a
  doubleword stored four bytes below a block changes its first instruction
  (`GuestStores.MissedDouble`). When the cache agrees with guest memory all the same is said by
  `GuestStores.WordStoreKeepsInv` and `GuestStores.DoubleStoreKeepsInv`, and for any store by
  `CacheSteps.GuestWriteKeepsInv`.
- The words that set the link register are emitted under the condition field of the branch. For
  the immediate form of BLX this field is 15, under which they are no moves
  (`BlockRuns.BlxIsNotLinked`).
- When the pool end is reached, the moved block forgets whether it has one hypercall
  (`TranslationStores.WrappedKeepsBlock`). The flag is set again later, unless the index of the
  block is the word that fills the pool; in exactly this case the entry is wrong
  (`CacheSteps.ScanKeepsInv`), and unlinking the block overwrites the word before its
  hypercall (`CacheSteps.LostFlagOverwrites`).
- Scanning decimal and hexadecimal numbers does not count digits against the field width;
  `DecimalNumbers.WidthIsExceeded` and `HexNumbers.HexWidthIsExceeded` say when more is read
  than the width allows. A width of one or two reads nothing but the zero of a prefix
  (`HexNumbers.NarrowStops`); a space printed in place of a sign is not read back
  (`DecimalNumbers.SpaceIsNotRead`).
- With the flags for zeros and for the left, zeros are put behind a number, and with those for
  zeros and the alternate form, zeros are put before the `0x`; section 7.19.6.1 of
  ISO/IEC 9899:1999 ignores the former and puts the zeros behind the prefix. Such numbers are
  not read back (`NumberFields.FieldRoundTrip`, `NumberFields.HexFieldRoundTrip`).
- The prefix that a comment promises for the null pointer is not printed, because the macro is
  never entered with the specifier p (`HexNumbers.NullPointerHasNoPrefix`).

## Model

| member | source | states |
|---|---|---|
| ExprEquality.EliminateYnExact | scripts/kconfig/expr.c:231-312 | Removing constants keeps the value in every environment, m included. |
| ExprEquality.EliminateYnPrunes | scripts/kconfig/expr.c:231-312 | No constant operand is left anywhere, and the tree shrinks exactly if there was one. |
| ExprEquality.CancelKeepsFactor | scripts/kconfig/expr.c:130-162 | Cancellation invariant: both sides are one common factor, the same for all environments, combined with their residues. |
| ExprEquality.EqSound | scripts/kconfig/expr.c:189-229 | Expressions found equal have the same value in every environment. |
| ExprSettled.EqReflexive | scripts/kconfig/expr.c:189-229 | Every expression is found equal to itself, constants in it included. |
| ExprSettled.NothingShared | scripts/kconfig/expr.c:130-162 | Cancelling is complete: afterwards no operand but a constant is in both trees. |
| ExprSettled.EliminateEqShares | scripts/kconfig/expr.c:164-184 | So is expr_eliminate_eq for an expression and a junction, whichever comes first. |
| ExprEquality.EliminateEqReflectsOrder | scripts/kconfig/expr.c:164-184 | After cancelling, residues are ordered only if the expressions were, which is what the dependency test of menu_finalize relies on. |
| ExprEquality.ExtractEqKeepsFactor | scripts/kconfig/expr.c:848-875 | Both sides are the factor moved out so far combined with their residues, whatever factor was there before. |
| ExprEquality.ExtractKeepsFactor | scripts/kconfig/expr.c:826-846 | Each side is the extracted factor combined with its residue, constants removed. |
| ExprTransform.Transform | scripts/kconfig/expr.c:636-771 | The rewriting terminates although De Morgan's laws add nodes: a weight never grows. |
| ExprTransform.TransformExact | scripts/kconfig/expr.c:636-771 | The value is kept in every typed environment. |
| ExprTransform.TransformNormalizes | scripts/kconfig/expr.c:636-771 | In the result a negation stands only over a symbol that is not a constant n, m or y, and no boolean symbol is compared with one. |
| ExprTransform.TransformFixedPoints | scripts/kconfig/expr.c:636-771 | The fixed points are exactly these normal forms, and transforming twice is transforming once. |
| ExprTransform.TransformGrowth | scripts/kconfig/expr.c:636-771 | The result has at most half as many nodes again as the input, and one more. |
| ExprTransform.TransformGrowthIsReached | scripts/kconfig/expr.c:655-684 | The bound is reached where a boolean symbol is compared with n. |
| ExprTransform.TransBoolKeepsNo | scripts/kconfig/expr.c:317-341 | With negations over symbols only, dropping "!= n" keeps whether the value is n and never raises it. |
| ExprTransform.TransBoolNegatedComparison | scripts/kconfig/expr.c:317-341 | Over a negated comparison the outcome is kept if and only if the symbol is not m. |
| ExprTransform.TransBoolFixedPoints | scripts/kconfig/expr.c:317-341 | Afterwards no tristate is compared with n by "!=", and an expression without such a comparison is unchanged. |
| ExprDuplicates.JoinExact | scripts/kconfig/expr.c:346-502 | Whatever expr_join_or and expr_join_and put in place of two operands has the value of both together. |
| ExprDuplicates.Dups1Exact | scripts/kconfig/expr.c:504-554 | The first pass keeps the value exactly, for any two places in the tree. |
| ExprDuplicates.ContradictionRefines | scripts/kconfig/expr.c:578-603 | Where an operand's negation is a factor of another subtree, the tree had the value m or the one it gets. |
| ExprDuplicates.Dups2Refines | scripts/kconfig/expr.c:556-610 | The second pass resolves m at most: n and y stay. |
| ExprDuplicates.Dups1 | scripts/kconfig/expr.c:504-554 | The pass terminates and keeps the junctions above the operands; with count 0 the tree is unchanged, and when it reports a change it leaves a removable constant. |
| ExprDuplicates.Dups2 | scripts/kconfig/expr.c:556-610 | The same of the second pass, which goes on with a tree after visiting its operands. |
| ExprDuplicates.RoundShrinks | scripts/kconfig/expr.c:618-631 | A round that reports a change loses nodes, so the loop ends. |
| ExprDuplicates.EliminateDupsRefines | scripts/kconfig/expr.c:612-634 | For every expression and typed environment, a value other than m survives the whole loop. |
| ExprDuplicates.EliminateDupsExact | scripts/kconfig/expr.c:612-634 | Only contradictions resolve m: if no round finds one, the value is kept. |
| ExprUndecided.UndecidedIsKept | scripts/kconfig/expr.c:612-634 | If every conjunction in the expression can be y and every disjunction can be n, the value is kept in every environment, m included. |
| ExprUndecided.PositiveIsUndecided | scripts/kconfig/expr.c:612-634 | So it is in expressions of boolean and tristate symbols without negations, comparisons and constants. |
| ExprUndecided.NoContradiction | scripts/kconfig/expr.c:578-603 | In a junction that can have the value of its unit, the test for a contradiction fails at any two places. |
| ExprUndecided.NeverModIsKept | scripts/kconfig/expr.c:612-634 | The value is also kept if no symbol outside comparisons can be m. |
| ExprUndecided.ContradictionButKept | scripts/kconfig/expr.c:578-603 | Finding a contradiction need not change a value: with boolean symbols (a \|\| b) && (!a && !b) is n before and after. |
| ExprDuplicates.EliminateDupsSettles | scripts/kconfig/expr.c:612-634 | Doing it twice is doing it once, and the result is smaller unless it is the same. |
| ExprSettled.EliminateDupsTidies | scripts/kconfig/expr.c:612-634 | In what is left of any expression, nested junctions included, no two operands are the same or fit one of the rules for joining, and no operand is a junction of literals that all have their negation beside it. |
| ExprSettled.RedundantJoins | scripts/kconfig/expr.c:346-502 | Two operands that are the same or fit a rule are joined, in either order. |
| ExprSettled.DeniedIsContradicted | scripts/kconfig/expr.c:578-603 | A junction of literals whose negations are all operands beside it is found contradicted. |
| ExprContradiction.ModIsNotKept | scripts/kconfig/expr.c:578-603 | For any two boolean or tristate symbols, (a \|\| b) && (!a && !b) becomes n also where its value is m. |
| ExprNodes.Copy | scripts/kconfig/expr.c:62-97 | The copy has the same value and consists of new nodes only. |
| ExprNodes.EliminateConstants | scripts/kconfig/expr.c:231-312 | Overwriting nodes in place computes the function, within the nodes of the expression and with the same root. |
| ExprNodes.TransformBool | scripts/kconfig/expr.c:317-341 | The same of dropping "!= n" in place. |
| ExprTransformNodes.TransformNodes | scripts/kconfig/expr.c:636-771 | The rewriting in place computes the function; old nodes are reused, and only new ones are added. |
| ExprTransformNodes.DeMorgan | scripts/kconfig/expr.c:716-733 | The pointer exchange that moves a negation inwards, with one new node, builds the dual junction of the negated operands. |
| ExprEqualityNodes.Passes.CancelNodes | scripts/kconfig/expr.c:130-162 | Cancelling in two node structures at once computes the function and keeps them apart. |
| ExprEqualityNodes.Passes.EliminateEqNodes | scripts/kconfig/expr.c:164-184 | The same of expr_eliminate_eq. |
| ExprEqualityNodes.Passes.EqualNodes | scripts/kconfig/expr.c:189-229 | expr_eq answers what the function does, overwrites none of its arguments' nodes, and puts trans_count back. |
| ExprExtractNodes.ExtractNodes | scripts/kconfig/expr.c:848-875 | Moving common operands out of two node structures into a third yields the factor and the residues of the function, and the three share no node. |
| ExprJoinNodes.JoinNodes | scripts/kconfig/expr.c:346-502 | Reads two operands without changing them and builds the join of the function from new nodes, or none. |
| ExprJoinNodes.StoreAt | scripts/kconfig/expr.c:535-536 | One store through a pointer to a place, at any depth, replaces the operand there and nothing else. |
| ExprPlaces.PlacesDiffer | scripts/kconfig/expr.c:520-521 | Comparing the pointers of two operands compares their places, and different operands share no node. |
| ExprPlaces.SetHolds | scripts/kconfig/expr.c:504-554 | A tree whose nodes changed only below a place and at it is the old tree with another operand there. |
| ExprDuplicatesNodes.Dups1Nodes | scripts/kconfig/expr.c:504-554 | The first pass in place, on two places that may lie inside one another, computes the function, keeps the junctions above the operands where they are, and counts its changes. |
| ExprContradictionNodes.Dups2Nodes | scripts/kconfig/expr.c:556-610 | The same of the second pass. |
| ExprContradictionNodes.ContradictsNodes | scripts/kconfig/expr.c:578-602 | The test on copies finds exactly the contradictions of the function and changes nothing. |
| ExprContradictionNodes.EliminateDuplicates | scripts/kconfig/expr.c:612-634 | The loop in place ends with the result of the function in the same root node, and puts trans_count back. |
| ExprSyntax.PrintedIsRead | scripts/kconfig/expr.c:979-1123 | Reading what was printed always succeeds and gives the left-associated tree over the symbols found under the printed names; these are the original ones if and only if every name is read back as a symbol of its kind. |
| ExprSyntax.PrintedReadsTheSame | scripts/kconfig/expr.c:1053-1123 | The tree read back has the same value everywhere and prints to the same tokens; a left-associated one is read back unchanged. |
| ExprSyntax.LeftAssociatedExact | scripts/kconfig/zconf.tab.c:1986-2014 | Left-associating the operators keeps the value. |
| ExprSyntax.ReadMore | scripts/kconfig/zconf.tab.c:1986-2014 | The grammar attaches the printed operands of an operator to the tree on its left, one after the other. |
| ExprSyntax.ConstantIsReadable | scripts/kconfig/expr.c:1062-1068 | Printing drops the quotes of a constant, so that of all constants only y, m and n are read back. |
| ExprSyntax.MissingIsRead | scripts/kconfig/expr.c:1053-1059 | A missing expression is printed as y and read as the constant y. |
| ExprSyntax.ParenthesesAreNeeded | scripts/kconfig/expr.c:1053-1123 | Parentheses are printed around junctions in negations and disjunctions in conjunctions, and nowhere else. |
| ExprGrammar.ParsesTheGrammar | scripts/kconfig/zconf.tab.c:1986-2014 | The parser accepts exactly the texts of the grammar, with any parentheses, and gives the expression that the concrete syntax stands for. |
| MenuDependencies.ConditionNegation | scripts/kconfig/menu.c:295-312 | Conditions handed down the menus keep negations over symbols only. |
| MenuDependencies.EntryConditionRefines | scripts/kconfig/menu.c:296-299 | The condition of an entry is that of its parent and its own, m resolved at most. |
| MenuDependencies.ConditionsAreTidy | scripts/kconfig/menu.c:295-312 | No condition handed down has redundant or denied operands, and that of a symbol that is not tristate compares no tristate with n. |
| MenuDependencies.PromptVisibilityKept | scripts/kconfig/menu.c:307-312 | After the promotion of sym_calc_visibility a prompt is visible exactly as written, unless what is written is m and may be resolved: not if base condition and own condition together are undecided or never m. |
| MenuDependencies.PromotedTransBool | scripts/kconfig/menu.c:307-312 | Dropping "!= n" never changes the promoted visibility of a symbol that is not tristate. |
| MenuDependencies.VisibilityOfUndecided | scripts/kconfig/menu.c:307-312 | If base condition and own condition together are undecided or never m, the prompt is visible exactly as written, m included. |
| MenuDependencies.WithoutSymbolItStays | scripts/kconfig/expr.c:773-795 | A condition that does not contain a symbol does not depend on its value. |
| MenuDependencies.ContainedIsMentioned | scripts/kconfig/expr.c:773-795 | expr_contains_symbol finds every occurrence of the symbol, and nothing else. |
| MenuDependencies.DependsOnOperand | scripts/kconfig/expr.c:797-824 | expr_depends_symbol succeeds exactly if an operand of the conjunction is the symbol or a comparison saying that it is set. |
| MenuDependencies.DependingNeedsTheSymbol | scripts/kconfig/expr.c:797-824 | A condition that passes expr_depends_symbol is n unless the symbol is set. |
| MenuDependencies.CancelledBaseIsImplied | scripts/kconfig/menu.c:335-342 | If nothing but y is left of the base condition after cancelling, the entry is never more visible than that condition. |
| MenuBuilders.MenuBuilder.AddEntry | scripts/kconfig/menu.c:48-64 | The pointers stay a tree with right parent pointers, and the new menu comes behind all others in preorder. |
| MenuBuilders.MenuBuilder.AddMenu | scripts/kconfig/menu.c:70-75 | The entry just added becomes the open menu. |
| MenuBuilders.MenuBuilder.EndMenu | scripts/kconfig/menu.c:77-81 | The menu above is open again, and entries go behind the closed one. |
| MenuBuilders.GrownLinked | scripts/kconfig/menu.c:58-60 | One store through last_entry_ptr adds a menu at the end of the open one, at any depth. |
| MenuTree.Finalize | scripts/kconfig/menu.c:263-406 | The pointer surgery yields the tree Finalized with every parent pointer right, for any outcome of the dependency tests. |
| MenuTree.Finalized | scripts/kconfig/menu.c:263-406 | The preorder of the menus from a node on stays the same. |
| MenuTree.FindDependent | scripts/kconfig/menu.c:326-347 | The loop takes in siblings one after the other, each finalized first, and stops at the first that does not depend. |
| MenuTree.MoveBelow | scripts/kconfig/menu.c:348-352 | The siblings taken in become the children, and the rest stay siblings. |
| MenuTree.FlattenChildren | scripts/kconfig/menu.c:396-406 | Children without a prompt give way to their own children, which get the new parent. |
| MenuTree.SamePreorder | scripts/kconfig/menu.c:263-406 | Trees with the same preorder hold the same menus, each of them once in one if once in the other. |
| MenuWalk.FinalizedIsFlat | scripts/kconfig/menu.c:396-405 | Afterwards no menu below, at any depth, has children but no prompt. |
| MenuWalk.AbsorbsTheLongestRun | scripts/kconfig/menu.c:326-352 | Exactly the longest run of following siblings that depend on the symbol is moved below it. |
| MenuWalk.FinalizedLetsGo | scripts/kconfig/menu.c:326-352 | If all menus have prompts, no menu at any depth that has a symbol and no children is followed by one that depends on it. |
| MenuWalk.TakesTheFirst | scripts/kconfig/menu.c:314-352 | A menu takes in its first sibling exactly if that depends on its symbol and it has no children of its own; otherwise its siblings stay. |
| MenuWalk.FinalizedKeepsOrder | scripts/kconfig/menu.c:263-406 | Below a menu without siblings the same menus stay in the same order, flat. |
| MenuWalk.Walk | scripts/kconfig/confdata.c:753-786 | The walk ends after visiting every menu below the root once, in preorder. |
| MenuWalk.NextAbove | scripts/kconfig/confdata.c:779-785 | The way up finds the next menu still to be visited, and fails only if there is none. |
| MenuWalk.FinalizeAndWalk | scripts/kconfig/confdata.c:753-786 | Menus built by the parser and finalized are visited in the order in which they were added, once each. |
| SymbolValues.CalcIsSolution | scripts/kconfig/symbol.c:285-368 | Without cycles the calculated values satisfy the equation of every symbol. |
| SymbolMeanings.TristateMeans | scripts/kconfig/symbol.c:323-368 | The value of a boolean or tristate symbol: the user's as far as it is visible, or that of the first default whose condition is not n, as far as this goes, or n; joined with rev_dep, and raised for booleans. It is written unless nothing speaks for it. |
| SymbolMeanings.TextMeans | scripts/kconfig/symbol.c:369-388 | The text of an int, hex or string symbol: the user's if it is visible, or that of the symbol which the first default with a condition other than n names, or empty. |
| SymbolMeanings.OtherMeans | scripts/kconfig/symbol.c:310-314 | Any other symbol has its name for a value. |
| SymbolValues.SolutionIsUnique | scripts/kconfig/symbol.c:285-368 | They are the only ones that do, so the order of evaluation does not matter. |
| SymbolValues.CalcOneAgrees | scripts/kconfig/symbol.c:188-230 | A value depends on nothing but the symbols its prompts, defaults and dependencies mention. |
| SymbolSets.ValueIsBounded | scripts/kconfig/symbol.c:318-368 | The value is never below rev_dep, and a user's value never lifts it above both visibility and rev_dep. |
| SymbolSets.FinalIsTyped | scripts/kconfig/symbol.c:366-367 | Calculated values form a typed environment. |
| SymbolSets.NextValue | scripts/kconfig/symbol.c:474-508 | The value after setting a symbol, from what was calculated before. |
| SymbolSets.AcceptedIsNext | scripts/kconfig/symbol.c:455-508 | An accepted value is the next one calculated if and only if it is new, or the symbol is invisible, or it is within max(visible, rev_dep). |
| SymbolSets.RefusedIsOutOfReach | scripts/kconfig/symbol.c:455-508 | A refused value would be the next one calculated if and only if it is rev_dep's, and visibility does not exceed that. |
| SymbolSets.AcceptedMayNotBeNext | scripts/kconfig/symbol.c:474-508 | A tristate with the default y whose prompt depends on another symbol that is m accepts y and becomes m. |
| SymbolSets.RefusedMayBeNext | scripts/kconfig/symbol.c:474-508 | Selected by that symbol as well, it refuses the value m, which the next calculation would give it. |
| SymbolSets.IndependentStay | scripts/kconfig/symbol.c:474-508 | Setting a symbol changes no symbol that does not depend on it, directly or by way of others. |
| SymbolSets.OthersStay | scripts/kconfig/symbol.c:474-508 | If the symbol keeps its value, so do all others. |
| SymbolStores.SymbolStore.CalcValue | scripts/kconfig/symbol.c:285-418 | The evaluation with SYMBOL_VALID marks, stopping at symbols already calculated, gives every symbol its value. |
| SymbolStores.SymbolStore.CalcExpr | scripts/kconfig/expr.c:938-977 | Evaluating an expression calculates the symbols in it and gives its value under the calculated values. |
| SymbolStores.SymbolStore.SetTristateValue | scripts/kconfig/symbol.c:474-508 | Accepts exactly the values in range and the old one, and leaves only right values marked valid unless an unreachable value is kept. |
| SymbolStores.SymbolStore.ToggleTristateValue | scripts/kconfig/symbol.c:510-531 | Sets the next accepted value in the cycle n, m, y, and ends. |
| SymbolStores.TogglingReachesAll | scripts/kconfig/symbol.c:510-531 | Every value in range is reached by toggling once or twice, the second time with the value calculated after the first. |
| DependencyCheck.SymbolTable.Sweep | scripts/kconfig/zconf.tab.c:2280-2283 | The sweep over all symbols ends and never returns a cycle; every report is a simple cycle, every cycle goes through a symbol that a report names, and no symbol is named twice. |
| DependencyCheck.ReportsIffCycle | scripts/kconfig/zconf.tab.c:2280-2283 | After a sweep something has been reported if and only if there is a cycle. |
| DependencyCheck.CycleIsNamed | scripts/kconfig/symbol.c:1114-1146 | If every symbol that no report names is finished after all it depends on, each cycle has a named symbol. |
| DependencyCheck.AllReportedIffApart | scripts/kconfig/symbol.c:1083-1146 | Every simple cycle is reported, as a set of dependencies, if and only if no two different ones share a symbol. |
| DependencyCheck.NotEveryCycleIsReported | scripts/kconfig/symbol.c:1083-1112 | Of two cycles through one symbol a sweep reports one only. |
| DependencyCheck.OrderedIsAcyclic | scripts/kconfig/symbol.c:1114-1146 | A finishing order in which everything a symbol depends on comes first excludes cycles. |
| DependencyCheck.FinishingOrder | scripts/kconfig/symbol.c:1185-1217 | Without a cycle there is such an order. |
| DependencyCheck.SymbolTable.CheckDeps | scripts/kconfig/symbol.c:1185-1217 | Meeting a symbol that is being checked is a cycle on the stack, whose symbols are the ones named; a symbol for which nothing is returned is finished. |
| ConfigRun.DefinedMentions | scripts/kconfig/menu.c:295-312 | The condition that finalizing gives the property P_SYMBOL mentions the symbols of its entry's condition, up to the constant n. |
| ConfigRun.EdgeIsVisit | scripts/kconfig/symbol.c:1114-1146 | The check follows exactly the symbols that the calculation asks for, those of dir_dep by way of P_SYMBOL, up to the constant n. |
| ConfigRun.OrderedRanks | scripts/kconfig/symbol.c:1185-1217 | The order in which the check finishes symbols is one in which they can be calculated. |
| ConfigRun.EvaluableIffNoCycle | scripts/kconfig/symbol.c:1114-1146 | The symbols can be ranked so that the calculation never asks for one that is being calculated, dir_dep included, if and only if the check has no cycle to find. |
| ConfigRun.SolvedIsUnique | scripts/kconfig/symbol.c:285-368 | Values that fit one another are the calculated ones. |
| ConfigRun.CheckAndCalculate | scripts/kconfig/zconf.tab.c:2280-2283 | Nothing is reported if and only if there is no cycle, and then the calculation gives every symbol a value that fits those of all others; there are no other such values. |
| StringEscapes.UnescapedEscaped | scripts/kconfig/symbol.c:896-937 | Undoing the escapes up to the closing quote gives back any string, whatever follows. |
| StringEscapes.Escape | scripts/kconfig/symbol.c:896-937 | The two loops quote the string into a buffer that is filled to the last character and never overrun. |
| StringEscapes.Unescape | scripts/kconfig/confdata.c:153-167 | Moving characters down in the buffer yields the unescaped string, or failure exactly if there is no closing quote; nothing before it changes. |
| StringEscapes.Drop | scripts/kconfig/confdata.c:161 | Removing one backslash in the buffer keeps what is still to be read, also at the very end of the string. |
| StringEscapes.EscapeThenUnescape | scripts/kconfig/confdata.c:153-167 | Quoting and unescaping in place gives back every string without NUL. |
| StringEscapes.QuotedIsInjective | scripts/kconfig/symbol.c:896-937 | Different strings are quoted differently. |
| StringEscapes.OnlyTwoAreEscaped | scripts/kconfig/symbol.c:896-937 | A backslash is added for every quote and every backslash, and nothing else. |
| StringEscapes.MarkedIsUnescaped | scripts/kconfig/confdata.c:153-167 | A string with backslashes before any characters, all quotes and backslashes among them, is unescaped to it. |
| StringEscapes.UnescapedIsMarked | scripts/kconfig/confdata.c:153-167 | No other text is. |
| MachineWords.BranchReaches | src/instructionEmu/blockLinker.c:12-45 | A branch written at one position of the pool leads to the position asked for, under the condition asked for. |
| ExecBitmap.MarkSets | src/guestManager/basicBlockStore.c:129-156 | Marking a page sets the bit of that page and no other. |
| ExecBitmap.SetExecOnePage | src/guestManager/basicBlockStore.c:129-156 | A block inside one page marks exactly its page. |
| ExecBitmap.SetExecTwoPages | src/guestManager/basicBlockStore.c:144-155 | For a block over two pages, which pages are marked afterwards, page by page: nothing happens for the last page if the one at nine times its bit index is marked, and otherwise its byte becomes a copy of another. |
| ExecBitmap.SetExecMeant | src/guestManager/basicBlockStore.c:144-155 | Both pages get marked, and nothing else changes, if and only if the byte read agrees with the byte written. |
| ExecBitmap.SpanMarksWell | src/guestManager/basicBlockStore.c:129-156 | All pages of a longer block end up marked and no page loses its mark if and only if all but the first are marked before, or the new byte of the last page has all the marks of the old one and those of the pages between that are not marked elsewhere. |
| ExecBitmap.TwoPagesMarkWell | src/guestManager/basicBlockStore.c:144-155 | Both pages end up marked and no page loses its mark if and only if the last page is marked before, or its new byte has all the marks of the old one. |
| ExecBitmap.MarkIsLost | src/guestManager/basicBlockStore.c:144-155 | With page 4000 marked, a block on pages 4001 and 4002 takes that mark away. |
| ExecBitmap.SetExecBitmap | src/guestManager/basicBlockStore.c:129-156 | The byte operations compute this. |
| ExecBitmap.IsExecBitSet | src/guestManager/basicBlockStore.c:158-167 | Reads the mark of the page of an address. |
| CodeCache.UnlinkRestores | src/instructionEmu/blockLinker.c:48-74 | After any patches unlinking puts back exactly the words that scanning planted, condition and index included. |
| CodeCache.UnlinkUnpatched | src/instructionEmu/blockLinker.c:48-74 | Unlinking a block that is not patched changes no word. |
| CacheSteps.ScanKeepsInv | src/instructionEmu/scanner.c:239-355 | Scanning a block whose pages are marked well, over the pool end or not, keeps the invariant of the cache if and only if the block does not have one hypercall and an index that fills the pool. |
| CacheSteps.LostFlagOverwrites | src/instructionEmu/blockLinker.c:48-74 | In that case unlinking the block turns the word before its hypercall into another hypercall, if it has such a word. |
| CacheSteps.LinkKeepsInv | src/instructionEmu/blockLinker.c:12-45 | So does patching a hypercall into a branch. |
| CacheSteps.LinkIsMade | src/instructionEmu/blockLinker.c:12-45 | If the table lists a block for the address, the hypercall becomes a branch to the code of such a block, under the condition of the hypercall, and both are group blocks; nothing else changes, and nothing at all if there is none. |
| BlockRuns.LinkPartRuns | src/instructionEmu/translator/blockCopy.c:89-106 | Executing the words for the link register puts the address behind the branch into register 14, under its condition, and changes nothing else; nothing is emitted for an instruction that does not link. |
| BlockRuns.BlxIsNotLinked | src/instructionEmu/scanner.c:291-298 | Under the condition field of BLX these words are no moves. |
| BlockRuns.BlockRuns | src/instructionEmu/scanner.c:239-355 | Executing a block does to the registers what its guest instructions do, links if the last one links, and ends at the hypercall for the outcome of its condition, or takes the branch in its place. |
| BlockRuns.RunFollows | src/exceptions/exceptionHandlers.c:130-182 | In every state of every run in which the guest leads the links, each link stands for where the guest goes from there. |
| BlockRuns.LinkedBlocksFollow | src/instructionEmu/blockLinker.c:12-45 | So executing a block traps into its own handler or arrives at the code of a block for the address to which the guest goes, with the registers of the guest. |
| CacheSteps.UnlinkAllKeepsInv | src/instructionEmu/blockLinker.c:77-89 | Afterwards no word is patched, and all blocks are still there. |
| CacheSteps.ClearAddressKeepsInv | src/guestManager/translationStore.c:72-101 | Exactly the blocks covering the address are gone, even when the bitmap makes it return early and although entries may be duplicates. |
| GuestMemory.StoredIsRead | src/vm/omap35xx/sdram.c:92-138 | The bytes stored at an address are read back, also across words and around the end of the address space. |
| GuestMemory.StoredElsewhere | src/vm/omap35xx/sdram.c:92-138 | All other bytes are as before. |
| GuestMemory.LowPartIsStored | src/vm/omap35xx/sdram.c:92-138 | A word stored at its address is the word read there, and a halfword or a byte replaces its low part. |
| CacheSteps.MemoryChange | src/instructionEmu/scanner.c:239-355 | Whatever becomes of guest memory, the cache agrees with it if and only if every valid block is scanned to the same words. |
| CacheSteps.GuestWriteKeepsInv | src/instructionEmu/loadStoreDecode.c:167-233 | After any store, for which the translations for one address are cleared, the cache agrees with guest memory if and only if every block that the store reaches and that does not cover this address is scanned to the same words. |
| GuestStores.SurvivorsAfterWrite | src/guestManager/translationStore.c:72-101 | A block outlives a store into one word of its code if and only if the store lies behind the start of its last instruction. |
| GuestStores.WordStoreKeepsInv | src/instructionEmu/loadStoreDecode.c:167-214 | After a store inside one word the cache agrees with guest memory if and only if the last instruction of every block that is missed still has to be replaced, with the same hypercalls and link register words. |
| GuestStores.DoubleStoreKeepsInv | src/instructionEmu/loadStoreDecode.c:215-228 | After an aligned doubleword store it does if and only if the first instruction of every block that starts at the second word is copied to the same words as before, or is the last one and stays in the same sense. |
| GuestStores.MissedStore | src/instructionEmu/loadStoreDecode.c:181-214 | A block of one instruction survives a store of its upper bytes that makes it an instruction to copy, and no longer agrees with guest memory. |
| GuestStores.MissedDouble | src/instructionEmu/interpreter/arm/storeInstructions.c:360-390 | So does a block of one instruction survive a doubleword stored four bytes below it. |
| GuestStores.MultipleKeepsInv | src/instructionEmu/interpreter/arm/storeInstructions.c:431-478 | STM at an aligned address, which clears the translations for every word, always keeps the cache in agreement. |
| CacheSteps.RunKeepsInv | src/guestManager/translationStore.c:55-101 | Every state of every run keeps the invariant. |
| CacheSteps.BranchesAreSafe | src/instructionEmu/blockLinker.c:12-89 | In every state of every run, a branch at the end of a valid block leads to the code of a valid block for the address it was linked to, and its block is a group block. |
| CacheSteps.CacheAgreesWithMemory | src/instructionEmu/scanner.c:239-355 | In every state of every run, the code of a valid block is what scanning guest memory now would plant, and belongs to no other block. |
| TranslationStores.WrappedKeepsBlock | src/guestManager/basicBlockStore.c:79-117 | At the pool end the block being emitted is moved to the front in order and is the only valid one; its one-hypercall flag is cleared; when that matters is said by CacheSteps.ScanKeepsInv. |
| TranslationStores.PushEmitting | src/guestManager/basicBlockStore.c:65-120 | Emitting one word more keeps the words of the block in order, before the pool end, at it, and after the move to the front. |
| TranslationStores.EmittedIsScan | src/instructionEmu/scanner.c:297-323 | Planting all words but the index, setting the flag and planting the index is the scan step, on either side of the pool end. |
| TranslationStores.EmittedAtUnique | src/instructionEmu/scanner.c:357-426 | No host position belongs to two guest instructions. |
| TranslationStores.FindIndexFinds | src/instructionEmu/translator/translator.c:51-97 | Searching forward from a position in a block's body arrives at the number of its own entry. |
| TranslationStores.TranslationStore.GetBlockInfo | src/guestManager/basicBlockStore.c:19-55 | The probe finds the entry for an address or the first free slot behind its home. |
| TranslationStores.TranslationStore.LinkBlockTo | src/instructionEmu/blockLinker.c:12-45 | The stores into code and table are the link step. |
| TranslationStores.TranslationStore.UnlinkBlock | src/instructionEmu/blockLinker.c:48-74 | The stores are the unlink step. |
| TranslationStores.TranslationStore.UnlinkAllBlocks | src/instructionEmu/blockLinker.c:77-89 | The loop over the table unlinks every group block. |
| TranslationStores.TranslationStore.ClearTranslationsByAddress | src/guestManager/translationStore.c:72-101 | The loop unlinks all group blocks and clears those that cover the address. |
| TranslationStores.TranslationStore.GuestStore | src/instructionEmu/loadStoreDecode.c:167-214 | Clearing and storing a byte, a halfword or a word is the write step. |
| TranslationStores.TranslationStore.GuestStoreDouble | src/instructionEmu/interpreter/arm/storeInstructions.c:360-424 | Clearing once and storing two words is one write step of eight bytes. |
| TranslationStores.TranslationStore.GuestStoreMultiple | src/instructionEmu/interpreter/arm/storeInstructions.c:431-478 | The loop over the registers makes one write step for every word. |
| TranslationStores.TranslationStore.ClearTranslationsAll | src/guestManager/translationStore.c:55-69 | The store is empty and writable again. |
| TranslationStores.TranslationStore.AddInstructionToBlock | src/guestManager/basicBlockStore.c:65-120 | One word more in the block, or the whole block moved to the front when the pool is full; without the write flag only the pointer moves. |
| TranslationStores.TranslationStore.MoveToFront | src/guestManager/basicBlockStore.c:79-117 | The overlapping copy to the front keeps the words and their order. |
| TranslationStores.TranslationStore.ScanArmBlock | src/instructionEmu/scanner.c:239-355 | The emission loop, the hypercalls and the flag set after it, and the index are the scan step, for any block that does not fill the whole pool. |
| TranslationStores.TranslationStore.ScanBlock | src/instructionEmu/scanner.c:186-236 | Afterwards there is a valid entry for the address, the old one if there was one, and otherwise that of the scan step. |
| TranslationStores.TranslationStore.RescanBlock | src/instructionEmu/scanner.c:357-426 | Returns the guest instruction whose words contain the host position and leaves the whole store, pointer and flag included, as it was. |
| TranslationStores.TranslationStore.FindBlockIndexNumber | src/instructionEmu/translator/translator.c:51-97 | Reads the number from the hypercalls or, when they are patched, from the word behind them. |
| TranslationStores.TranslationStore.HostpcToGuestpc | src/instructionEmu/translator/translator.c:100-127 | From a host position in the body of a valid block to the guest instruction it belongs to, also when the guest went in by another block of its group; a group block is unlinked and the invariant kept. |
| DecimalNumbers.TwentyDigits | src/common/stdio.c:72-83 | Twenty digits are enough for 64 bits, and nineteen are not. |
| DecimalNumbers.FillBuffer | src/common/stdio.c:72-83 | The digits are put into the buffer of twenty from its end without overrun. |
| DecimalNumbers.PrintDecimal | src/common/stdio.c:54-144 | The sign of the value, and digits that stand for its magnitude, as many as it needs or the precision says, none for zero with precision zero; zeros in front go between the two, and the field has the width or is just the number. |
| DecimalNumbers.ScanDecimal | src/common/stdio.c:1019-1050 | The sign handling and the accumulating loop of %d and %u compute the scanning functions. |
| NumberScans.SignedScanMeans | src/common/stdio.c:1019-1050 | %d of any text gives the number behind the optional sign, wrapped to the type, and consumes all its digits; it fails exactly for a sign in a field of one character. |
| NumberScans.UnsignedScanMeans | src/common/stdio.c:234-262 | %u of any text gives the number that its first digits stand for, wrapped to the type. |
| DecimalNumbers.SignedRoundTrip | src/common/stdio.c:54-144 | %d and %+d: scanning what was printed gives back every signed number, for any precision and any text behind it, and consumes just that. |
| DecimalNumbers.SignedNeverWraps | src/common/stdio.c:234-262 | Above the least signed number no step of the scanning loop overflows. |
| DecimalNumbers.UnsignedRoundTrip | src/common/stdio.c:54-144 | The same of %u. |
| DecimalNumbers.SpaceIsNotRead | src/common/stdio.c:1026-1035 | With a space in place of the sign, exactly the negative numbers are read back and consumed. |
| DecimalNumbers.WidthIsExceeded | src/common/stdio.c:234-262 | %d and %u read more characters than the width allows if and only if digits go on behind it. |
| DecimalNumbers.TwoDigitsForOne | src/common/stdio.c:234-262 | %1d reads both digits of 12. |
| NumberFields.FieldRoundTrip | src/common/stdio.c:93-143 | %d and %+d with any flags, width and precision: the number and its whole field are read back if and only if nothing is padded, or zeros are put in front, or behind a zero. |
| NumberFields.UnsignedFieldRoundTrip | src/common/stdio.c:93-143 | The same of %u. |
| NumberFields.ZerosBehindNumber | src/common/stdio.c:138-143 | Zeros behind a number make it another number even though the type wraps around, unless it is zero. |
| HexNumbers.DigitWidthIsExact | src/common/stdio.c:172-174 | Counting leading zeros gives just as many digits as the value needs. |
| HexNumbers.PrintHex | src/common/stdio.c:146-233 | The prefix with the alternate form and not for zero, and digits that stand for the value, in the case of the specifier and as many as it needs or the precision says; padding up to the width before or behind both. |
| HexNumbers.PrefixIsSeen | src/common/stdio.c:196-206 | What is printed behind the padding starts with a zero and the specifier exactly if the prefix is printed. |
| HexNumbers.NullPointerHasNoPrefix | src/common/stdio.c:776-801 | %p prints eight zeros and no prefix for the null pointer. |
| HexNumbers.ScanHex | src/common/stdio.c:1175-1210 | The optional prefix and the digits are read; a zero alone is skipped too. |
| NumberScans.HexScanMeans | src/common/stdio.c:1175-1210 | %x of any text gives the number behind the optional prefix, wrapped to the type, and consumes all its digits. |
| HexNumbers.NextLowPart | src/common/stdio.c:265-326 | Shifting a digit in keeps the low digits right although the type wraps around. |
| HexNumbers.HexRoundTrip | src/common/stdio.c:146-233 | %x and %#x, with x or X, for any precision and whatever oversized shifts yield: scanning with any width gives back the value and consumes just its text if and only if no digit follows, a single zero is not followed by an x, and a width of one or two meets no prefix. |
| HexNumbers.NarrowStops | src/common/stdio.c:1185-1199 | With a width of one or two only the zero of a prefix is read. |
| HexNumbers.HexWidthIsExceeded | src/common/stdio.c:265-326 | %x reads more characters than the width allows if and only if digits go on behind it. |
| NumberFields.HexFieldRoundTrip | src/common/stdio.c:187-232 | %x and %#x with any flags, width and precision: a padded number is read back if and only if zeros are put in front of one without a prefix, or behind a zero, and what follows does not get in the way. |

## Left out

- MenuDependencies.PromptVisibilityKept: says nothing when the written condition is m and contradictions may resolve it.
- ExprEquality.EqSound: different ways of writing the same need not be found equal.
- ExprSettled.EliminateDupsTidies: which junctions of other expressions than literals are found contradicted is said by Contradicts only.
- MenuWalk.FinalizedLetsGo: a menu without a prompt gives way to its children after the tests, so that one of them may be followed by a menu that depends on it.
- BlockRuns.BlockRuns: that copied words, and those that a pcHandler emits, do what the instruction does is assumed of the decoder's tables (Faithful), as is that they hold no branch (NoControl).
- BlockRuns.RunFollows: leaves out a store whose first page holds no code but which reaches a block on the next page, since links are not removed then.
- HexNumbers.PrintHex: digits beyond those of the type are left open, as they come from oversized shifts.
- CacheSteps.RunKeepsInv: runs leave out scans that leave a page of the block without its mark or take one from another page (MarksWell, with its exact condition in SpanMarksWell), that lose the flag of the block (FlagIsLost), blocks that fill the whole pool, and stores that are not Harmless, after which GuestWriteKeepsInv says that the invariant fails.
- GuestStores.DoubleStoreKeepsInv: stores that are not aligned and reach two or three words are covered by GuestWriteKeepsInv only.
- Memory protection: that a store faults at all, and at which address, is given.
- TranslationStores.TranslationStore.GetBlockInfo: the probe must not run off the table, since the source does not wrap around.
- TranslationStores.TranslationStore.ScanArmBlock: blocks lie at aligned addresses, end, and have fewer words than the pool; Thumb blocks, statistics and the handler of the last instruction are left out.
- TranslationStores.TranslationStore.RescanBlock: the host position must lie in the body of the block, since the source stops otherwise.
- SymbolStores.SymbolStore.SetTristateValue: is about symbols whose value has been calculated; the source compares a stale value otherwise.
- SymbolValues.CalcIsSolution: choices, choice values and ranges are not modelled, and the value of the modules symbol is given.
- DependencyCheck.SymbolTable.Sweep: tables without choices.
- MenuTree.Finalize: dependency expressions, choice values, warnings and the properties built on the way; whether a menu has a symbol and a prompt does not change.
- ExprUndecided.UndecidedIsKept: a sufficient condition; no exact one is known that does not run the rounds.
- Reading flags, widths and precisions from the format string, and conversions to characters, strings and octal numbers.
- expr_trans_compare and expr_simplify_unmet_dep: the first is only a step of the dependency tests, the second only feeds a warning.
- E_LIST and E_RANGE, which no expression of the grammar contains.
- invalidateBlock and clearTranslationsByAddressRange: marking a block invalid without unlinking it would break the invariant.
- Allocation always succeeds, and freeing memory is not modelled.
- Files, lines, console output, hardware and the cache maintenance of the processor.
