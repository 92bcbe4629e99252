# Kconfig engine and boot image writer: verified model

A Dafny model of the configuration engine in `buildstaq/support/kconfig` and of the boot image
writer `buildstaq/package/mkpimage/mkpimage.c`, with proofs of what they are meant to keep. Check it
with `dafny verify dfyconfig.toml`.

Kconfig computes in a logic of three values, n < m < y: `&&` is the minimum, `||` the maximum and
`!` is 2 - x. Dependencies are expressions over symbols in this logic. The model follows the four
parts that work on them, and the image writer:

1. **Expressions** (`Expr`, `Relations`, `Eliminate`, `EliminateSlots`, `EqualExact`, `Join`,
   `JoinExact`, `Slots`, `Dups`, `Normalize`, `ExprNodes`, `Submenu`, `SubmenuExact`, `Propagate`).
   The rewriters of `expr.c` keep the value of every expression under every assignment, end, and
   leave normal forms; `EqualExact` and `JoinExact` say exactly what they find. Each is a function on
   expressions. The in-place code refines it: `Dups.Rewriter` and `EliminateSlots.Pair` write
   through slots, which are paths into a tree held in a field; `ExprNodes` writes to linked nodes.
2. **Values** (`Symbols`, `ValueLaws`, `Settings`, `Engine`, `ChoiceGroup`, `CheckDeps`, `Ranks`,
   `MenuGraph`). `Symbols` defines the value of a symbol without a cache, and `ValueLaws` says what
   that means for selects, implies, prompts and defaults. `Engine.SymbolTable` is the code with
   its flags; its invariant says that whatever is marked valid agrees with that definition. Setting
   a symbol, choice groups and the cycle checker build on this. `MenuGraph` says which graph of
   symbols the menus of part 3 leave for them.
3. **Menus** (`MenuTree`, `MenuFlatten`, `MenuEffect`, `MenuArrange`, `MenuLifted`, `MenuFinalize`,
   `MenuBuild`, `MenuMeaning`). Nodes linked by `next`, `list` and `parent` represent trees
   (`MenuTree.Seg`). Building, automatic submenus, flattening and dependency propagation are methods
   on the pointers;
   `MenuArrange.Final` says on trees where every node ends up, `MenuLifted` what holds below a
   symbol there, and `MenuMeaning` what the menus as written mean for the values of symbols.
4. **Files** (`Escape`, `ConfFile`, `ConfExact`, `Lossless`, `ConfWrite`). What the writers write,
   what the reader makes of it, when saving and loading preserves all values, and that the minimal
   file has no line to spare.
5. **Boot images** (`Crc`, `CrcTable`, `CrcChange`, `ByteWords`, `Mkpimage`). The table-driven CRC
   is bitwise division by the generator polynomial of IEEE 802.3; the header leads to the entry
   point, with branches decoded as in section A8.8.18 of the ARM Architecture Reference Manual, DDI
   0406C.

## Assumptions of the code, stated in the model

- `modules_val` is a parameter of a configuration; without modules nothing holds m, a bool never
  holds m, and a symbol that is neither bool nor tristate holds n (`Expr.Sane`). `Symbols.CalcGood`
  proves that calculated values have these properties.
- Expressions and menus are trees without sharing.
- A bool or tristate is compared for (in)equality only with symbols or with y, m and n, and no
  operand of an ordering has type S_OTHER (`Expr.WellFormed`). `Join.NumeralsBreakTheJoin` and
  `Normalize.OtherOperandsBreakNegation` show what happens otherwise.
- `strtoll` and `strtoull` are one parameter, `strto`: the 64-bit number a text denotes in a given
  base, if it denotes one. Values of tristates are not numerals under it.
- mkpimage runs on a little-endian host: it stores the CRC as a word in the byte order of the host
  (`mkpimage.c:249-252`), and everything else byte by byte.

## Where the code differs from what one may expect

- The comment at `expr.c:561` says that `(a!='m') && (a!='n')` becomes `a='m'`. The code makes
  `a='y'`, which is right, and so does the model.
- `(a='b') && (a!='c')` drops the second test for any two different constant symbols. That keeps the
  value exactly if no tristate is named by both (`JoinExact.DifferentConstants`); two spellings of
  one number are (`Join.NumeralsBreakTheJoin`).
- `expr_join_and` finds every test that says what two tests of a tristate say; `expr_join_or` does
  not (`JoinExact.AndJoinsExactly`, `JoinExact.OrMissesAbsorption`). For a bool, `expr_join_and`
  does not find that `A && !A` is n (`JoinExact.BoolJoinsExactly`).
- Next to a hex, a negative int counts as the unsigned number with the same 64 bits
  (`Relations.NumberRelation`); two strings compare by their characters even if both are numerals
  (`Relations.TextRelation`).
- `expr_depends_symbol` looks at the operands of an AND and at nothing else, so it takes an
  expression that is n with the symbol for another reason for one that is not; on conjunctions it is
  exact (`SubmenuExact.DependsConjunction`).
- `expr_trans_compare` reads "!A is not n" as "A is n", which differs when A is m, and it compares
  an undefined symbol, an int or a string by its text although such a symbol counts as n. In either
  way an item can be moved into a submenu and stay visible where the symbol above it is not
  (`Submenu.NegatedEscapes`, `Submenu.UndefinedEscapes`). `Submenu.SubmenuSound` says when not.
- A symbol without a prompt takes over the siblings right behind it as long as they mention it,
  whether or not they depend on it (`Submenu.PromptlessTakesAll`). Flattening lifts these items out
  again, so they can end up below a symbol they have nothing to do with
  (`MenuLifted.LiftedEscapes`). `MenuBuild.LoadedFinalItems` says when that does no harm.
- The conditions of a bool are stored with A for `A != n`. For its visibility that makes no
  difference, but a select or imply of a bool under `A != n` gives m where A is m
  (`Propagate.BoolSelectsWeaker`).
- A definition without dependencies adds nothing to the direct dependencies of its symbol, because
  `expr_alloc_or` drops an operand that is NULL (`menu.c:496`). So a symbol defined once
  unconditionally and once under B has the direct dependency B (`MenuEffect.EffectOfLeaf`).
- A string whose default names a bool becomes "n" even where the bool is y, because only the
  tristate of a bool is calculated, not its text (`ValueLaws.LogicAsText`).
- `sym_set_tristate_value` accepts the value a symbol already has without a range test. The value
  can then change at the next calculation; `Settings.SettingSameValue` says exactly when.
- `conf_write_defconfig` calls what it skips redundant. For tristates it can skip a symbol that
  cannot be changed and whose default is stronger than its value. The file is lossless exactly if
  there is none (`Lossless.MinimalIsLossless`), and for bools there never is.
- Loading the full file can lose a value too: a default is not capped by the visibility, but the
  user value read back is (`Lossless.FullLosesValue`, exactly when: `Lossless.FullIsLossless`).
- `conf_write` right after `conf_write_defconfig` writes no symbol: the change count is up, so the
  flags are not calculated again (`ConfWrite.SaveBoth`).
- `sym_check_deps` does not follow `implied`, so a cycle through an imply is not reported
  (`CheckDeps.ImplyCycleUnseen`); but it
  follows the condition of an imply, so it can report a recursion where there is none
  (`MenuGraph.ReportsExactly`). `Ranks.SilenceExactly` and `Ranks.ImpliesExactly` say exactly when
  its silence can be trusted, the second for all loaded configurations (`MenuGraph.LoadedRanks`).
  And when it reports a recursion, the outermost call still returns NULL, so the error count in
  `conf_parse` stays 0 (`CheckDeps.Sweep`).
- A choice loses its user flag while a visible member has no user value
  (`ChoiceGroup.Choice.CalcSelected`).
- `main` of mkpimage accepts inputs of 80 bytes and more, with the CRC 84 bytes. With a trampoline a
  version 1 header needs 92. At 88 bytes the CRC replaces the trampoline, at 84 it replaces the
  checksum and the trampoline is written behind the buffer (`Mkpimage.CrcOverTrampoline`,
  `Mkpimage.CrcOverHeader`, `CrcChange.TrampolineLost`).

## Model

| member | source | states |
|---|---|---|
| Expr.StrcmpZero | buildstaq/support/kconfig/expr.c:1069-1085 | the string comparison of a relation is 0 exactly for equal strings |
| Expr.CompareWithConstant | buildstaq/support/kconfig/expr.c:1052-1103 | for a bool or tristate, = and != against y, m, n compare tristates, although the code compares texts and may parse numbers |
| Expr.EvalDependsOnSyms | buildstaq/support/kconfig/expr.c:1026-1104 | an expression has the same value under assignments that agree on the symbols it mentions |
| Expr.NegatedComparison | buildstaq/support/kconfig/expr.c:1052-1103 | the complementary relation has the complementary value if and only if it is = or !=, or the operands can be ordered at all |
| Relations.NumberRelation | buildstaq/support/kconfig/expr.c:986-1103 | symbols that denote numbers in the notation of their types compare as these numbers, next to a hex as unsigned ones of 64 bits; all six relations |
| Relations.LogicRelation | buildstaq/support/kconfig/expr.c:986-1103 | bools and tristates compare as n < m < y; all six relations |
| Relations.StrcmpOrder | buildstaq/support/kconfig/expr.c:1069-1085 | the string comparison is the order of a dictionary |
| Relations.TextRelation | buildstaq/support/kconfig/expr.c:1064-1103 | two strings compare as in a dictionary, even if both are numerals; all six relations |
| Relations.UndefinedNamesItself | buildstaq/support/kconfig/symbol.c:388-391 | a symbol nobody defines is n and its text is its name |
| Eliminate.EliminateYn | buildstaq/support/kconfig/expr.c:308-389 | constant folding never makes an expression larger |
| Eliminate.EliminateYnSound | buildstaq/support/kconfig/expr.c:308-389 | constant folding keeps the value under every assignment |
| Eliminate.EliminateYnNormal | buildstaq/support/kconfig/expr.c:308-389 | no AND or OR of the result has a constant operand; folding changes exactly the expressions that have one, and those get smaller |
| Eliminate.EliminateEq1 | buildstaq/support/kconfig/expr.c:149-189 | sizes never grow; without a hit nothing changes and nothing is factored out; an operand that was hit becomes the unit of the operator; an AND or OR keeps its root |
| Eliminate.EliminateEq1Common | buildstaq/support/kconfig/expr.c:149-189 | what one pass removes from both expressions is one and the same factor: both inputs are the outputs joined with it |
| Eliminate.EliminateEqCommonFactor | buildstaq/support/kconfig/expr.c:220-240 | there is M with e1 = e1' op M and e2 = e2' op M under every assignment, op being the operator of the pass that fired |
| Eliminate.ExprEqSound | buildstaq/support/kconfig/expr.c:251-295 | expressions the code calls equal have equal values under every assignment |
| EqualExact.EliminateCounts | buildstaq/support/kconfig/expr.c:149-189 | one pass takes away what two expressions have in common: every operand is left as often as the one has more of it than the other |
| EqualExact.EqualExactly | buildstaq/support/kconfig/expr.c:251-295 | for expressions without y and n, two of one type AND or OR are equal for the code if and only if every expression equals as many operands of the one as of the other |
| EqualExact.EqualEquivalence | buildstaq/support/kconfig/expr.c:251-295 | equality by the code is reflexive, symmetric and transitive on expressions without y and n |
| EqualExact.EqualRearranged | buildstaq/support/kconfig/expr.c:251-295 | the order and the nesting of operands do not matter to it |
| EqualExact.EliminatedExactly | buildstaq/support/kconfig/expr.c:220-240 | next to an AND, an expression becomes y if and only if the AND has all its operands, each as often |
| EqualExact.NothingEliminated | buildstaq/support/kconfig/expr.c:220-240 | next to anything else nothing becomes y |
| EliminateSlots.Pair.EliminateEq1 | buildstaq/support/kconfig/expr.c:149-189 | the in-place pass over two slots, each deep inside its tree, leaves everything else alone and counts its hits: it refines the function on values |
| EliminateSlots.Pair.EliminateEq | buildstaq/support/kconfig/expr.c:220-240 | both in-place passes and the folding give the pair of the function on values |
| EliminateSlots.ExprEq | buildstaq/support/kconfig/expr.c:251-295 | the comparison works on copies: it decides the predicate on values and leaves trans_count as it was |
| Join.JoinOrSound | buildstaq/support/kconfig/expr.c:423-485 | whatever an OR join returns has the value of the OR of its operands |
| Join.JoinAndSound | buildstaq/support/kconfig/expr.c:487-579 | the same for AND joins, on expressions that compare bools and tristates with symbols or y, m, n only |
| Join.JoinShape | buildstaq/support/kconfig/expr.c:423-579 | a join is never larger than its first operand and keeps negation normal form |
| Join.EqualIsJoined | buildstaq/support/kconfig/expr.c:430-433 | operands that are equal for the code are joined to the first |
| Join.NumeralsBreakTheJoin | buildstaq/support/kconfig/expr.c:531-545 | a concrete input for which joining (a=b) AND (a!=c) changes the value from n to y: two spellings of one number |
| JoinExact.AndJoinsExactly | buildstaq/support/kconfig/expr.c:516-569 | two tests of a tristate (the symbol itself, or = or != with y, m, n) are joined by AND if and only if one such test says what both say under every assignment, or one is the opposite of the other |
| JoinExact.OrJoinsExactly | buildstaq/support/kconfig/expr.c:449-472 | OR joins such tests if and only if they are equal or both test for equality, and the join is again such a test |
| JoinExact.OrMissesAbsorption | buildstaq/support/kconfig/expr.c:449-472 | a pair that one test says under every assignment but that OR does not join |
| JoinExact.BoolJoinsExactly | buildstaq/support/kconfig/expr.c:423-579 | a bool and its negation: OR joins any two of them, AND only equal ones |
| JoinExact.DifferentSymbols | buildstaq/support/kconfig/expr.c:423-579 | tests of different symbols are never joined |
| JoinExact.NamesExactly | buildstaq/support/kconfig/expr.c:1052-1103 | a tristate equals a constant exactly where the constant names its value: as y, m or n, as a number, or as a text that is no number |
| JoinExact.DifferentConstants | buildstaq/support/kconfig/expr.c:531-545 | dropping the second test of (a=b) AND (a!=c) for different constants keeps the value under every assignment if and only if no tristate is named by both constants |
| Dups.Dups1 | buildstaq/support/kconfig/expr.c:588-643 | a pass over pairs of slots keeps the spine; no join means no change, and a join leaves a constant operand behind for the folding |
| Dups.Dups1Sound | buildstaq/support/kconfig/expr.c:588-643 | the pass keeps the value, well-formedness and normal form, also when one slot lies inside the other |
| Dups.Dups1Complete | buildstaq/support/kconfig/expr.c:588-643 | when a pass joins nothing, no two different operands below its two slots can be joined, and neither can operands inside them |
| Dups.DeduplicateSound | buildstaq/support/kconfig/expr.c:656-678 | expr_eliminate_dups keeps the value under every assignment |
| Dups.DeduplicateComplete | buildstaq/support/kconfig/expr.c:656-678 | on exit no two different operands of any AND or OR the rewriter looks at can be joined; the result is smaller or the very same expression |
| Dups.NoneTwice | buildstaq/support/kconfig/expr.c:656-678 | no two operands of the result are equal for the code |
| Dups.DeduplicateTwice | buildstaq/support/kconfig/expr.c:656-678 | a second call finds nothing left to do |
| Dups.Rewriter.EliminateDups1 | buildstaq/support/kconfig/expr.c:588-643 | the in-place pass, with slots as paths into one tree that it overwrites, refines the function on values and counts its joins |
| Dups.Rewriter.EliminateDups | buildstaq/support/kconfig/expr.c:656-678 | the loop ends, leaves an irreducible expression and restores trans_count |
| Normalize.Transform | buildstaq/support/kconfig/expr.c:686-841 | expr_transform ends although De Morgan steps grow the tree; the result is in negation normal form, compares no bool with y, m, n, and has no more AND and OR nodes than the input |
| Normalize.TransformSound | buildstaq/support/kconfig/expr.c:686-841 | the value is kept under every assignment |
| Normalize.TransformFixpoint | buildstaq/support/kconfig/expr.c:686-841 | exactly the normal expressions are left alone; transforming twice is transforming once |
| Normalize.OtherOperandsBreakNegation | buildstaq/support/kconfig/expr.c:770-785 | a concrete input of type S_OTHER for which negating an ordering changes the value |
| Normalize.TransBoolSound | buildstaq/support/kconfig/expr.c:394-418 | on negation normal form the result is n exactly when the expression is, and never larger |
| Normalize.TransBoolNeedsNnf | buildstaq/support/kconfig/expr.c:394-418 | a concrete input with a NOT above a comparison for which it turns n into m |
| Normalize.TransBoolExact | buildstaq/support/kconfig/expr.c:394-418 | no tristate is tested for being other than n any more, and only expressions with such a test change |
| Normalize.RewriteMSound | buildstaq/support/kconfig/menu.c:81-104 | the rewritten expression has the value of the original where the constant m reads as m AND MODULES |
| ExprNodes.EliminateYnInPlace | buildstaq/support/kconfig/expr.c:308-389 | the version that overwrites nodes on the heap comes to represent the folded expression, touching no node outside the tree |
| ExprNodes.TransBoolInPlace | buildstaq/support/kconfig/expr.c:394-418 | the same for expr_trans_bool |
| ExprNodes.TransformInPlace | buildstaq/support/kconfig/expr.c:686-841 | the same for expr_transform with its new nodes: the node returned represents the transformed expression and only nodes of the tree have changed |
| ExprNodes.RewriteMInPlace | buildstaq/support/kconfig/menu.c:81-104 | the same for rewrite_m |
| ExprNodes.ExprCopy | buildstaq/support/kconfig/expr.c:65-104 | a copy represents the same expression in new nodes, disjoint from all old ones |
| Submenu.DependsSound | buildstaq/support/kconfig/expr.c:871-898 | an expression that depends on a symbol is n whenever the symbol is n |
| Submenu.DependsExactly | buildstaq/support/kconfig/expr.c:871-898 | a single test of a tristate depends on it if and only if it is n under every assignment in which the tristate is n |
| SubmenuExact.DependsConjunction | buildstaq/support/kconfig/expr.c:871-898 | for a conjunction of bools and tristates, their negations and their comparisons with y, m, n that can be met at all: it passes the test for a symbol if and only if it is n whenever the symbol is |
| SubmenuExact.DependsOnEach | buildstaq/support/kconfig/expr.c:877-879 | an AND of symbols, however nested, passes the test for exactly its symbols |
| Submenu.TransCompareSound | buildstaq/support/kconfig/expr.c:914-977 | comparing a dependency with n through expr_trans_compare sees a strict value other than n if the symbols it negates tell, and the strict value n if its bare symbols do; a symbol tells if it is bool, tristate, a constant or has the text n |
| Submenu.TellsExactly | buildstaq/support/kconfig/expr.c:969-970 | a symbol compares with n as its value does if and only if it tells |
| Submenu.TransCompareExactly | buildstaq/support/kconfig/expr.c:945-946 | for a single symbol, bare or negated, that condition is exact |
| Submenu.StrictEvalBound | buildstaq/support/kconfig/expr.c:914-977 | the strict value, in which a negated symbol counts only when it is n, never exceeds the value and equals it where no negated symbol is m |
| Submenu.NotNoSound | buildstaq/support/kconfig/menu.c:472-473 | the simplified comparison menu_finalize works with is y for a strict value other than n if the negated symbols tell, and n for the strict value n if the bare symbols do |
| Submenu.SubmenuSound | buildstaq/support/kconfig/menu.c:448-488 | an item moved under a symbol is n whenever the symbol is, or else can be non-n only if the prompt of the symbol is visible, where no symbol the item negates is m, those symbols tell, and so do the bare symbols of the dependency of the prompt |
| Submenu.PromptlessTakesAll | buildstaq/support/kconfig/menu.c:454-483 | under a symbol without a prompt an item moves if and only if it mentions the symbol |
| Submenu.AlwaysTakesAll | buildstaq/support/kconfig/menu.c:454-483 | the same for a symbol whose prompt asks for nothing |
| SubmenuExact.BelongsExactly | buildstaq/support/kconfig/menu.c:454-483 | an item that asks for several things moves if and only if it mentions the symbol and passes the test for it or asks for all the prompt asks for |
| SubmenuExact.BelongsAlone | buildstaq/support/kconfig/menu.c:454-483 | an item that asks for one thing moves if and only if it passes the test for the symbol |
| Submenu.NegatedEscapes | buildstaq/support/kconfig/menu.c:463-483 | a concrete item that is moved and visible while the prompt is not, because a negated symbol is m, or because nobody defines it |
| Submenu.UndefinedEscapes | buildstaq/support/kconfig/menu.c:463-483 | a concrete item that is moved and visible while the prompt is not, because nobody defines the symbol the prompt depends on |
| Propagate.PreparedSound | buildstaq/support/kconfig/menu.c:348-349 | rewrite_m followed by expr_transform means the expression with m read as m AND MODULES, in normal form |
| Propagate.EntryDepSound | buildstaq/support/kconfig/menu.c:348-352 | the dependency stored in an entry has exactly the value of the unsimplified conjunction with its parent's |
| Propagate.PropertyCondSound | buildstaq/support/kconfig/menu.c:392-398 | the condition stored in a property is n exactly when the unsimplified conjunction is, never stronger, and for tristates has the same value |
| Propagate.NoTestsNonN | buildstaq/support/kconfig/menu.c:385-401 | a property of anything but a tristate asks for tristates themselves where it asked whether they are other than n |
| Propagate.BoolSelectsWeaker | buildstaq/support/kconfig/menu.c:385-411 | so a select of a bool under A != n gives m where A is m |
| Propagate.BooleanVisibilityUnchanged | buildstaq/support/kconfig/menu.c:392-398 | the visibility of a bool, where m counts as y, is unchanged |
| Symbols.CalcAgree | buildstaq/support/kconfig/symbol.c:357-498 | the rule of a symbol depends on nothing but the values of the symbols it reads |
| Symbols.PlainIsSolution | buildstaq/support/kconfig/symbol.c:357-498 | on an acyclic graph the recursive definition gives every symbol the value of its own rule |
| Symbols.SolutionUnique | buildstaq/support/kconfig/symbol.c:357-498 | no other assignment does |
| Symbols.CalcGood | buildstaq/support/kconfig/symbol.c:442-444 | calculated bools never hold m, and nothing holds m without modules |
| ValueLaws.FirstDefaultExactly | buildstaq/support/kconfig/symbol.c:115-127 | the default that counts is the first whose condition is not n |
| ValueLaws.PartsExactly | buildstaq/support/kconfig/symbol.c:209-269 | exactly when visibility, direct, reverse and implied dependencies are n, and when y, in terms of the expressions |
| ValueLaws.ValueExactly | buildstaq/support/kconfig/symbol.c:398-448 | exactly when a bool or tristate is n, and when y: in terms of its selects, its prompts, the user value, its defaults and its implies |
| ValueLaws.SelectForces | buildstaq/support/kconfig/symbol.c:247-440 | a select holds whatever the dependencies, the prompts and the user say |
| ValueLaws.ImplyHolds | buildstaq/support/kconfig/symbol.c:257-427 | an imply holds for a symbol without user value whose dependencies are met, and adds nothing where they are not |
| ValueLaws.UserCounts | buildstaq/support/kconfig/symbol.c:404-413 | a user value between selects and visibility counts as it is, and gets nobody beyond the visibility |
| ValueLaws.InvisibleIgnoresUser | buildstaq/support/kconfig/symbol.c:404-455 | without a visible prompt the user value changes nothing |
| ValueLaws.TextExactly | buildstaq/support/kconfig/symbol.c:449-465 | an int, hex or string has the text of the user or else that of the symbol its first met default names |
| ValueLaws.LogicAsText | buildstaq/support/kconfig/symbol.c:386-465 | a bool or tristate that a default of a text names gives n, whatever its value |
| ValueLaws.WrittenExactly | buildstaq/support/kconfig/symbol.c:390-465 | a bool or tristate is written unless it is n without a visible prompt, a text if it has a visible prompt or a default |
| Engine.SymbolTable.CalcExpr | buildstaq/support/kconfig/expr.c:1026-1104 | evaluating through the cache, calculating symbols on the way, gives the value under the cache-free definition |
| Engine.SymbolTable.CalcVisibility | buildstaq/support/kconfig/symbol.c:209-270 | visibility, dir_dep, rev_dep and implied are those of the cache-free definition; curr and SYMBOL_WRITE stay |
| Engine.SymbolTable.CalcLogic | buildstaq/support/kconfig/symbol.c:405-445 | with user values, defaults, implies, selects and promotion the stored state is the final one |
| Engine.SymbolTable.CalcText | buildstaq/support/kconfig/symbol.c:446-462 | the same for int, hex and string symbols |
| Engine.SymbolTable.CalcValue | buildstaq/support/kconfig/symbol.c:357-498 | ends on every graph, cyclic ones included; on an acyclic one every symbol marked valid, in whatever order they are asked for, has the value of the cache-free definition, and entries that were valid stay; that value is at least what the selects of the symbol give |
| Engine.SymbolTable.ClearAllValid | buildstaq/support/kconfig/symbol.c:500-509 | whatever is valid afterwards, MODULES included, has been calculated afresh, and the cache is coherent |
| Engine.SymbolTable.Calculated | buildstaq/support/kconfig/symbol.c:357-498 | what a valid entry holds: curr, visibility and the three dependencies of the unique solution, and SYMBOL_WRITE unless a writer took it |
| Engine.SymbolTable.Load | buildstaq/support/kconfig/confdata.c:293-310 | replacing all user values invalidates everything; the solution is then that of the new user values |
| Engine.SymbolTable.TristateWithinRange | buildstaq/support/kconfig/symbol.c:511-530 | the range test answers the predicate the setting theorems are about |
| Engine.SymbolTable.SetTristateValue | buildstaq/support/kconfig/symbol.c:532-566 | accepted exactly if unchanged or within range; what is refused is neither the value of the symbol nor one it would get, and a refusal changes nothing; where MODULES keeps its value, which it does if it does not depend on the symbol, a value within range becomes the value of the symbol and symbols that do not depend on it keep theirs |
| Engine.SymbolTable.GetStringDefault | buildstaq/support/kconfig/symbol.c:732-801 | reports the value the symbol gets in the whole graph when its user value is dropped, and leaves its cache entry as it is |
| Settings.SettingTakesEffect | buildstaq/support/kconfig/symbol.c:511-566 | between two solutions: a value within range is the new value, and whatever does not depend on the symbol keeps its own |
| Settings.InRangeExactly | buildstaq/support/kconfig/symbol.c:508-530 | a value is within range if and only if the symbol is changeable, the value does not exceed the visibility, and the symbol would get it |
| Settings.ChangeableExactly | buildstaq/support/kconfig/symbol.c:827-830 | a bool or tristate is changeable if and only if some value is within range |
| Settings.SettingSameValue | buildstaq/support/kconfig/symbol.c:536-563 | storing the value a symbol already has, which skips the range test, survives the next calculation if and only if the symbol is invisible, or the value is within its visibility, equals rev_dep, or implied is y |
| Settings.HarmlessUserValue | buildstaq/support/kconfig/symbol.c:536-563 | a user value that does not change its own symbol changes no symbol at all |
| Settings.OthersKeepValue | buildstaq/support/kconfig/symbol.c:536-563 | a changed user value is noticed only by symbols that depend on its symbol |
| Settings.DefaultIsValueWithoutUser | buildstaq/support/kconfig/symbol.c:732-801 | the default sym_get_string_default computes is the result of the rule of the calculator without the user value, although promotion comes before imply in one and after it in the other |
| Settings.DefaultIsValueAfterDropping | buildstaq/support/kconfig/symbol.c:732-801 | the default reported as things stand is the value of the symbol in the solution without its user value |
| Settings.ModulesReachesOthers | buildstaq/support/kconfig/symbol.c:472-478 | a concrete tristate that mentions MODULES nowhere and changes with modules_val |
| Settings.SettingWithModules | buildstaq/support/kconfig/symbol.c:532-566 | an accepted setting of any symbol, with modules_val calculated anew, takes effect and leaves what does not depend on the symbol alone whenever MODULES keeps its value |
| MenuTree.Advance | buildstaq/support/kconfig/confdata.c:812-824 | one step of the walk without a stack leads to the node behind the current one in the preorder, and ends the walk if there is none |
| MenuTree.Walk | buildstaq/support/kconfig/confdata.c:792-825 | the walk ends and visits every node below the root once, in preorder |
| MenuTree.Apart | buildstaq/support/kconfig/menu.c:47-75 | in a tree without sharing, the pieces have no node in common |
| MenuBuild.Builder.constructor | buildstaq/support/kconfig/menu.c:41-45 | a root alone, where the next entry becomes its first child |
| MenuBuild.Builder.AddEntry | buildstaq/support/kconfig/menu.c:47-63 | a new node becomes the last child of the innermost open menu; the pointers represent that tree |
| MenuBuild.Builder.AddMenu | buildstaq/support/kconfig/menu.c:65-69 | the last entry becomes the innermost open menu |
| MenuBuild.Builder.EndMenu | buildstaq/support/kconfig/menu.c:71-75 | the innermost menu is closed and becomes the last child of the one around it |
| MenuBuild.Build | buildstaq/support/kconfig/menu.c:41-75 | for every bracketed sequence of commands the tree has its nodes in the order of creation, each in the menus that were open, without sharing, and every entry has a node with its data |
| MenuBuild.OneForest | buildstaq/support/kconfig/menu.c:41-75 | nodes in preorder and the number of menus each is in make one forest only: so the tree built is the one the brackets describe |
| MenuBuild.LoadDone | buildstaq/support/kconfig/menu.c:296-577 | what finalising the root leaves: same preorder, every node in the list of its parent, children only below prompts |
| MenuBuild.SegHeld | buildstaq/support/kconfig/menu.c:296-577 | in a represented forest every node is on the list of the node its parent pointer names |
| MenuBuild.CleanMeans | buildstaq/support/kconfig/menu.c:567-576 | the invariant on trees is what the pointers show: a node with children has a prompt |
| MenuBuild.Load | buildstaq/support/kconfig/zconf.y:537-553 | parsing and finalising: preorder equals creation order, every node hangs where its parent pointer says, each is finalised exactly once, only the root may keep children without a prompt, dependencies, selects, implies and definitions are recorded as Effect says, and the final tree is Final of the tree that was built |
| MenuBuild.LoadedMeaning | buildstaq/support/kconfig/menu.c:335-413 | after loading, every dependency and condition in the tree is n exactly when the conjunction of all dependencies around it, as written, is n |
| MenuBuild.LoadedSubmenus | buildstaq/support/kconfig/menu.c:448-488 | after loading, every item that an automatic submenu holds before flattening is sound below its symbol, in the sense of SubmenuSound |
| MenuBuild.LoadedFinalItems | buildstaq/support/kconfig/menu.c:335-576 | after loading, every item below a symbol in the final tree is visible only where an item that is sound below the symbol is, if every symbol without a prompt that took over items is n where its dependencies are and these items depend on it |
| MenuEffect.AddTargetsValue | buildstaq/support/kconfig/menu.c:404-412 | a reverse (or implied) dependency is the strongest of all selects (implies) naming the symbol |
| MenuEffect.EffectAppend | buildstaq/support/kconfig/menu.c:296-497 | finalising one group of trees and then another has the effect of finalising both |
| MenuEffect.EffectOfChildren | buildstaq/support/kconfig/menu.c:335-424 | passing a dependency to the children and then finalising them has the effect promised for the node |
| MenuEffect.EffectOfLeaf | buildstaq/support/kconfig/menu.c:496 | a definition adds its dependency to dir_dep of its symbol |
| MenuEffect.InheritsMeans | buildstaq/support/kconfig/menu.c:335-398 | through any depth of nesting, simplified dependencies and conditions are n exactly when the plain conjunctions are |
| MenuFlatten.Reparent | buildstaq/support/kconfig/menu.c:568-572 | all nodes of a list get the new parent; the last one is found |
| MenuFlatten.Lift | buildstaq/support/kconfig/menu.c:567-576 | the children of a node without a prompt end up behind it, in order, in the list of its parent |
| MenuFlatten.FlattenedPre | buildstaq/support/kconfig/menu.c:567-576 | flattening keeps the preorder |
| MenuFlatten.FlattenedHolds | buildstaq/support/kconfig/menu.c:567-576 | a child with a prompt keeps what it holds, one without hands it to the menu |
| MenuFlatten.FlattenedClean | buildstaq/support/kconfig/menu.c:567-576 | afterwards no node without a prompt keeps children |
| MenuFlatten.Flatten | buildstaq/support/kconfig/menu.c:498-577 | the loop over the pointers refines flattening on trees, also where a node just lifted is itself flattened |
| MenuFinalize.Finalizer.PropagateEntry | buildstaq/support/kconfig/menu.c:344-413 | one child gets its dependency, its properties their conditions, and its selects and implies are recorded |
| MenuFinalize.Finalizer.PropagateAll | buildstaq/support/kconfig/menu.c:342-414 | so does every child, and nothing else changes |
| MenuFinalize.Finalizer.TakeOver | buildstaq/support/kconfig/menu.c:452-488 | the siblings taken over all passed the test, the first one left did not |
| MenuFinalize.Finalizer.MakeSubmenu | buildstaq/support/kconfig/menu.c:448-494 | the pointers are cut behind the last sibling taken over: an automatic submenu and the rest, nothing lost |
| MenuFinalize.Finalizer.GatherSubmenu | buildstaq/support/kconfig/menu.c:425-497 | the children of a symbol are those siblings, each of which belongs under it |
| MenuFinalize.Finalizer.GatherChildren | buildstaq/support/kconfig/menu.c:304-424 | the children of a menu, finalised, in their order |
| MenuFinalize.Finalizer.FinalizeMenu | buildstaq/support/kconfig/menu.c:296-577 | ends; the node becomes the tree Final says, with the same preorder, in which only nodes with a prompt keep children; the siblings left over are untouched, every node is finalised exactly once and dependencies are propagated and recorded once |
| MenuArrange.TakenMove | buildstaq/support/kconfig/menu.c:452-488 | the siblings that Final moves under a symbol all pass the test, and the first that stays does not |
| MenuArrange.FinalSame | buildstaq/support/kconfig/menu.c:296-577 | where a menu ends up depends only on the dependencies of the nodes dealt with and of their siblings, so later calls do not change it |
| MenuArrange.SubmenuItemsSound | buildstaq/support/kconfig/menu.c:448-488 | the items Final moves under a symbol are n whenever the symbol is, or visible only where its prompt is |
| MenuLifted.FlattenedUp | buildstaq/support/kconfig/menu.c:567-576 | what flattening lifts is visible only where what it has been lifted out of is, if that is so from child to parent below nodes without a prompt |
| MenuLifted.FinalItemsSound | buildstaq/support/kconfig/menu.c:448-576 | all items below a symbol in the final tree, lifted ones included, are visible only where an item sound below the symbol is, if children support their promptless parents |
| MenuLifted.SupportedWhen | buildstaq/support/kconfig/menu.c:335-413 | items of an if block always support it, since its dependency is passed down; items taken over by a promptless symbol do if they depend on it and it is n where its dependencies are |
| MenuLifted.SupportedIsSound | buildstaq/support/kconfig/menu.c:448-576 | so the items below all symbols of a tree are sound |
| MenuLifted.LiftedEscapes | buildstaq/support/kconfig/menu.c:448-576 | a concrete item that is lifted out of a symbol without a prompt and is visible below another symbol where both that and its prompt are n |
| Escape.UnquoteEscaped | buildstaq/support/kconfig/confdata.c:161-174 | unquoting undoes quoting for every string, whatever follows the closing quote |
| Escape.EscapedInjective | buildstaq/support/kconfig/symbol.c:962-1003 | two strings never share a quoted form |
| Escape.ShortestQuoted | buildstaq/support/kconfig/symbol.c:962-1004 | no shorter text reads as the string: only what has to be quoted is |
| Escape.EscapedSize | buildstaq/support/kconfig/symbol.c:969-981 | the first loop computes exactly the length of what will be written, with terminator |
| Escape.ClosedExactly | buildstaq/support/kconfig/confdata.c:163-173 | a text can be read if and only if a quote with an even number of backslashes in front closes it |
| Escape.SymEscapeStringValue | buildstaq/support/kconfig/symbol.c:962-1003 | the second loop fills the buffer exactly, inside its bounds, with the quoted string |
| Escape.UnquoteInPlace | buildstaq/support/kconfig/confdata.c:161-174 | the loop with strpbrk and memmove in the line buffer gives what unquoting gives, and fails exactly when there is no closing quote |
| ConfFile.ConfReadSimple | buildstaq/support/kconfig/confdata.c:293-401 | reading a file is reading its lines in turn, from no user values |
| ConfFile.WrittenLineIsRead | buildstaq/support/kconfig/confdata.c:312-401 | the line written for a symbol, read back, sets that symbol to the value written and nothing else |
| ConfFile.EscapedIsRead | buildstaq/support/kconfig/confdata.c:160-174 | a quoted string is read as a string value |
| ConfFile.ListedOnce | buildstaq/support/kconfig/confdata.c:803-810 | a writer lists each symbol it picks once, even if it has several menus |
| ConfFile.ListedInOrder | buildstaq/support/kconfig/confdata.c:667-738 | and they stand in the order of their first mention |
| ConfFile.OffIsComment | buildstaq/support/kconfig/confdata.c:487-511 | a bool or tristate is written as a comment exactly if it is n |
| ConfFile.WrittenFileIsRead | buildstaq/support/kconfig/confdata.c:312-401 | a written file, read back, gives exactly the symbols written their values |
| ConfExact.LogicAccepted | buildstaq/support/kconfig/confdata.c:130-151 | a text sets a bool or tristate to a value exactly if it begins with its letter, m for tristates only |
| ConfExact.IntAccepted | buildstaq/support/kconfig/symbol.c:598-610 | exactly the whole numbers in decimal notation without leading zeros, and -0, are ints |
| ConfExact.HexAccepted | buildstaq/support/kconfig/symbol.c:611-619 | exactly the nonempty strings of hexadecimal digits, with 0x or 0X in front or without, are hexes |
| ConfExact.StringAccepted | buildstaq/support/kconfig/confdata.c:160-183 | a string needs an opening quote and one that closes it, and becomes what stands between them |
| ConfExact.ReadFits | buildstaq/support/kconfig/confdata.c:312-401 | whatever a file says, the values read are those of known symbols and fit their types |
| ConfExact.AssignEndings | buildstaq/support/kconfig/confdata.c:347-357 | lines may end with or without line feed and carriage return |
| ConfExact.IgnoredLine | buildstaq/support/kconfig/confdata.c:312-380 | lines about unknown symbols, with values that do not fit, or saying of a text that it is not set change nothing |
| ConfExact.SettingLine | buildstaq/support/kconfig/confdata.c:312-380 | every other assignment or comment sets its symbol, whatever came before, and no other |
| Lossless.MinimalReadBack | buildstaq/support/kconfig/confdata.c:663-719 | what the minimal file holds for a symbol is read back as its value |
| Lossless.MinimalIsLossless | buildstaq/support/kconfig/confdata.c:663-738 | saving the minimal file and loading it gives all symbols their values if and only if every symbol that is written but that the user cannot change has its default |
| Lossless.NoneToSpare | buildstaq/support/kconfig/confdata.c:667-738 | without a user value, each symbol of the minimal file loses its value |
| Lossless.MinimalIsLeast | buildstaq/support/kconfig/confdata.c:667-738 | whatever file restores the values sets every symbol that the minimal file sets |
| Lossless.BooleanIsLossless | buildstaq/support/kconfig/confdata.c:663-738 | for graphs of symbols that are bool (or tristate without modules), with texts, that is always so |
| Lossless.TristateLosesValue | buildstaq/support/kconfig/confdata.c:692-698 | a concrete graph of two tristates for which it is not |
| Lossless.FullIsLossless | buildstaq/support/kconfig/confdata.c:787-826 | the full file is lossless if and only if each bool or tristate that is visible is within its visibility, at the value select forces, or implied with y |
| Lossless.FullLosesValue | buildstaq/support/kconfig/confdata.c:787-826 | a concrete graph of two tristates for which the full file is not lossless |
| Lossless.DroppingInvisible | buildstaq/support/kconfig/confdata.c:448-456 | dropping the user values of invisible symbols after loading changes no value |
| ConfWrite.DefconfigEntry | buildstaq/support/kconfig/confdata.c:688-720 | one menu adds the line of its symbol exactly if the symbol belongs to the minimal file and no menu has added it |
| ConfWrite.FullEntry | buildstaq/support/kconfig/confdata.c:803-810 | the same for the full file |
| ConfWrite.ConfWriteDefconfig | buildstaq/support/kconfig/confdata.c:667-738 | the loop writes exactly the lines of the minimal file, each once, where a menu mentions the symbol first |
| ConfWrite.ConfWrite | buildstaq/support/kconfig/confdata.c:787-826 | the same for the full file, less the symbols whose SYMBOL_WRITE an earlier writer has taken if the cache is not cleared first |
| ConfWrite.SaveBoth | buildstaq/support/kconfig/confdata.c:789-826 | a full file written right after a minimal one holds no symbol |
| ConfWrite.SaveAndLoad | buildstaq/support/kconfig/confdata.c:667-738 | writing with the loop and reading back restores the solution if and only if fixed symbols have their defaults; for bool graphs always |
| CheckDeps.NoCycleWhenFinished | buildstaq/support/kconfig/symbol.c:1312-1344 | if every symbol is finished after all it depends on, there is no cycle |
| CheckDeps.FinishedRanks | buildstaq/support/kconfig/symbol.c:1312-1344 | the order of finishing ranks every graph the checker has swept in silence by the edges it follows, and for the calculator too if that reads no more |
| CheckDeps.Checker.CheckDeps | buildstaq/support/kconfig/symbol.c:1312-1344 | ends on every graph; without a report the symbol and all it depends on are finished; a symbol returned is still being checked, so the outermost call returns nothing |
| CheckDeps.Checker.CheckExpr | buildstaq/support/kconfig/symbol.c:1206-1238 | the same for all symbols of an expression |
| CheckDeps.Checker.CheckSymDeps | buildstaq/support/kconfig/symbol.c:1240-1273 | the same for rev_dep, conditions and defaults of a symbol |
| CheckDeps.Checker.PrintRecursive | buildstaq/support/kconfig/symbol.c:1128-1204 | the chain reported is a cycle, and the message for an empty stack never appears |
| CheckDeps.Sweep | buildstaq/support/kconfig/zconf.y:554-559 | a recursion is reported if and only if the graph has a cycle, every report is one, and the number of errors the caller counts is always 0 |
| CheckDeps.ImplyCycleUnseen | buildstaq/support/kconfig/symbol.c:1249-1267 | a concrete graph without a cycle for the checker that cannot be ranked for the calculator: the cycle goes through an imply |
| CheckDeps.SelectConditionUnseen | buildstaq/support/kconfig/symbol.c:1252-1260 | a concrete graph in which only the condition of a select leads back: no cycle is reported, and there is none |
| Ranks.RankedExactly | buildstaq/support/kconfig/symbol.c:357-498 | the graph the calculator reads can be ranked if and only if it has no cycle |
| Ranks.SilenceExactly | buildstaq/support/kconfig/symbol.c:1206-1344 | after a silent sweep the calculator has no cycle if and only if no step the checker does not follow closes one |
| Ranks.ImpliesExactly | buildstaq/support/kconfig/symbol.c:1206-1344 | where implies are all the checker does not follow: if and only if no symbol is implied by an expression over symbols that, directly or on the way, ask for it |
| MenuGraph.ReadsFollowed | buildstaq/support/kconfig/symbol.c:1206-1344 | in the graph of a loaded configuration the calculator reads nothing the checker does not follow, apart from implies: direct dependencies are followed through the P_SYMBOL property |
| MenuGraph.EdgesExactly | buildstaq/support/kconfig/symbol.c:1206-1273 | in the graph of a loaded configuration the checker follows what the calculator reads, apart from implies, and the conditions of implies, and nothing else |
| MenuGraph.ReportsExactly | buildstaq/support/kconfig/symbol.c:1206-1344 | there, a reported cycle is one of the calculator or uses the condition of an imply, and a cycle of the calculator without implies is one the checker can report |
| MenuGraph.LoadedRanks | buildstaq/support/kconfig/symbol.c:1206-1344 | so after a silent sweep over the graph of a loaded configuration the calculator has no cycle if and only if no symbol is implied by an expression over symbols that, directly or on the way, ask for it |
| MenuMeaning.LoadedVisible | buildstaq/support/kconfig/menu.c:335-413 | after loading, a symbol is visible if and only if some entry prompts for it where all dependencies around the entry and its prompt, as written, are met |
| MenuMeaning.LoadedDefault | buildstaq/support/kconfig/menu.c:335-413 | the default a symbol gets is the first, in the order of the menus, that stands where all dependencies around its entry and its own, as written, are met |
| MenuMeaning.LoadedSelected | buildstaq/support/kconfig/menu.c:335-413 | it is selected if and only if an entry whose symbol is not n selects it where all dependencies around the entry and the select, as written, are met |
| MenuMeaning.LoadedImplied | buildstaq/support/kconfig/menu.c:335-413 | the same for implies, where the direct dependencies of the symbol are met |
| MenuMeaning.LoadedSelectForces | buildstaq/support/kconfig/menu.c:335-413 | so such a select forces its symbol in every solution, whatever the user says |
| ChoiceGroup.FirstVisible | buildstaq/support/kconfig/symbol.c:294-301 | the fallback is the first visible member in their order; there is none only if no member is visible |
| ChoiceGroup.FirstDefault | buildstaq/support/kconfig/symbol.c:284-292 | the first default whose condition is met and that is visible; there is none only if no default is so |
| ChoiceGroup.Choice.SelectionExactly | buildstaq/support/kconfig/symbol.c:278-330 | without a visible member of the user, the first default that applies is selected, and where none applies the first visible member |
| ChoiceGroup.BaseExactly | buildstaq/support/kconfig/symbol.c:398-448 | a choice with a visible prompt is y, unless it is optional and the user has not asked for it |
| ChoiceGroup.VisibleExactly | buildstaq/support/kconfig/symbol.c:209-240 | a member is visible exactly while the choice is not n and its own condition is met |
| ChoiceGroup.Choice.ChoiceDefault | buildstaq/support/kconfig/symbol.c:278-302 | defaults come first, then the first visible member |
| ChoiceGroup.Choice.CalcSelected | buildstaq/support/kconfig/symbol.c:304-334 | a visible member is selected if there is one, the user's if that is visible; the user flag survives exactly if all visible members have one |
| ChoiceGroup.Choice.CalcChoice | buildstaq/support/kconfig/symbol.c:357-498 | the choice is y exactly if its own rule says so and some member is visible; what is selected is the Selection, and the user flag survives exactly if all visible members have one |
| ChoiceGroup.Choice.CalcMember | buildstaq/support/kconfig/symbol.c:408-411 | calculating a member, in any order, calculates the choice first and keeps the invariant |
| ChoiceGroup.Choice.AlwaysExclusive | buildstaq/support/kconfig/symbol.c:278-334 | once calculated, the choice is y exactly if one member is; it is the only one, visible and selected |
| ChoiceGroup.Choice.SetMember | buildstaq/support/kconfig/symbol.c:532-566 | accepted exactly if unchanged, or y for a visible member; then that member is the user's choice and all visible members count as set; n changes its own user value alone |
| ChoiceGroup.Choice.SetChoice | buildstaq/support/kconfig/symbol.c:532-566 | accepted exactly if unchanged, or y or n for an optional choice that is visible; otherwise nothing changes |
| ChoiceGroup.Choice.Choose | buildstaq/support/kconfig/symbol.c:532-566 | setting a visible member to y makes it the selected one: after recalculation it is y and all others are n |
| ChoiceGroup.Run | buildstaq/support/kconfig/symbol.c:278-334 | exclusivity holds after any sequence of settings, accepted or not, changes elsewhere and recalculations |
| Crc.Linear | buildstaq/package/mkpimage/mkpimage.c:150-158 | a step of the bitwise division is linear in register and input |
| Crc.ShiftsOut | buildstaq/package/mkpimage/mkpimage.c:150-158 | a byte equal to the upper byte of the register cancels it, and the rest only moves up |
| Crc.TableStep | buildstaq/package/mkpimage/mkpimage.c:150-158 | moving the register up and adding the remainder of its upper byte and the input is a step of the division |
| Crc.RemainderSum | buildstaq/package/mkpimage/mkpimage.c:104-148 | the remainder of a sum is the sum of the remainders |
| CrcTable.EntryIsRemainder | buildstaq/package/mkpimage/mkpimage.c:104-148 | all 256 entries are the remainders of their indices |
| CrcTable.Crc32ByteIsDivision | buildstaq/package/mkpimage/mkpimage.c:154-155 | one turn of the loop is eight steps of the division by 0x04c11db7, most significant bit first |
| CrcTable.Crc32 | buildstaq/package/mkpimage/mkpimage.c:150-158 | for every buffer, length and start value the loop returns the remainder of the bitwise division |
| CrcChange.ByteInjective | buildstaq/package/mkpimage/mkpimage.c:154-155 | registers that differ still differ after any byte |
| CrcChange.OneByteShows | buildstaq/package/mkpimage/mkpimage.c:150-158 | buffers that differ in one byte have different CRCs |
| Mkpimage.Le4 | buildstaq/package/mkpimage/mkpimage.c:213-236 | four bytes written by shifting and masking hold the number modulo 2^32 |
| Mkpimage.WordDenotes | buildstaq/package/mkpimage/mkpimage.c:249-252 | the bytes of the CRC, least significant first, are its value |
| Mkpimage.BranchReaches | buildstaq/package/mkpimage/mkpimage.c:163-171 | the instruction decodes to its destination if and only if that is a whole number of words away and within the 24-bit field |
| Mkpimage.Version0Boots | buildstaq/package/mkpimage/mkpimage.c:175-255 | an image with that header is accepted and started at its entry if and only if the entry is word-aligned and in reach |
| Mkpimage.Version1Boots | buildstaq/package/mkpimage/mkpimage.c:175-255 | the same for version 1: always for an entry behind the start of the header, through the trampoline exactly for aligned ones in front of it |
| Mkpimage.AddSocfpgaHeader | buildstaq/package/mkpimage/mkpimage.c:175-255 | refused exactly if the size is not a multiple of 4, then unchanged; otherwise header and trampoline, then the CRC over all before it, have been written at their places, wherever they overlap, and nothing else |
| Mkpimage.ApartExactly | buildstaq/package/mkpimage/mkpimage.c:262-376 | header, trampoline and CRC lie apart for every size main accepts but two of version 1, 84 and, with a trampoline, 88 bytes |
| Mkpimage.HeaderInPlace | buildstaq/package/mkpimage/mkpimage.c:175-255 | where they lie apart, header and trampoline are in the image |
| Mkpimage.CrcOverTrampoline | buildstaq/package/mkpimage/mkpimage.c:195-203 | in an image of 88 bytes the CRC replaces the trampoline: it starts if and only if the CRC happens to be that branch |
| Mkpimage.CrcOverHeader | buildstaq/package/mkpimage/mkpimage.c:195-203 | in an image of 84 bytes the CRC replaces the checksum, the trampoline is written behind the image, and the image never starts |
| Mkpimage.CrcOverChecksum | buildstaq/package/mkpimage/mkpimage.c:236-252 | without a trampoline, an image of 84 bytes starts if and only if the CRC happens to be the bytes it replaces |
| CrcChange.TrampolineLost | buildstaq/package/mkpimage/mkpimage.c:195-252 | of two inputs for 88 bytes that differ in one byte, at most one starts |
| Mkpimage.Checksum | buildstaq/package/mkpimage/mkpimage.c:237-239 | the loop adds up the bytes between its bounds |
| Mkpimage.MakeImage | buildstaq/package/mkpimage/mkpimage.c:262-376 | for every size main accepts: the CRC is right, and the ROM finds the entry exactly if it is aligned, or version 1 and behind the start of the header, and the CRC does not lie over header or trampoline; two sizes of version 1 are decided by what the CRC happens to be |

## Left out

- The front ends (`conf.c`, `mconf.c`, `nconf.c`, `gconf.c`, `qconf.cc`, `lxdialog`), help texts and printing: user interface.
- Opening, renaming and splitting files, environment variables, message callbacks: a file is a sequence of lines.
- Freeing memory: nodes that the code frees are no longer referred to.
- Engine.SymbolTable.CalcText: does not clamp int and hex values; `sym_validate_range`, `sym_string_within_range` and range properties are not modelled.
- Engine.SymbolTable.CalcValue: likewise, and SYMBOL_AUTO, which only keeps a symbol out of the files, is not modelled.
- E_LIST and E_RANGE inside dependencies, and `expr_trans_compare` with constants other than y and n: no caller uses them.
- Choice groups outside `ChoiceGroup`: in the calculator, the setter, the cycle checker, `menu_finalize` and the writers all symbols are outside choices.
- ChoiceGroup.Run: a boolean choice whose members have no defaults, selects or implies of their own.
- `menu_add_prop` and `visible if`: an entry comes with its dependencies and properties, as they are when the next entry begins.
- MenuFinalize.Finalizer.PropagateEntry: a symbol defined in several places has one property list per place, so skipping the properties of other places is built into the data; the type checks and warnings of `sym_check_prop` are not modelled.
- MenuBuild.LoadedMeaning: asks for the well-formedness of expressions stated above, and for a root without dependencies, as `conf_parse` sets it up.
- Submenu.SubmenuSound: the second half needs that the dependencies are readable: no symbol the item negates is m, and the symbols it negates and those bare in the dependency of the prompt are bool, tristate, y, m, n or have the text n. `Submenu.NegatedEscapes` and `Submenu.UndefinedEscapes` show why.
- MenuBuild.LoadedSubmenus: speaks of the items of a submenu before flattening; for the final tree, where some items were lifted out of others, `MenuBuild.LoadedFinalItems` has a condition.
- MenuGraph.EdgesExactly: asks that entries are as the parser makes them: those of symbols have no children, only prompts and menus have texts, and P_SYMBOL has no condition.
- MenuMeaning.LoadedVisible: asks for the well-formedness of expressions stated above and for an assignment such as calculations give, as do the other theorems of that module.
- EqualExact.EqualExactly: for expressions without the constants y and n, which folding removes from AND and OR.
- MenuGraph.LoadedRanks: asks that every entry for a symbol has the P_SYMBOL property that `menu_add_entry` gives it and that selects have no text; the graph holds the symbols that menus define.
- Dups.Rewriter.EliminateDups1: slots are paths into a tree that is a value, because one slot may lie inside the other; node identity is modelled in `ExprNodes` for folding, normalising, copying and `rewrite_m` only.
- ConfFile.ConfReadSimple: reads user values (S_DEF_USER) of symbols that exist; S_OTHER symbols, warnings, change counts and the buffer of `compat_getline` are not part of this model.
- Lossless.DroppingInvisible: stands for the last loop of `conf_read`; the count of unsaved values that decides whether it drops anything is not modelled.
- ConfWrite.ConfWriteDefconfig: the visibility of menus without a symbol, which `menu_is_visible` computes on the way and which writes no line here, is skipped; so are the headings and comments of `conf_write`.
- ConfWrite.SaveBoth: the change count is a parameter of the writer, set here because the first writer raises it.
- ConfWrite.SaveAndLoad: asks for an acyclic graph, names made of word characters, text values without line ends, and a menu for every symbol with a prompt.
- Random, all-yes and all-no configurations (`conf_set_all_new_symbols`), `sym_toggle_tristate_value`, `sym_expand_string_value`, symbol lookup by hash and `sym_re_search`.
- Engine.SymbolTable.SetTristateValue: what it says of values and of the cache holds where MODULES keeps its value; a new `modules_val` is another configuration and reaches symbols that do not depend on MODULES (`Settings.ModulesReachesOthers`).
- Engine.SymbolTable.Load: `modules_val` stays what it was, so the user values loaded are assumed to give MODULES the value it had.
- ChoiceGroup.Choice.CalcMember: the conditions of members are values from outside the group, so a member that depends on another member cannot be expressed.
- CrcTable.Crc32: the table is laid out as sixteen rows of sixteen entries; the index is split accordingly.
- Mkpimage.AddSocfpgaHeader: the buffer has room for header and trampoline, also where the image has not (84 bytes); the program allocates no more than the image.
- Mkpimage.MakeImage: reading and padding the input, and the option for a barebox header, are left out.
- The rest of the repository (package recipes, the toolchain wrapper, Python and shell scripts): thin wrappers and data.
