# Verified models of parts of a firmware build tree

This Dafny project models six pieces of the repository and proves what they are for. `dafny verify
dfyconfig.toml` checks all of it.

**Kconfig expressions** (`Expr`, `ExprTransform`, `ExprEq`, `ExprForm`, `ExprJoin`, `ExprExtract`,
`ExprPaths`, `ExprSettled`, `ExprDups`, `ExprCompare`, `ExprHeap`, `ExprEqHeap`). Dependency expressions over n, m and y are
normalised, cancelled against each other, factored, and simplified by two all-pairs scans to a
fixpoint. The two scans work in place on one tree through two cursors that may point anywhere in it;
a cursor is modelled as a path. Rewriting one expression keeps its three-valued value exactly,
except for the second scan, which may decide an m, and `expr_trans_bool`, which may lower y to m.
What the comparison finds equal is, without constants in the way, equal up to order and grouping, and
what the two scans leave behind is said without them: no two operands of an operator are alike, and none
is contradicted by the others.
Normalising, folding, copying, comparing and cancelling are functions on expressions first, which
carry the meaning, and then methods on linked nodes (`ExprHeap`, `ExprEqHeap`) that are proved to
compute those functions in place without ever sharing a node. `ExprCompare` has what
`menu_finalize` does with conditions: those it gives to properties, and the test by which an entry goes
below the one before it.

**Symbol evaluation** (`SymbolEval`, `SymbolRules`, `DepCheck`, `Choice`). `SymbolTable` is the evaluator with its
validity flags as a cache; on an acyclic graph it computes the plain recursive definition, in any
order. `SymbolRules` says what the values are in terms of prompts, defaults and their conditions. `DepChecker` is the depth-first check with its two flags; it reports something if and only if
there is a cycle in what it follows. The evaluator also reads direct dependencies, which the check
does not follow; a graph without a report has the rank that the evaluator relies on if and only if no
direct dependency closes a cycle. `ChoiceGroup` is a boolean choice that evaluates to y, with its members.

**Menu tree and `.config`** (`Menu`, `MenuNest`, `Config`, `ConfigFile`). `MenuTree` works on entries with next,
parent and list pointers on the heap: restructuring keeps the preorder, and the walk without a stack
follows it. `MenuNest` says which entries go below which. `Config` has the escaping of strings into a buffer of exact size and the unescaping in
place; `ConfigFile` the printed file and its reader. Reading gives back what was printed if and only if
every int and hex symbol has a valid number and every title that spells a symbol is undone.

**mDNS responder** (`Names`, `NameDecoder`, `Related`). Names are compressed into a packet (section
4.1.4 of RFC 1035) and decoded; the longest rest that was written before becomes a pointer. The decoder goes on behind the label
that a pointer leads to, so it need not end, not even if all pointers lead backwards to literal labels
(`NameDecoder.BackwardLoop`). It ends if and only if it does within as many labels as the packet has
bytes, and on everything the encoder wrote it ends with the name. `Related` makes up a reply:
answers, known-answer suppression (section 7.1 of RFC 6762), and the additional records, collected by
a loop over the list it appends to: exactly what an answer, or a record added before, leads to.

**Queues** (`Ring`, `Jitter`). `Ring` is the transition system of a dispatcher and a worker thread
with a lock, at the grain of single accesses to the shared queue; `Ring.CmdQueue` is the queue in
memory. `Jitter` is the audio buffer with 16-bit sequence numbers, refined against a buffer with
unbounded numbers.

**Firmware container** (`Cipher`, `Rc4`, `Container`, `ContainerLayout`, `Crc`). The stream cipher, which is
RC4 with the short state, the container with chained seeds, its checksum, and the table-driven CRC-32 of add_header against the bit-serial one for every
polynomial.

Assumptions on the environment of the simplifier: booleans are n or y, the text of a bool or tristate
symbol is that of its value, and distinct constant symbols have distinct texts. `SymbolEval.EnvWellFormed`
proves that evaluated symbols satisfy them. Expressions are trees without sharing.

Where the code differs from what it says or from what one expects of it, the code is modelled:

- The comment on `sym_check_deps` callers suggests that a result tells about a cycle, but at top level
  the result is always dropped (`DepCheck.DepChecker.Sweep`); what is left of a cycle is the printed report.
- A direct dependency is evaluated but not checked, so a cycle through one goes unreported
  (`DepCheck.DirectDepUnchecked`).
- `expr_eliminate_dups2` is not exact on m (`ExprDups.OpposedLosesM`).
- `expr_trans_compare` compares the texts of the symbols one by one, which rounds an m to y or n, and takes
  an undefined symbol, which is n with its name as its text, as different from n. The answer is right
  exactly where that rounding makes no difference (`ExprCompare.TransCompareRight`), so the submenu test
  orders rounded values only (`ExprCompare.SubmenuMissesM`, `ExprCompare.SubmenuMissesUndefined`).
- `expr_depends_symbol` takes "s != n" for a condition that needs s, although for a string symbol it may be
  y while s is n (`ExprCompare.DependsOnText`).
- Setting a symbol to the value it has always succeeds but need not last (`SymbolEval.SetTakesEffect`,
  `SymbolEval.SameValueLowers`).
- A hidden member of a choice keeps its default, so two members can be y (`Choice.HiddenDefaultIsSecond`);
  selecting a member has no effect. Setting a hidden member that is y already forgets the user's pick
  (`Choice.ChoiceGroup.SetAndCalc`, `Choice.HiddenSetForgets`).
- A menu title that spells an unset symbol is read as one (`ConfigFile.TitleHarmless`). An int or hex symbol
  without a value is printed as a line that the reader refuses (`ConfigFile.EmptyNumber`).
- The name decoder never returns on some packets (`NameDecoder.BackwardLoop`).
- The first of several known answers decides alone about suppression (`Related.FirstAnswerDecides`).
- The jitter buffer drops a late packet that could still be played next (`Jitter.LatePacket`),
  and plays stale packets after an overrun (`Jitter.OverrunPlaysStale`); what it plays is always the packet
  stored last in its slot (`Jitter.PlayedIsLastStored`).
- `buffalo_csum` reads plain chars, which are taken to be signed, so it is CRC-32 only where the sign bits
  of the bytes divide to 0 (`Crc.CsumIsSerial`), as they do without bytes from 0x80 on.

## Model

| member | source | states |
|---|---|---|
| `Expr.ValDependsOnSymbols` | scripts/config/expr.c:938-977 | Two environments that agree on the symbols of an expression give it the same value |
| `Expr.EliminateYn` | scripts/config/expr.c:231-306 | Folding y and n never adds nodes |
| `Expr.EliminateYnExact` | scripts/config/expr.c:231-306 | Folding y and n keeps the three-valued value under every environment in which y, m and n mean what they spell |
| `Expr.EliminateYnNormal` | scripts/config/expr.c:231-306 | No foldable constant is left; the tree gets strictly smaller if and only if there was one, and is the same otherwise |
| `ExprTransform.Transform` | scripts/config/expr.c:636-771 | Terminates and yields negation normal form: NOT only above a symbol other than y, m, n, and no boolean symbol compared with y, m or n; nodes other than NOT are neither added nor lost |
| `ExprTransform.TransformExact` | scripts/config/expr.c:636-771 | The rewriting keeps the exact three-valued value under every well-formed environment |
| `ExprTransform.TransformEquivalent` | scripts/config/expr.c:636-771 | The same as one statement over all environments |
| `ExprTransform.TransformFixpoint` | scripts/config/expr.c:636-771 | An expression is left alone if and only if it is in normal form; a second pass changes nothing |
| `ExprTransform.NegationExact` | scripts/config/expr.c:655-771 | The transformed negation of a normal form is its negation by the rules of De Morgan |
| `ExprTransform.TransBoolKeepsVisibility` | scripts/config/expr.c:311-344 | On normal forms dropping "!= n" never raises a value, and a value is n after it if and only if it was n before |
| `ExprTransform.TransBoolDrops` | scripts/config/expr.c:311-344 | No test of a tristate symbol against "!= n" is left, the number of nodes is the same, and nothing changes if and only if there was none |
| `ExprTransform.TransBoolNnf` | scripts/config/expr.c:311-344 | It leads from normal forms to normal forms |
| `ExprEq.Cancel` | scripts/config/expr.c:130-162 | The pairwise cancellation terminates and adds no nodes to either side |
| `ExprEq.CancelSound` | scripts/config/expr.c:130-162 | There is one common value such that each original side is that value joined with what is left of the side |
| `ExprEq.CancelThorough` | scripts/config/expr.c:130-162 | Operands are only replaced by the neutral symbol, and afterwards no operand of one side is equal to one of the other, constants aside |
| `ExprEq.EqSound` | scripts/config/expr.c:189-229 | If two expressions are found equal, they have the same value under every well-formed environment |
| `ExprForm.EqExact` | scripts/config/expr.c:189-229 | Expressions without y or n below an operator are found equal if and only if one is the other up to order and grouping of operands, at every depth |
| `ExprForm.EqSelf` | scripts/config/expr.c:189-229 | Every expression is found equal to itself, with any constants |
| `ExprForm.ConstantsFold` | scripts/config/expr.c:189-229 | Input with a constant below an operator: x && (y \|\| n) is found equal to x && y |
| `ExprForm.CancelLive` | scripts/config/expr.c:130-162 | Of plain expressions exactly the common operands are cancelled, as often as both sides have them |
| `ExprEq.EliminateEqReflectsOrder` | scripts/config/expr.c:164-184 | Any order between the values after cancellation held between the values before |
| `ExprEq.EliminateEqImplication` | scripts/config/menu.c:352-361 | If cancellation reduces the second argument to y, the first never exceeds it |
| `ExprHeap.EliminateYnInPlace` | scripts/config/expr.c:231-306 | In place: the node at the root keeps its address, the tree below it becomes that of the folded expression, made only of nodes it had |
| `ExprHeap.CopyTree` | scripts/config/expr.c:62-97 | A copy stands for the same expression and shares no node with anything that existed |
| `ExprHeap.TransBoolInPlace` | scripts/config/expr.c:311-344 | In place: drops "!= n" from tristate symbols and keeps every node and link |
| `ExprHeap.TransformInPlace` | scripts/config/expr.c:636-771 | In place: the tree that comes back stands for the normal form, has no node twice, and is made of nodes the tree had and of new ones, so that trees beside it are untouched |
| `ExprHeap.DeMorgan` | scripts/config/expr.c:716-733 | NOT above AND or OR becomes the other operator above two NOTs, the first of which is the old operand node |
| `ExprEqHeap.NothingCancelled` | scripts/config/expr.c:130-162 | When no change is counted, both expressions are the same as before |
| `ExprEqHeap.Canceller.CancelInPlace` | scripts/config/expr.c:130-162 | In place: both trees become what cancellation leaves, stay without a common node, and the counter goes up by the number of pairs cancelled |
| `ExprEqHeap.Canceller.EliminateEqInPlace` | scripts/config/expr.c:164-184 | In place: both trees become what the passes for both operators and folding leave, and stay without a common node |
| `ExprEqHeap.Canceller.EqInPlace` | scripts/config/expr.c:189-229 | Compares two trees through copies of them: the answer is that of the comparison of expressions, no node of either tree is written, and the counter has its old value |
| `ExprJoin.JoinOrExact` | scripts/config/expr.c:346-408 | Every rule that joins two OR operands gives exactly their three-valued OR |
| `ExprJoin.JoinAndExact` | scripts/config/expr.c:410-497 | Every rule that joins two AND operands gives exactly their three-valued AND |
| `ExprJoin.JoinApplies` | scripts/config/expr.c:346-497 | A rule applies if and only if the operands are found equal or are one of the listed pairs of tests of one boolean or tristate symbol, in either order |
| `ExprJoin.JoinSize` | scripts/config/expr.c:346-497 | A join together with the neutral symbol has no more nodes than the two operands |
| `ExprExtract.ExtractEqSound` | scripts/config/expr.c:848-875 | One value moves out of both sides and into the common part |
| `ExprExtract.ExtractCommonExact` | scripts/config/expr.c:826-847 | Each original side is the common part joined with its own rest, exactly, also after the rests were folded |
| `ExprExtract.ExtractEqThorough` | scripts/config/expr.c:848-875 | Operands are only replaced by the neutral symbol, and the two rests have no operand in common, constants aside |
| `ExprForm.UsedUp` | scripts/config/expr.c:826-875 | Of plain expressions the first is used up if and only if all its operands are operands of the second, as often |
| `ExprSettled.OpposedBound` | scripts/config/expr.c:577-600 | If the negation of e1 cancels completely against e2, then e2 never exceeds it below AND and is never less below OR |
| `ExprDups.Simplifier.JoinAt` | scripts/config/expr.c:530-551 | Joins two operands of one tree in place, through two cursors into it: the neutral symbol replaces the first and the join the second, and one change is counted; else nothing changes |
| `ExprDups.Simplifier.EliminateDups1` | scripts/config/expr.c:504-554 | The all-pairs scan keeps the exact value although both cursors are in the tree that is rewritten, changes only the subtree it started at and adds no nodes; it counts no change if and only if no pair it compares can be joined |
| `ExprDups.Simplifier.OpposeAt` | scripts/config/expr.c:577-600 | An operand opposed to the node at the other cursor is replaced by the absorbing symbol, and one change is counted; else nothing changes |
| `ExprDups.Simplifier.EliminateDups2` | scripts/config/expr.c:556-610 | The second scan, which goes on after having descended, keeps y and n and may only decide m; it counts no change if and only if no pair it compares is opposed |
| `ExprDups.Simplifier.EliminateDups` | scripts/config/expr.c:612-634 | Terminates; keeps every value of y or n, and every value in a run that decides no opposed operand; keeps normal forms; ends in a tree in which no two operands of an operator are equal, rearrangements of each other, or one test of a symbol, and no operand is contradicted by the others; is the identity if no rule applies at first, and otherwise leaves a strictly smaller tree without foldable constants; restores the counter |
| `ExprSettled.SettledNoneAlike` | scripts/config/expr.c:504-554 | Where the scans find nothing, no two different operands of any operator in the tree, at any depth, are alike |
| `ExprSettled.SettledNoneContradicted` | scripts/config/expr.c:556-610 | Nor are all operands of the negation of an operand among the operands of its operator, for plain normal forms |
| `ExprSettled.OpposedExactly` | scripts/config/expr.c:577-600 | In a plain normal form the test of the second scan holds if and only if all operands of the negation are operands of the whole |
| `ExprDups.JoinStep` | scripts/config/expr.c:530-551 | One join at two different operands keeps the value and the shape of the operator tree and leaves a foldable constant |
| `ExprDups.OpposedStepValue` | scripts/config/expr.c:577-600 | The second rewrite changes the value of the subtree if and only if that was m |
| `ExprDups.RefinesTwoValued` | scripts/config/expr.c:612-634 | Where no symbol of the expression is m, a simplified expression has exactly the old value |
| `ExprDups.OpposedLosesM` | scripts/config/expr.c:556-610 | Counterexample to exactness on m: (F OR B) AND (NOT F AND NOT B) with F = m, B = n goes from m to n |
| `ExprSettled.SettledPairs` | scripts/config/expr.c:504-554 | Where the first scan finds nothing, no two different operands of the operator can be joined, and operands are scanned themselves |
| `ExprCompare.TransCompareValue` | scripts/config/expr.c:877-936 | "e = sym" and "e != sym", for y and n, are always decided, and the answer is that of e with every symbol read by its text: as sym if it has the text of sym, else as the opposite of sym |
| `ExprCompare.RoundedDecided` | scripts/config/expr.c:877-936 | Rounding leaves every value of y and n as it is where the symbols have the texts of their values |
| `ExprCompare.TransCompareRight` | scripts/config/expr.c:877-936 | For every expression, with symbols of any type or undefined: the answer is right if and only if the rounded value equals the constant just when the value does |
| `ExprCompare.TransCompareSpelled` | scripts/config/expr.c:877-936 | Where every symbol has the text of its value, it is right if and only if e is not m, or does not round to the constant it is compared with |
| `ExprCompare.TransCompareNotLeaf` | scripts/config/expr.c:877-936 | Above one symbol, of any type: right if and only if the symbol has the text of the constant just when its value is not the opposite one; if its text is that of its value, if and only if it is not m |
| `ExprCompare.UndefinedIsUnequal` | scripts/config/expr.c:928-929 | Input: an undefined symbol is n with its name as its text, so that comparing it with "!= n" gives y |
| `ExprCompare.AllocAnd` | scripts/config/expr.c:48-53 | The conjunction of two conditions, either of which may be absent, has exactly the value of both together |
| `ExprCompare.PropagateDep` | scripts/config/menu.c:321-331 | The condition a property gets below that of its entry is a normal form to which no rule applies; it is n where both together are n and y where they are y, and for a symbol that is not tristate it holds where they are y |
| `ExprCompare.DependsSymbolSound` | scripts/config/expr.c:797-824 | An expression found to depend on a symbol, of any type, contains it and is n whenever the symbol is n in value and text |
| `ExprCompare.DependsSymbolExactly` | scripts/config/expr.c:797-824 | An expression depends on a symbol if and only if some conjunct is the symbol, or says that it is y, m, or not n |
| `ExprCompare.DependsOnText` | scripts/config/expr.c:797-824 | The text counts: "s != n" depends on s, and is y if and only if the text of s is not n, whatever its value |
| `ExprCompare.SimplifiedUnequalNo` | scripts/config/menu.c:340-358 | Simplifying "e != n" keeps y and n and ends in a normal form where no rule applies |
| `ExprCompare.BelongsBelow` | scripts/config/menu.c:345-361 | If an entry is put below the one before it, its dependency contains that symbol, and either depends on it or, with every symbol rounded by its text, never holds while the base does not; for all conditions |
| `ExprCompare.SubmenuSound` | scripts/config/menu.c:352-361 | For all conditions, the simplified forms being ordered by cancellation implies that the rounded dependency never holds while the rounded base is n, under every well-formed environment |
| `ExprCompare.ImpliesValue` | scripts/config/menu.c:352-361 | Where the symbols have the texts of their values, the dependency itself can then hold while the base is n only when it is m and rounds to n |
| `ExprCompare.SubmenuMissesM` | scripts/config/menu.c:352-361 | Counterexample for m: "!T && X" passes the test against "T = n" |
| `ExprCompare.SubmenuMissesUndefined` | scripts/config/menu.c:352-361 | Counterexample with an undefined symbol: "!T && U != n" passes the test against U, is y and U is n |
| `SymbolEval.MeaningUnfold` | scripts/config/symbol.c:293-440 | On an acyclic graph the plain recursive definition solves the value equation of every symbol: max(min(user or default, visibility), reverse dependency), with m promoted where it is not possible |
| `SymbolEval.EnvWellFormed` | scripts/config/symbol.c:45-61 | Evaluated symbols satisfy what the simplifier assumes: booleans are n or y, and the text of a bool or tristate agrees with its value |
| `SymbolRules.TristateRule` | scripts/config/symbol.c:335-391 | With modules a tristate symbol is at least what selects it; above that it is the smaller of the value of the user and the best prompt, or of the first default that holds and its condition; without either it is what selects it |
| `SymbolRules.BooleanRule` | scripts/config/symbol.c:335-391 | A bool symbol, or any without modules, is never m, and y if and only if something selects it or the value of the user or the first default that holds is above n |
| `SymbolRules.TextRule` | scripts/config/symbol.c:316-404 | An int, hex or string symbol has the text of the user if it is visible, else that of the symbol of the first default that holds, which is n for every bool or tristate symbol, else none |
| `SymbolRules.VisibilityRule` | scripts/config/symbol.c:189-227 | The visibility is what the best prompt is worth; m only for tristate symbols with modules |
| `SymbolRules.OtherRule` | scripts/config/symbol.c:316-330 | y, m and n are themselves; other constants and undefined symbols are n with their text |
| `SymbolEval.UndefinedMeaning` | scripts/config/symbol.c:326-329 | A symbol that is mentioned but nowhere defined is n, with its name as its text |
| `SymbolEval.UnsetTextIsEmpty` | scripts/config/symbol.c:316-404 | An int, hex or string symbol without a default and without a value of the user is empty, visible or not |
| `SymbolEval.ValueInAgrees` | scripts/config/symbol.c:293-440 | Value, visibility and reverse dependency depend on nothing but the symbols named in the definition |
| `SymbolEval.SymbolTable.constructor` | scripts/config/symbol.c:45-61 | A new table satisfies the cache invariant: y, m and n are valid and right |
| `SymbolEval.SymbolTable.CalcExpr` | scripts/config/expr.c:938-977 | Calculates every symbol it reads and returns the value of the expression in the recursive meaning |
| `SymbolEval.SymbolTable.GetDefaultProp` | scripts/config/symbol.c:115-125 | Returns the first default whose condition is not n, with the value of that condition |
| `SymbolEval.SymbolTable.CalcVisibility` | scripts/config/symbol.c:189-227 | Computes visibility and reverse dependency as the recursive definition has them |
| `SymbolEval.SymbolTable.CalcTri` | scripts/config/symbol.c:335-391 | The value of a bool or tristate symbol is that of the recursive definition, for which the rules above hold |
| `SymbolEval.SymbolTable.CalcString` | scripts/config/symbol.c:316-421 | The value of an int, hex or string symbol is that of the recursive definition |
| `SymbolEval.SymbolTable.CalcValue` | scripts/config/symbol.c:293-440 | Terminates on every graph; marks the symbol valid and never revises a valid symbol; on an acyclic graph keeps every valid symbol right |
| `SymbolEval.SymbolTable.CalcAll` | scripts/config/symbol.c:293-440 | After calculating symbols in any order, from any sound cache, every valid symbol of an acyclic graph has the value of the plain recursive definition |
| `SymbolEval.SymbolTable.ClearAllValid` | scripts/config/symbol.c:442-452 | Nothing but y, m and n stays valid, and then the symbol that enables modules is calculated at once; a cache that is sound when cleared is sound afterwards |
| `SymbolEval.ClearedIsSound` | scripts/config/symbol.c:442-452 | Clearing the flags makes the cache sound for any other configuration |
| `SymbolEval.SymbolTable.SetTristateValue` | scripts/config/symbol.c:493-527 | Succeeds if and only if the value is the current one or within range; a refusal changes nothing; success sets the user value, and, if it was not the current one, turns a cache that was right for the old configuration into one that is right for the new one |
| `SymbolEval.UserValueStaysAbove` | scripts/config/symbol.c:293-440 | The user value of a symbol does not influence any symbol it depends on |
| `SymbolEval.SetTakesEffect` | scripts/config/symbol.c:474-527 | A value within range takes effect as asked; asking for the current value lasts if and only if the symbol is invisible or the value does not exceed both visibility and reverse dependency |
| `SymbolEval.InRangeExactly` | scripts/config/symbol.c:474-491 | For a visible symbol with its reverse dependency below its visibility a value is in range if and only if the symbol would then have it; any other symbol refuses, and no value of the user makes a difference |
| `SymbolEval.SameValueLowers` | scripts/config/symbol.c:474-527 | Input: a tristate symbol whose prompt needs m is y by default; with y set by the user, which is accepted, it becomes m |
| `DepCheck.DepChecker.CheckExpr` | scripts/config/symbol.c:1153-1182 | Stops at the first symbol with a result; without a report all symbols of the expression are finished |
| `DepCheck.DepChecker.CheckSymDeps` | scripts/config/symbol.c:1184-1216 | Follows the reverse dependency, the conditions and the default values; without a report all of them are finished |
| `DepCheck.DepChecker.CheckDeps` | scripts/config/symbol.c:1255-1287 | Keeps CHECK as exactly the current path; a result names a symbol on the path and comes with a report; without a report the symbol is finished and the finished symbols are in topological order |
| `DepCheck.DepChecker.Sweep` | scripts/config/symbol.c:1153-1287 | Over all symbols something is reported if and only if the dependency graph has a cycle; no call at top level returns a symbol |
| `DepCheck.FoundCycle` | scripts/config/symbol.c:1081-1151 | Meeting a symbol of the current path again exhibits a cycle |
| `DepCheck.NoCycle` | scripts/config/symbol.c:1255-1287 | A list in topological order that holds all symbols excludes cycles |
| `DepCheck.UnreportedIsRanked` | scripts/config/symbol.c:1184-1216 | Without a report, what the evaluator reads has a rank if and only if it has no cycle, and every such cycle takes a step that only a direct dependency makes, which the check does not follow |
| `DepCheck.AcyclicIsRanked` | scripts/config/symbol.c:189-227 | If what the evaluator reads has no cycle, the number of symbols reached from a symbol is a rank |
| `DepCheck.EdgesExactly` | scripts/config/symbol.c:1184-1216 | The check follows exactly the reverse dependency, the conditions of properties other than selects, and the values of defaults |
| `DepCheck.DepsExactly` | scripts/config/symbol.c:189-227 | The evaluator reads exactly the prompts and defaults, and the direct and reverse dependency |
| `DepCheck.ReportedIsMet` | scripts/config/symbol.c:1255-1287 | If no other properties carry conditions, every reported cycle is one that the evaluator meets |
| `DepCheck.DirectDepUnchecked` | scripts/config/symbol.c:189-227 | Input where nothing is reported and there is no rank: foo, selected, depends on bar without a property of its own, and bar is foo by default |
| `Choice.ChoiceGroup.constructor` | scripts/config/symbol.c:229-234 | A new group satisfies its invariant, with nothing picked or set by the user |
| `Choice.ChoiceGroup.DefaultMember` | scripts/config/symbol.c:235-259 | Picks the first visible default whose condition holds, else the first visible member |
| `Choice.ChoiceGroup.CalcChoice` | scripts/config/symbol.c:261-291 | Picks the member of the user if visible, else the default; the choice is n without a pick, and counts as set by the user only as long as all its visible members do |
| `Choice.ChoiceGroup.CalcMember` | scripts/config/symbol.c:335-391 | A visible member is y if it is the pick and n otherwise; a hidden one is y if its default is above n, whatever selects it, because its reverse dependency is not calculated |
| `Choice.ChoiceGroup.CalcGroup` | scripts/config/symbol.c:293-440 | Calculating the choice and then its members gives every member its value |
| `Choice.ChoiceGroup.SetMember` | scripts/config/symbol.c:493-527 | Setting a member to y succeeds if and only if it is y already or its visibility is y, and makes it the pick of the user |
| `Choice.ChoiceGroup.SetAndCalc` | scripts/config/symbol.c:493-527 | Accepted if and only if the member is visible or y already; if visibilities stay as they are, a visible member set is the pick, is y, and every other visible member is n; a hidden one stays y and the former pick of the user is forgotten |
| `Choice.ExactlyOne` | scripts/config/symbol.c:235-291 | A choice with a visible member has exactly one member worth y and all others n, namely its pick, if and only if no hidden member has a default above n |
| `Choice.HiddenRule` | scripts/config/symbol.c:335-391 | A hidden member is y if and only if the first default that holds is above n |
| `Choice.PickRule` | scripts/config/symbol.c:235-291 | The pick is that of the user if visible, else the member of the first default that offers a visible one, else the first visible member |
| `Choice.HiddenDefaultIsSecond` | scripts/config/symbol.c:335-391 | Input with two members worth y: a is picked and b, hidden, has the default y |
| `Choice.HiddenSetForgets` | scripts/config/symbol.c:493-527 | Input: the user picks d, then sets b, which is hidden and y by default; that is accepted, and the choice picks a |
| `Choice.PickIsMember` | scripts/config/symbol.c:261-291 | There is a pick if and only if some member is visible, and the pick is a visible member |
| `Choice.FirstDefaultIsFirst` | scripts/config/symbol.c:241-251 | The chosen default is visible with a condition that holds, and no default before it is |
| `Choice.FirstVisibleIsFirst` | scripts/config/symbol.c:253-259 | The chosen member is visible and none before it is |
| `MenuTree.FinalizePreorder` | scripts/config/menu.c:282-424 | Absorbing siblings and hoisting lists leaves the order in which entries are written unchanged, at every depth |
| `MenuTree.FinalizeFlat` | scripts/config/menu.c:415-424 | Afterwards every entry below with a list of its own has a prompt text, at every depth |
| `MenuTree.FinalizeKeeps` | scripts/config/menu.c:282-424 | No entry is lost, added or doubled |
| `MenuNest.NestNested` | scripts/config/menu.c:339-374 | Nesting, at every depth: an entry with a list or without a symbol keeps what is below it; below any other are only entries that pass its test, and the entry that stands behind it and behind everything below it fails it |
| `MenuNest.FinalizeNests` | scripts/config/menu.c:282-424 | Restructuring is that nesting with the lists of entries without a prompt text moved up |
| `MenuNest.HoistedKeeps` | scripts/config/menu.c:415-424 | Entries with a prompt text keep everything that is below them when lists move up, and no others have anything below them |
| `MenuNest.Restructure` | scripts/config/menu.c:282-424 | On the pointers: entry, list and next describe that nesting, in the same preorder |
| `MenuTree.FinalizeBehind` | scripts/config/menu.c:339-374 | What stands behind an entry afterwards is what stood there, if it had a list or no symbol, and otherwise fails its test |
| `MenuTree.MenuFinalize` | scripts/config/menu.c:282-424 | On the pointers themselves: parent, next and list describe exactly the restructured tree; an entry that had a list or no symbol has the same next one, and the next one of any other fails the test |
| `MenuTree.FinalizeList` | scripts/config/menu.c:299-337 | The loop over an existing list finalizes every entry of it, as the list then stands |
| `MenuTree.AbsorbSiblings` | scripts/config/menu.c:339-374 | Exactly the following siblings up to the first that fails the test become the list of the entry, with consistent parent and next pointers, and the others stay behind it |
| `MenuTree.FlattenList` | scripts/config/menu.c:415-424 | The lists of entries without a prompt text are spliced in behind them, with new parents |
| `MenuTree.NextMenu` | scripts/config/confdata.c:805-817 | Down, else right, else up along parents: one step of the walk goes to the entry that is next in preorder |
| `MenuTree.Walk` | scripts/config/confdata.c:787-820 | The stackless walk visits every entry below the root exactly once and in preorder |
| `MenuTree.FinalizeAndWalk` | scripts/config/confdata.c:787-820 | After the whole tree was restructured the walk visits what it visited before, in the same order |
| `Config.UnquoteQuoted` | scripts/config/symbol.c:915-956 | Reading up to the first unescaped quote undoes the escaping, whatever follows |
| `Config.EscapeConcat` | scripts/config/symbol.c:915-956 | Escaping goes character by character and puts a backslash in front of exactly quotes and backslashes |
| `Config.QuotedSize` | scripts/config/symbol.c:921-933 | The first pass computes the exact size of the escaped text with its terminator |
| `Config.EscapeStringValue` | scripts/config/symbol.c:915-956 | The buffer is allocated with exactly that size and filled with the quoted text and its terminator |
| `Config.Squeeze` | scripts/config/confdata.c:161-166 | Moving the text over one backslash in place keeps what reading makes of it |
| `Config.UnquoteInPlace` | scripts/config/confdata.c:155-172 | In-place unescaping leaves the unquoted text with a terminator, or reports that there is no closing quote |
| `ConfigFile.SetString` | scripts/config/confdata.c:155-183 | The string case accepts and stores exactly the unquoted text |
| `ConfigFile.ConfRead` | scripts/config/confdata.c:320-401 | Reads line by line, later lines winning |
| `ConfigFile.ConfWrite` | scripts/config/confdata.c:782-820 | Prints the heading with the title of the main menu, then the items in order |
| `ConfigFile.PrintedTri` | scripts/config/confdata.c:484-505 | A bool or tristate symbol is printed as "CONFIG_", its name and "=y" or "=m", or in a comment that it is not set |
| `ConfigFile.PrintedText` | scripts/config/confdata.c:484-505 | Other symbols are printed with their text, strings in quotes and escaped |
| `ConfigFile.AssignmentSets` | scripts/config/confdata.c:120-188 | What any assignment line sets, printed or not: only the first character counts for bool and tristate symbols, numbers must be valid, and an unknown symbol sets nothing |
| `ConfigFile.EntryRead` | scripts/config/confdata.c:484-505 | Reading the printed line of any bool, tristate, int, hex or string symbol restores its value, if and only if it is no int or hex symbol or its text is a valid number |
| `ConfigFile.EmptyNumber` | scripts/config/confdata.c:484-505 | Input: an int or hex symbol without a value is printed as a line that sets nothing |
| `ConfigFile.TitleRead` | scripts/config/confdata.c:787-820 | Of the four printed lines of a title only its text can set something, and sets what the text spells |
| `ConfigFile.CommentRead` | scripts/config/confdata.c:648-659 | Reading the heading sets exactly what its lines spell |
| `ConfigFile.TitleHarmless` | scripts/config/confdata.c:320-350 | A title sets nothing, whatever was set before, if and only if it does not spell, behind the prefix, a bool or tristate symbol up to the first space and then "is not set" |
| `ConfigFile.PrintedIsRead` | scripts/config/confdata.c:320-401 | Reading printed items, with any titles of one line and any texts of int and hex symbols, sets exactly the printed values that can be read and what titles spell, later ones last, on top of what was set before |
| `ConfigFile.FileIsRead` | scripts/config/confdata.c:320-401 | The same for a whole file with its heading |
| `ConfigFile.RoundTrip` | scripts/config/confdata.c:320-401 | For distinct names, reading the whole printed file gives every printed symbol its value back and sets no other, if and only if the texts of all int and hex symbols are valid numbers and every title that spells a symbol, the heading included, is undone: that symbol is printed behind it, or is n |
| `ConfigFile.TitleSpoofs` | scripts/config/confdata.c:320-350 | Input: a title that spells an unset symbol, whatever follows |
| `Names.WireInjective` | package/shairport_mmap/source/tinysvcmdns.h:199-201 | Comparing uncompressed forms is comparing names |
| `Names.LabelLen` | package/shairport_mmap/source/tinysvcmdns.c:138-155 | Computes the length of a name field up to its root or first pointer |
| `Names.Packet.constructor` | package/shairport_mmap/source/tinysvcmdns.c:950-986 | A new packet records nothing and satisfies the invariant |
| `Names.Packet.FindComp` | package/shairport_mmap/source/tinysvcmdns.c:819-829 | Returns the first entry of the compression list for the rest of the name, if there is one |
| `Names.Packet.EncodeName` | package/shairport_mmap/source/tinysvcmdns.c:809-850 | Of the longest rest of the name that is a rest of a name encoded before only a pointer is written, behind the labels in front of it; the name is written in full if and only if there is none; changes no other byte, keeps every name encoded before readable where it is, makes the new one readable, and label_len returns the encoded length; as long as no offset reaches 2^14 |
| `Names.ListGrows` | package/shairport_mmap/source/tinysvcmdns.c:832-840 | The compression list holds exactly the rests of all names encoded so far |
| `Names.CutExactly` | package/shairport_mmap/source/tinysvcmdns.c:817-847 | What the loop wrote is the start of the uncompressed form up to the longest known rest and a pointer, or all of it |
| `Names.Packet.PutByte` | package/shairport_mmap/source/tinysvcmdns.c:854-948 | Writing bytes outside of the names keeps all of them readable |
| `Names.ChainSpells` | package/shairport_mmap/source/tinysvcmdns.c:832-846 | Each suffix of a written name can be read where it was entered into the compression list |
| `Names.SpellsKept` | package/shairport_mmap/source/tinysvcmdns.c:809-850 | What can be read at an offset does not depend on bytes outside of the names |
| `NameDecoder.StrNCpy` | package/shairport_mmap/source/tinysvcmdns.c:257-268 | strncpy copies up to the first zero and fills the rest with zeros |
| `NameDecoder.Measure` | package/shairport_mmap/source/tinysvcmdns.c:239-251 | The first loop computes the size that the decoded name needs |
| `NameDecoder.EndsWithin` | package/shairport_mmap/source/tinysvcmdns.c:230-274 | On every packet, a decoding that ends at all ends within as many labels as the packet has bytes |
| `NameDecoder.NeverEndsExactly` | package/shairport_mmap/source/tinysvcmdns.c:230-274 | So it never ends if and only if it does not end within that many |
| `NameDecoder.BackwardLoop` | package/shairport_mmap/source/tinysvcmdns.c:239-251 | Input on which it never ends: a label and behind it a pointer to that label, strictly backwards |
| `NameDecoder.Uncompress` | package/shairport_mmap/source/tinysvcmdns.c:230-274 | No name exactly if the offset is behind the packet; no return exactly if the walk never ends; a read outside of the packet exactly if a label needs one; else the decoded name, in a string of the measured size |
| `NameDecoder.SpelledIsDecoded` | package/shairport_mmap/source/tinysvcmdns.c:230-274 | Wherever a name can be read by strictly backward pointers to literal labels, the decoder returns exactly that name |
| `NameDecoder.Readable` | package/shairport_mmap/source/tinysvcmdns.c:809-850 | After any sequence of names was encoded below offset 2^14, decoding at each start ends and returns the original name |
| `NameDecoder.DecodeEncoded` | package/shairport_mmap/source/tinysvcmdns.c:230-274 | The decoding loops return exactly the name that was encoded, on the packet in memory |
| `Related.ListAppend` | package/shairport_mmap/source/tinysvcmdns.c:373-394 | Appends a record that is not in the list by reference, and says whether it did |
| `Related.AppendAllElems` | package/shairport_mmap/source/tinysvcmdns.c:1163-1172 | Appending records adds each missing one once and keeps lists free of duplicates |
| `Related.MatchingExactly` | package/shairport_mmap/source/tinysvcmdns.c:1151-1177 | A record is found for a name and a type if and only if it is in the first group of that name, has the name, and has the type, or any but NSEC if ANY is asked for |
| `Related.RelatedExactly` | package/shairport_mmap/source/tinysvcmdns.c:1184-1212 | A record leads exactly to the records of the name a pointer has, those of the host of a service, its texts, and the NSEC records of an address |
| `Related.Populate` | package/shairport_mmap/source/tinysvcmdns.c:1151-1177 | Appends exactly the records of that name and type, NSEC excluded for ANY, and returns how many were new |
| `Related.AnswersExact` | package/shairport_mmap/source/tinysvcmdns.c:1252-1272 | A record is an answer if and only if some multicast question asks for it |
| `Related.SuppressedExact` | package/shairport_mmap/source/tinysvcmdns.c:1274-1284 | An answer is suppressed exactly if some known answer gives it at least half of its lifetime (section 7.1 of RFC 6762), if and only if that is not said only behind a first matching one with less; what is suppressed is always known long enough |
| `Related.FirstAnswerDecides` | package/shairport_mmap/source/tinysvcmdns.c:512-525 | Input of two known answers: the expired one comes first, and the answer is sent although the other gives it its whole lifetime |
| `Related.Reply.AddRelatedTo` | package/shairport_mmap/source/tinysvcmdns.c:1184-1212 | Appends exactly the records related to one record and counts them |
| `Related.Reply.AddRelatedToAnswers` | package/shairport_mmap/source/tinysvcmdns.c:1180-1213 | Appends everything related to any answer |
| `Related.Reply.AddRelatedToAdded` | package/shairport_mmap/source/tinysvcmdns.c:1180-1213 | Iterating over the list it appends to terminates for every database, and ends with the least set that contains the list and is closed under the related-record relation, without duplicates |
| `Related.Reply.Suppress` | package/shairport_mmap/source/tinysvcmdns.c:1274-1298 | Unlinks exactly the suppressed answers, keeps the order, and keeps the counter equal to the length of the list |
| `Related.Reply.Process` | package/shairport_mmap/source/tinysvcmdns.c:1234-1310 | A standard query gets exactly the records that some question asks for and that are not known; every record that one of either list leads to is added, and every added one is led to by an answer or a record added before; both lists without duplicates and counted modulo 2^16; anything else leaves the reply alone and returns 0 |
| `Related.Reply.Announce` | package/shairport_mmap/source/tinysvcmdns.c:1216-1230 | An announcement has exactly the PTR records of the two names, with every record added that one of either list leads to, and no other |
| `Ring.InitHolds` | package/ated/src/multi_thread.c:31-36 | The initial state satisfies the invariant, whatever the lengths hold |
| `Ring.FullExactly` | package/ated/src/ate-v2.c:569 | The test of the dispatcher is true if and only if 15 packets are outstanding, that of the worker if and only if none is |
| `Ring.InsertKeeps` | package/ated/src/ate-v2.c:576-579 | Copying a packet under the lock loses no outstanding packet and does not touch the slot being served |
| `Ring.CommitKeeps` | package/ated/src/ate-v2.c:580-582 | Publishing it makes it outstanding as the newest |
| `Ring.ReadKeeps` | package/ated/src/ate-v2.c:630-651 | The packet handed to the command handler is the oldest one not yet served |
| `Ring.WriteKeeps` | package/ated/src/ate-v2.c:645-651 | The worker writing its slot without the lock loses no outstanding packet |
| `Ring.RetireKeeps` | package/ated/src/ate-v2.c:654-660 | Clearing and freeing the slot loses no outstanding packet |
| `Ring.StepKeeps` | package/ated/src/ate-v2.c:552-661 | Every action of either thread keeps the invariant |
| `Ring.AlwaysInv` | package/ated/src/ate-v2.c:552-661 | The invariant holds after every interleaving |
| `Ring.Safety` | package/ated/src/ate-v2.c:552-661 | In every interleaving packets are served once each, in acceptance order and unchanged; at most 15 are outstanding; the critical sections exclude each other; every reply is what the worker put into its slot |
| `Ring.RefusedExactly` | package/ated/src/ate-v2.c:569-575 | In every interleaving a packet can be refused if and only if 15 are outstanding, and the worker waits if and only if none is |
| `Ring.CmdQueue.constructor` | package/ated/src/multi_thread.c:31-36 | The queue in memory starts as the initial ring, the lengths uninitialized |
| `Ring.CmdQueue.InsertQ` | package/ated/src/multi_thread.c:56-65 | Copies the packet to the start of the next slot and changes no other slot |
| `Ring.CmdQueue.Dispatch` | package/ated/src/ate-v2.c:567-587 | The critical section of the dispatcher is the insert and commit steps of the ring, or nothing when it is full |
| `Ring.CmdQueue.RetireServed` | package/ated/src/ate-v2.c:654-660 | The second critical section of the worker is the retire step of the ring |
| `Jitter.AudioBuffer.constructor` | package/shairport_mmap/source/player.c:178-183 | The buffer starts flushed |
| `Jitter.AudioBuffer.Resync` | package/shairport_mmap/source/player.c:95-101 | Makes every slot not ready, and the buffer unsynced and buffering |
| `Jitter.AudioBuffer.TakeIn` | package/shairport_mmap/source/player.c:195-213 | Decides about a packet as the step of the model does |
| `Jitter.AudioBuffer.PutPacket` | package/shairport_mmap/source/player.c:191-229 | Taking in and storing a packet is the put step of the model |
| `Jitter.AudioBuffer.GetFrame` | package/shairport_mmap/source/player.c:342-391 | Fetching a frame is the get step of the model |
| `Jitter.NumberExact` | package/shairport_mmap/source/player.h:12-18 | The unbounded number that a 16-bit number stands for is congruent to it and within 2^15 of the newest |
| `Jitter.FillExact` | package/shairport_mmap/source/player.h:12-18 | The 16-bit fill level is between 0 and 511 if and only if the unbounded distance is below 512, and then equals it |
| `Jitter.StoreKeeps` | package/shairport_mmap/source/player.c:64-72 | Storing a packet in its slot overwrites no other packet of a window of 512 |
| `Jitter.StepSim` | package/shairport_mmap/source/player.c:191-391 | One event, while the fill level stays below 512, has the same effect and output as in a buffer with unbounded numbers and no slots |
| `Jitter.Refines` | package/shairport_mmap/source/player.c:191-391 | So has every run, across any number of wraparounds |
| `Jitter.FrameWasPut` | package/shairport_mmap/source/player.c:191-229 | A packet in the ideal buffer was put under its number, modulo 2^16 |
| `Jitter.PlayedWasPut` | package/shairport_mmap/source/player.c:342-391 | In every such run a frame other than silence is the packet that was put under the number that is read |
| `Jitter.ReadyIsLastStored` | package/shairport_mmap/source/player.c:191-391 | In every run, whether it fits or not, a slot that is ready holds the packet stored into it last |
| `Jitter.PlayedIsLastStored` | package/shairport_mmap/source/player.c:342-391 | In every run a frame other than silence is the packet stored last under a number congruent to the one read modulo 512, so it is right if and only if that number is the one read |
| `Jitter.StoredIsPlayed` | package/shairport_mmap/source/player.c:342-391 | In every run a packet that was stored last into its slot, which was neither played nor flushed since, is what the next frame read from the slot holds |
| `Jitter.NewPacketStored` | package/shairport_mmap/source/player.c:195-219 | A packet newer than all others is always stored and becomes the newest |
| `Jitter.GapIsAskedFor` | package/shairport_mmap/source/player.c:195-204 | Exactly the packets missing in front of a new one are asked for, across a wraparound too |
| `Jitter.StartAndStop` | package/shairport_mmap/source/player.c:221-224 | Playing starts with the packet that fills the buffer to the start level; it stops, with nothing played, when the buffer is found empty |
| `Jitter.OverrunPlaysStale` | package/shairport_mmap/source/player.c:361-364 | Input where it is not: after an overrun a stale packet is played under a number never put |
| `Jitter.NextPacketDropped` | package/shairport_mmap/source/player.c:207-211 | A late packet under the number that is read next is dropped, and the next frame is silent |
| `Jitter.LatePacket` | package/shairport_mmap/source/player.c:205-219 | A late packet with a number from the next to be read to the newest is stored if and only if it is not the next one, and moves neither end |
| `Cipher.ModIsRemainder` | tools/firmware-utils/src/buffalo-lib.c:108-113 | The remainder used for lengths that are not constant satisfies the division equation |
| `Cipher.CryptTwice` | tools/firmware-utils/src/buffalo-lib.c:154-178 | Encrypting twice with the same seed, key and state length restores the text |
| `Rc4.ShortIsRc4` | tools/firmware-utils/src/buffalo-lib.c:87-146 | With the short state the key stream is that of RC4, with the seed as the first byte of the key |
| `Rc4.LongExample` | tools/firmware-utils/src/buffalo-lib.c:87-146 | Example with the long state: four bytes, seed 1 and key 3 |
| `Cipher.StatePermutes` | tools/firmware-utils/src/buffalo-lib.c:87-146 | At every byte the state is a rearrangement of its initial contents, for both state lengths |
| `Cipher.StateBytes` | tools/firmware-utils/src/buffalo-lib.c:105-106 | So every value of the state stays a byte |
| `Cipher.Bcrypt.constructor` | tools/firmware-utils/src/buffalo-lib.c:87-117 | The key schedule in memory is that of the model |
| `Cipher.Bcrypt.Process` | tools/firmware-utils/src/buffalo-lib.c:119-146 | The output is the text combined with a key stream that depends on the context alone, also when the destination overlaps the source from below, and no other byte changes |
| `Cipher.BcryptBuf` | tools/firmware-utils/src/buffalo-lib.c:154-178 | Encrypts a whole buffer with the key stream of seed, key and state length |
| `Container.Be32Twice` | tools/firmware-utils/src/buffalo-lib.c:230-248 | Reading a big-endian number back gives the number |
| `Container.HeaderLenExact` | tools/firmware-utils/src/buffalo-lib.c:212-216 | The computed header length is the length of the header that is written |
| `ContainerLayout.LayoutNumbers` | tools/firmware-utils/src/buffalo-lib.c:261-321 | A container starts with magic and seed; the lengths of product, version and data and the checksum stand big-endian at their offsets |
| `ContainerLayout.LayoutProduct` | tools/firmware-utils/src/buffalo-lib.c:280-291 | The product at its offset is encrypted with the seed |
| `ContainerLayout.LayoutVersion` | tools/firmware-utils/src/buffalo-lib.c:293-304 | The version at its offset is encrypted with the first encrypted byte of the product |
| `ContainerLayout.LayoutData` | tools/firmware-utils/src/buffalo-lib.c:306-312 | The data at its offset are encrypted with the first encrypted byte of the version |
| `Container.FileIsContainer` | tools/firmware-utils/src/buffalo-lib.c:218-228 | A file of the computed length is the container and one to four bytes of padding, its length a multiple of four |
| `Container.RoundTrip` | tools/firmware-utils/src/buffalo-lib.c:261-419 | Opening a container succeeds if and only if the magic is one of the two and the checksum is that of the data, and then gives back magic, seed, product, version, checksum and data |
| `Container.EncryptBuf` | tools/firmware-utils/src/buffalo-lib.c:261-321 | Writes exactly the header and, in place, the encrypted data with the checksum, and nothing else |
| `Container.ReadField` | tools/firmware-utils/src/buffalo-lib.c:354-376 | Reads a length-prefixed name if it fits its field and is inside the buffer |
| `Container.ReadData` | tools/firmware-utils/src/buffalo-lib.c:378-398 | Decrypts the data down over its own header, and then still finds the checksum behind it |
| `Container.DecryptBuf` | tools/firmware-utils/src/buffalo-lib.c:323-419 | Accepts exactly the buffers that open, and then leaves the data at the start of the buffer and everything else in the parameters |
| `Container.EncryptDecrypt` | tools/firmware-utils/src/buffalo-lib.c:261-419 | Encrypting and decrypting on one buffer: it opens exactly if the magic is one of the two and the checksum is that of the data, and then magic, seed, both strings, checksum, length and data are back |
| `Crc.StepsLinear` | tools/firmware-utils/src/add_header.c:50-53 | Dividing a sum by the polynomial, bit by bit, divides its parts |
| `Crc.TableStep` | tools/firmware-utils/src/add_header.c:57-64 | For every polynomial one table lookup with a shift by a byte equals eight single-bit steps |
| `Crc.Crc32.constructor` | tools/firmware-utils/src/add_header.c:43-55 | Every table entry is its index after eight single-bit steps |
| `Crc.Crc32.Compute` | tools/firmware-utils/src/add_header.c:57-65 | For every sequence of bytes the table-driven checksum is the bit-serial one (section 8 of RFC 1952) |
| `Crc.PolyCoefficients` | tools/firmware-utils/src/add_header.c:45 | The polynomial is x^32 + x^26 + x^23 + x^22 + x^16 + x^12 + x^11 + x^10 + x^8 + x^7 + x^5 + x^4 + x^2 + x + 1 |
| `Crc.CheckValue` | tools/firmware-utils/src/add_header.c:57-65 | The checksum of the text "a" is 0xe8b7be43 |
| `Crc.BuffaloCsum` | tools/firmware-utils/src/buffalo-lib.c:180-193 | Computes the bit-serial checksum over sign-extended bytes |
| `Crc.CsumSum` | tools/firmware-utils/src/buffalo-lib.c:180-193 | The checksum of the container is the bit-serial CRC-32 without its complement, plus the division of the sign bits of the bytes alone |
| `Crc.CsumIsSerial` | tools/firmware-utils/src/buffalo-lib.c:180-193 | The two are equal, from every start value, if and only if the sign bits divide to 0 |
| `Crc.UnsignedAgrees` | tools/firmware-utils/src/buffalo-lib.c:180-193 | They do if all bytes are below 0x80 |
| `Crc.OneSignDiffers` | tools/firmware-utils/src/buffalo-lib.c:180-193 | They do not if exactly one byte is 0x80 or more, wherever it stands |
| `Crc.SignMatters` | tools/firmware-utils/src/buffalo-lib.c:186 | Input: one such byte turns the lower three bytes of the checksum around |

## Left out

- Freeing nodes (`expr_free`, and the NOT nodes that are leaked). Joining, factoring and the comparison with a symbol are on values only; the two duplicate scans work on one tree in place, but a tree that is a value with paths into it.
- E_LIST and E_RANGE inside expressions, an absent expression inside a larger one, and expr_print and expr_simplify_unmet_dep, which only serve output.
- ExprCompare.BelongsBelow: promises an implication between rounded values, because one between the values is false; ExprCompare.ImpliesValue says for which values.
- ExprForm.EqExact: for expressions without y or n below an operator; with such constants more is found equal (ExprForm.ConstantsFold), and which rearrangements are is not said, beyond ExprForm.EqSelf.
- ExprDups.Simplifier.EliminateDups: keeps y and n but not m, because the second scan does not; ExprDups.OpposedStepValue says exactly when a step changes a value.
- SymbolEval.SymbolTable.CalcValue: without ranges (`sym_validate_range`), change flags, environment symbols and the warning about unmet dependencies; the value of the modules symbol is a parameter that stays fixed.
- SymbolEval.SymbolTable.CalcString: the value before `sym_validate_range`.
- SymbolEval.SymbolTable.CalcAll: the same, so int and hex symbols with a range are not covered.
- SymbolEval.SymbolTable.ClearAllValid: the value that enables modules does not change with the symbol that is calculated again.
- SymbolEval.SymbolTable.SetTristateValue: for symbols that are not choice members; Choice.ChoiceGroup.SetMember has those.
- DepCheck: `sym_check_choice_deps`, the printed text of the report, and that an evaluation without a rank depends on the order (only that there is no rank is proved).
- Choice.ChoiceGroup: visibilities and the condition of the choice come from an environment; optional choices, tristate choices worth m and SYMBOL_NEED_SET_CHOICE_VALUES are not modelled.
- MenuTree.MenuFinalize: the outcome of the submenu test is a parameter, here any relation on entries (ExprCompare.BelongsBelow is the test); the rewriting of the condition of one property is ExprCompare.PropagateDep; reverse dependencies from selects, types of choice members and warnings are not part of this model.
- ConfigFile: choices, the type conversions for symbols of unknown type, `CONFIG_` prefixes other than the default, the warning counts, and the files themselves.
- NameDecoder.Uncompress: where the original would not return, or would read outside of the packet, the result says so instead; the sum of the label sizes is unbounded.
- Names.Packet.EncodeName: promises nothing about names that would point to offsets of 2^14 and more, because such offsets do not fit a pointer.
- Parsing and writing of whole mDNS packets, sockets, and the lock of the record database, which is one fixed value while a reply is made up.
- Ring: shutting down (`signup_flag`), the status field, signals that are lost, and progress; the wait may end at any time. The fork and pipe variants of the queue.
- Jitter.Refines: a put is one atomic step, and runs are those in which the fill level stays between 0 and 511; the requests for lost packets made while playing, decoding and rate control are not part of this model.
- Container.DecryptBuf: what a refused buffer and the parameters hold afterwards; allocation failures; lengths are unbounded where the original has 64 bits.
- Crc: the header that add_header puts in front, and hosts with big-endian numbers, where the constant differs.
- User interfaces, autoconf output, audio and network back ends, and the other firmware tools: input and output, or easy members.
