# Verification model of a SQL test generator

The repository generates random SQL, rewrites queries and expressions into equivalent ones, runs
both and compares; it also runs interleaved transactions, analyses how they depend on each other and
replays them serially; and it shrinks what shows a difference. This project models the parts on whose
correctness the verdicts rest and proves what they are meant to keep.

**Equivalent rewrites of expressions.** `Sql` gives expressions, their text as a list of tokens, and
their value under three-valued logic (ISO/IEC 9075:1992, sections 6.9, 8.6, 8.12). Columns,
operators and functions are interpreted by an arbitrary `Interp`, so a statement about every
interpretation holds for every row of every database. The text of an expression can be parsed back, so
printed text has a value of its own. `ExprTree` describes one state of an expression object graph and
proves that rewriting keeps the value, for every choice of random parts and every set of rewritten
nodes, and over any alternation of transforming and putting back. `ExprGraph` is the object graph
itself: classes with the fields of the source, nodes whose rewrite points back at its owner, methods
that change flags, ids and operands in place; each method is proved against the functions on trees.
`Components` and `Replacement` treat numbering, finding and replacing sub-expressions, `StaleSnapshot`
how a memorised rewrite goes wrong, `TextSize` the length of the printed text, `Participation` which
objects take part. `Roots` keeps many expressions that are transformed and put back round after round;
`EetQuery` is a test round on a whole query with FROM subqueries, WHERE and HAVING, and proves that both
texts return the same rows.

**Rewrites of queries.** `QuerySemantics` gives rows, search conditions and EXISTS (section 8.8) a
meaning and proves what INTERSECT and EXCEPT (section 7.10) become when they are written as (NOT)
EXISTS; `UnionQuery` is the object whose two search pointers are replaced and must be restored, and
`InQuery` the rewrite of IN (section 8.4) as EXISTS.

**Transaction tests.** `TxQueue` is the instrumentor, `Words` its scanner for table names,
`TxMinimize`, `TxMinimizer` and `TxnMinimal` the reduction of a test case in place, `TxnGraph` the
cycle check, `SerialPath` and `Decycle` the search for serial schedules, `TxnSplit` the split by
transaction.

**Reduction.** `Reduction` says what one pass over a list can promise, for any test. `CrossMinimize` is
the loop of cross mode over statements that keep their expression objects, `DatabaseMinimize` the single
pass over the statements that build a database.

**Supports.** `ResultCompare` (hashes of rows), `Names` (identifiers that must not clash),
`StatementLog` (the log that is written and read back), `Sequences` (dropping list elements).

## Findings

Where the code does not do what its design promises, the exact condition is proved:

- NOT IN is rewritten to the CASE that has the value of IN: `is_negated` is not looked at
  (`src/expr/bool_expr/in_query.cc:98-141`). The value is kept if and only if `x in q` is unknown
  (`InQuery.NotInKeptIff`); `1 not in (1)` is false and its rewrite true (`InQuery.NotInFails`).
- A rewrite that keeps a snapshot of its node is not renewed when a component below the node is
  replaced. The memorised rewrites stay up to date exactly when the replacement prints like what it
  replaces or no node above keeps a snapshot (`Replacement.ReplaceKeepsRewrites`); then every later
  transform has the right value (`Replacement.TransformAfterReplace`). Otherwise it may not: `coalesce(a,
  x)`, transformed, put back, numbered, with `a` replaced by NULL and transformed again, prints 1 where
  its value is 2 (`StaleSnapshot.StaleRewrite`). The reduction at
  `src/eet/qcn_tester/qcn_select_tester.cc:318-354` replaces components in this way.
- The rewrite of INTERSECT and EXCEPT keeps duplicate rows. It returns the same bag exactly when no
  qualifying row occurs twice on the left (`UnionQuery.UnionedQuery.PrintedRows`), so always under SELECT
  DISTINCT (`PrintedDistinct`). Where it is printed, below EXISTS, the value is kept in any case
  (`PrintedExists`).
- The set of "cycle nodes" also holds transactions that only depend on a cycle
  (`TxnGraph.CycleNodesAreBehindCycles`); blanking those is tried as well.
- The serial path leaves aborted transactions out (`Decycle.PathIsExact`).
- The pass over the database statements drops a statement for good when its retest throws, which the
  tester of INSERT SELECT does when its validation fails (`DatabaseMinimize.ThrowsIff`). What is left shows
  the bug if and only if the last list that was kept was not kept by a throw
  (`DatabaseMinimize.RestShowsBugIff`, `DatabaseMinimize.ThrowLosesBug`). It is 1-minimal if adding statements
  cannot hide the bug (`DatabaseMinimize.RestIsMinimal`); without that it need not be
  (`DatabaseMinimize.OnePassMissesSmaller`).
- An exception in the rewritten run of a retest leaves the expressions of the queries rewritten
  (`CrossMinimize.Retest`); the report that is then saved transforms them again, which the assertion of
  `mark_transformed` forbids (`CrossMinimize.RewrittenIsMarked`).
- Row hashes do not see where one column ends and the next begins (`ResultCompare.ColumnSplitIsIgnored`).
- A statement that holds a semicolon at the end of a line is torn apart when the log is read
  (`StatementLog.LogReadsBackIff`).

Two hazards, which no caller found in the repository runs into:

- CASE conditions and the operand of NOT only receive conditions; operands of AND and OR take any
  component, and the transform then dereferences a failed cast (`Replacement.ReplaceKeepsKinds`,
  `Replacement.ValueUnderJunction`). The reduction only inserts the NULL constant or what was there before.
- The table scanner misses a name after a parenthesis inside a word that starts with the prefix itself, as
  in `t_a(t_b` (`Words.MissedWord`); a parenthesis glued to anything else does no harm (`Words.FoundWord`).

## Model

| member | source | states |
|---|---|---|
| Sql.GuardsDecided | src/expr/value_expr.cc:93-112 | `r or not r or r is null` is true and `r and not r and r is not null` is false for every condition, NULL included |
| Sql.TruthTables | src/expr/bool_expr/bool_binop/bool_term.cc:36-51 | NOT, AND and OR of three-valued logic, by when the result is true and when it is false |
| Sql.ReadBack | src/expr/case_expr.cc:33-46 | the text of an expression followed by any text that cannot continue it parses back to it: printing is uniquely readable |
| Sql.MeaningOfText | src/expr/binop_expr.cc:43-51 | the printed text by itself has the value of the expression it was printed from |
| ExprTree.LayoutIsRender | src/expr/bool_expr/bool_binop/bool_term.cc:20-34 | what a node prints around its operands is the text of one expression; a transformed AND/OR prints its De Morgan dual |
| ExprTree.NodeTokens | src/expr/binop_expr.cc:43-51 | the tokens of each untransformed node, operands in the order they are printed |
| ExprTree.CallTokens | src/expr/coalesce.cc:24-40 | a call prints its name, then its operands in order in one pair of parentheses with commas between; a leaf and a constant print one token |
| ExprTree.DualShape | src/expr/bool_expr/bool_binop/bool_term.cc:36-51 | a transformed AND or OR has the other operator and prints NOT over its negated operands, the second one first |
| ExprTree.PlainValue | src/expr/value_expr.cc:66-127 | the expression a tree stands for has the value computed operator by operator over the tree, operands in their order |
| ExprTree.DeMorgan | src/expr/bool_expr/bool_binop/bool_term.cc:20-51 | the flipped operator around negated, swapped operands under NOT has the value of the original AND/OR, unknown included |
| ExprTree.WrapMeans | src/expr/value_expr.cc:97-126 | each kind of rewrite around a node has the node's value, provided a snapshot has it |
| ExprTree.RewriteShape | src/expr/value_expr.cc:97-126 | a transformed value prints a CASE with its live text in one arm, a transformed condition a conjunction or disjunction with a decided guard, a constant a junction with itself: something is always rewritten but the NULL constant |
| ExprTree.RewritePreservesMeaning | src/expr/value_expr.cc:66-127 | for every tree with up-to-date snapshots, every set of rewritten nodes, every random part and every row, the printed expression has the value of the plain one |
| ExprTree.UnmarkedPrintsPlain | src/expr/value_expr.cc:113-119 | while no node below is transformed a node prints its plain text: that is what a snapshot holds |
| ExprTree.TransformKeepsGood | src/expr/case_expr.cc:56-62 | the state after a transform has up-to-date snapshots and the same plain expression |
| Participation.MarkedIff | src/expr/funcall.cc:92-101 | after a transform a node is marked if and only if it is not, for clickhouse, below a function call; operators and ids stay |
| Participation.NodeIsTree | src/expr/value_expr.hh:35-44 | along every path of operands the objects are what the tree says, marks included |
| Participation.TransformAll | src/expr/binop_expr.cc:60-65 | in place, every object reached through operands is transformed; for clickhouse exactly those with no function call above them |
| Participation.TransformAndBack | src/expr/binop_expr.cc:60-72 | after the undo no object is transformed |
| ExprTree.BackKeepsGood | src/expr/case_expr.cc:64-70 | putting back unmarks every node and keeps the plain expression |
| ExprTree.SecondTransformRepeats | src/expr/value_expr.cc:66-70 | transforming a tree that was put back gives exactly the transformed state it had |
| ExprTree.RunAlternates | src/expr/value_expr.cc:66-152 | over any alternation, however long, every put-back state prints the original text, every transformed state equals the first one, and that has the original value |
| ExprGraph.EqExpr.Out | src/expr/value_expr.cc:134-140 | printing a rewrite terminates although it meets its owner again, and prints the rewrite around the owner's live text |
| ExprGraph.Node.constructor | src/expr/case_expr.cc:23-31 | a new node over operands that share nothing is untransformed, without rewrite and id |
| ExprGraph.Node.Out | src/expr/coalesce.cc:24-40 | printing terminates by (subtree, flag), leaves every print flag as it was, and gives exactly the text of the tree's state |
| ExprGraph.Node.OutEqExpr | src/expr/value_expr.cc:134-140 | the assertion on the print flag never fails and the flag is cleared again |
| ExprGraph.Node.MarkTransformed | src/expr/value_expr.cc:142-146 | the mark is set; its assertion is the precondition every caller meets |
| ExprGraph.Node.UnmarkTransformed | src/expr/value_expr.cc:148-152 | the mark is cleared; its assertion is the precondition every caller meets |
| ExprGraph.Node.NewValueRewrite | src/expr/value_expr.cc:97-126 | a value makes one of the three CASE rewrites; a snapshot is the plain text of the node |
| ExprGraph.Node.NewBoolRewrite | src/expr/bool_expr/bool_expr.cc:53-96 | a condition is joined with a true or a false condition; true, false and null constants have rewrites of their own |
| ExprGraph.Node.MakeRewrite | src/expr/value_expr.cc:66-127 | the node is marked; a memorised rewrite is kept, otherwise a new one with an up-to-date snapshot is made |
| ExprGraph.Node.EquivalentTransform | src/expr/funcall.cc:92-101 | in place, the whole object tree goes to a transformed state, operands of functions left out for clickhouse; no mark assertion fails |
| ExprGraph.Node.FlipBoolTerm | src/expr/bool_expr/bool_binop/bool_term.cc:36-68 | transform and undo flip the operator and the dual flag together |
| ExprGraph.Node.BackTransform | src/expr/funcall.cc:103-112 | in place, exactly the state `Back` of the tree, rewrites kept; no unmark assertion fails |
| ExprGraph.Node.SetComponentId | src/expr/case_expr.cc:72-78 | in place, the preorder numbering of the tree; the reference parameter advances by the number of nodes |
| ExprGraph.Node.GetComponentFromId | src/expr/case_expr.cc:80-86 | returns the very object the search on trees finds, null when there is none |
| ExprGraph.Node.SetComponentFromId | src/expr/case_expr.cc:88-102 | replaces one operand pointer exactly as `Replace` does on trees; on failure nothing changes; the replaced component is a whole tree again, apart from the new one |
| ExprGraph.Node.Attach | src/expr/value_expr.hh:10-21 | one slot takes the component, which takes the id; the node's other operands are untouched |
| Components.NumberedInPreorder | src/expr/value_expr.cc:154-158 | numbering gives consecutive ids in preorder, one per node |
| Components.FindMeetsIds | src/expr/value_expr.hh:23-33 | a search succeeds exactly for the ids of proper descendants, and what it finds carries the id |
| Components.FindIsUnique | src/expr/value_expr.hh:23-33 | with distinct ids the search returns the one descendant that carries the id |
| Replacement.DistinctIsUnique | src/expr/value_expr.cc:154-158 | after numbering, every id below the root lies in exactly one operand at every level |
| Replacement.ReplaceSucceeds | src/expr/case_expr.cc:88-102 | a replacement is refused exactly when the slot takes only conditions and the component is none |
| Replacement.RefusedOnlyAsCondition | src/expr/bool_expr/not_expr.cc:21-32 | conditions are accepted everywhere, values everywhere but as the condition of a CASE or the operand of NOT |
| Replacement.FindAfterReplace | src/expr/value_expr.hh:10-33 | after a replacement the search for the id returns the new component |
| Replacement.RestoreUndoesReplace | src/expr/value_expr.hh:10-21 | putting the old component back gives the very same tree: nothing else moved |
| Replacement.EqualComponentKeepsMeaning | src/expr/value_expr.hh:10-21 | a component of equal value leaves the value of the whole tree unchanged |
| Replacement.ReplaceKeepsRewrites | src/expr/value_expr.cc:66-70 | every memorised snapshot still is its node's text if and only if the new component prints like the old or no node above keeps a snapshot |
| Replacement.SnapshotValue | src/expr/value_expr.cc:113-123 | with a snapshot, the rewrite has the right value if and only if the arm the condition selects has it |
| Replacement.TransformAfterReplace | src/expr/value_expr.cc:66-127 | if they stay up to date, every later transform prints the value of the changed expression |
| Replacement.ReplaceKeepsUnmarked | src/expr/value_expr.hh:10-21 | a replacement among untransformed nodes leaves the tree untransformed |
| StaleSnapshot.FirstTransform | src/expr/value_expr.cc:113-123 | a possible first transform of a fresh `coalesce(a, x)`, with a snapshot |
| StaleSnapshot.NumberAndReplace | src/eet/qcn_tester/qcn_select_tester.cc:324-344 | put back, numbered, and component 1 replaced by the NULL constant |
| StaleSnapshot.SecondValue | src/expr/value_expr.cc:66-70 | in a row with a = 1 and x = 2 the second transform prints 1, the changed expression has the value 2 |
| StaleSnapshot.StaleRewrite | src/eet/qcn_tester/qcn_select_tester.cc:318-354 | from the fresh node through transform, undo, numbering, replacement and second transform: the printed value is wrong |
| Replacement.TransformKeepsKinds | src/expr/bool_expr/bool_binop/bool_term.cc:36-51 | transforming never puts a value where a condition belongs, so the casts succeed |
| Replacement.BackKeepsKinds | src/expr/bool_expr/bool_binop/bool_term.cc:53-68 | the same for putting back |
| Replacement.ValueUnderJunction | src/expr/bool_expr/bool_binop/bool_term.cc:84-98 | a column is accepted as an operand of OR, where the next transform needs a condition |
| Replacement.ReplaceKeepsKinds | src/expr/bool_expr/bool_binop/bool_term.cc:84-98 | a replacement keeps conditions in condition places if and only if the component is a condition or the slot is not an operand of AND/OR |
| Roots.RoundFacts | src/expr/value_expr.cc:66-152 | one transform from rest: the printed text has the meaning of the original text in every row, and undoing prints the original again |
| Roots.TransformRoot | src/expr/value_expr.cc:66-70 | the first transform gives a root its form, every later one gives it the same form again; no other root changes |
| Roots.BackRoot | src/expr/value_expr.cc:129-132 | the root is at rest again, its form remembered; no other root changes |
| Roots.OutRoot | src/expr/value_expr.cc:134-140 | a root prints its rewritten form or its plain expression, as its state says |
| Roots.FormMeans | src/expr/value_expr.cc:66-127 | the form of a root has the value of its plain expression in every row |
| EetQuery.OutQuery | src/grammar/grammar.cc:450-460 | select list, FROM, WHERE and HAVING are printed in order, each expression as its state says |
| EetQuery.TransformQuery | src/eet/qcn_tester/qcn_select_tester.cc:29-50 | exactly the expressions of the query, its FROM subqueries included, take their forms |
| EetQuery.TransformSource | src/eet/qcn_tester/qcn_select_tester.cc:144-159 | the same below joins and subqueries; named tables have none |
| EetQuery.BackQuery | src/eet/qcn_tester/qcn_select_tester.cc:52-72 | and are put back |
| EetQuery.InitialOriginAndQit | src/eet/qcn_tester/qcn_select_tester.cc:233-252 | the two texts are those of the plain and of the rewritten query; the query is at rest afterwards, and forms known before are kept |
| EetQuery.RowsSame | src/eet/qcn_tester/qcn_select_tester.cc:282-301 | queries whose expressions have the same values return the same rows, through subqueries, joins, grouping and DISTINCT |
| EetQuery.QueryRowsIff | src/grammar/grammar.cc:450-460 | a query returns exactly the select lists of the source rows that satisfy WHERE, or of their groups that satisfy HAVING; under DISTINCT each once |
| EetQuery.SourceRowsIff | src/grammar/grammar.cc:310-337 | a table gives its rows, a subquery its rows under their names, a join exactly the pairs that satisfy its condition |
| EetQuery.BothTextsReturnTheSame | src/eet/qcn_tester/qcn_select_tester.cc:233-301 | both texts of a round return the same rows for every database, so a difference is the database's |
| EetQuery.Rounds | src/eet/qcn_tester/qcn_select_tester.cc:254-258 | any number of rounds on a query prints the same two texts |
| TextSize.ExactLength | src/expr/value_expr.cc:113-126 | the transformed text has exactly the plain length plus what the rewrites add plus the snapshots: every node is printed live once |
| TextSize.SnapshotsBound | src/expr/value_expr.cc:113-126 | all snapshots together are at most tree height times the plain text, never exponential |
| QuerySemantics.SameColumnsMeans | src/grammar/grammar.cc:3175-3193 | the comparison built over the select lists is true exactly when no column is distinct, NULL equal to NULL |
| QuerySemantics.CorrelatedRows | src/grammar/grammar.cc:3195-3206 | the rewritten left query returns exactly the left rows that do (not) occur on the right, with their multiplicity and in their order, DISTINCT or not |
| QuerySemantics.KeepIsSetOp | src/grammar/grammar.cc:3158-3212 | that has the rows of SQL INTERSECT/EXCEPT, and is the same bag if and only if no qualifying row occurs twice |
| QuerySemantics.ExistsAsIn | src/expr/bool_expr/exists_predicate.cc:94-129 | EXISTS written as `true in` a guarded CASE keeps its value; without the guard it does so if and only if some row is true or none unknown |
| UnionQuery.UnionedQuery.constructor | src/grammar/grammar.cc:3143-3156 | a new compound query is untransformed over the given sides |
| UnionQuery.UnionedQuery.EquivalentTransform | src/grammar/grammar.cc:3158-3212 | for INTERSECT and EXCEPT, when neither side has groups or windows, both searches become new conjunctions around the objects they had; otherwise neither changes |
| UnionQuery.UnionedQuery.ComparisonOfColumns | src/grammar/grammar.cc:3175-3193 | the loop builds the comparison of all columns, joined from the left |
| UnionQuery.UnionedQuery.Correlate | src/grammar/grammar.cc:3195-3206 | the left query's value is the correlated query over both sides as they were |
| UnionQuery.UnionedQuery.BackTransform | src/grammar/grammar.cc:3214-3233 | both search pointers are the very objects they were before the transform, for all operator kinds |
| UnionQuery.UnionedQuery.Rounds | src/grammar/grammar.cc:3158-3233 | so after any number of rounds |
| UnionQuery.UnionedQuery.PrintedRows | src/grammar/grammar.cc:3235-3247 | printed transformed or not, the query has the same rows; the same bag if and only if it is not rewritten or no qualifying row occurs twice on the left, DISTINCT taken into account |
| UnionQuery.UnionedQuery.PrintedExists | src/expr/bool_expr/exists_predicate.cc:132-138 | EXISTS over the printed query keeps its value, unconditionally |
| UnionQuery.UnionedQuery.PrintedDistinct | src/grammar/grammar.cc:450-451 | with SELECT DISTINCT on the left the printed query returns the same bag |
| InQuery.NarrowRows | src/expr/bool_expr/in_query.cc:111-119 | `x = column` put before the condition keeps exactly the rows that equal x, DISTINCT or not |
| InQuery.InIs | src/expr/bool_expr/in_query.cc:49-57 | IN is true if and only if the value is not NULL and a row; unknown if and only if it is no row and there is a NULL row, or it is NULL and there is a row |
| InQuery.SetOperationOfMatching | src/expr/bool_expr/in_query.cc:123-137 | every set operation over narrowed sides keeps exactly the rows of the original that equal x, each as often |
| InQuery.InIsExists | src/expr/bool_expr/in_query.cc:98-142 | the CASE over EXISTS has the value of `x in q`, NULL included, for a plain query and every set operation |
| InQuery.NotInKeptIff | src/expr/bool_expr/in_query.cc:49-57 | the rewrite of `x not in q` has its value if and only if `x in q` is unknown |
| InQuery.NotInFails | src/expr/bool_expr/in_query.cc:98-121 | `1 not in (select k from t)` with one row k = 1 is false, its rewrite true |
| Words.ExtractWordsBeginWith | src/txcheck/instrumentor.cc:5-37 | the result is exactly the words at first starts: where a word with the prefix begins and no earlier one is still going on; ascending, each once |
| Words.FoundIff | src/txcheck/instrumentor.cc:5-37 | in terms of the characters: a word is found if and only if it has a place in the text, opened and delimited as the code says, that no earlier word covers |
| Words.FirstWordsAre | src/txcheck/instrumentor.cc:7-29 | the collected list is ascending and holds exactly those words |
| Words.IntervalEnd | src/txcheck/instrumentor.cc:18-26 | a word ends at the first delimiter after its start |
| Words.LaterStart | src/txcheck/instrumentor.cc:20-25 | a start that is not first follows a parenthesis inside a word that is taken and ends with it |
| Words.AllWordsIff | src/txcheck/instrumentor.cc:5-37 | every word with the prefix is found if and only if each start that is not first has a word that also starts first |
| Words.MissedWord | src/txcheck/instrumentor.cc:20-25 | in `t_a(t_b` the word `t_b` starts and is not found |
| Words.FoundWord | src/txcheck/instrumentor.cc:10-16 | in `f(t_a` it is found |
| TxQueue.Instrumentor.constructor | src/txcheck/instrumentor.cc:39-245 | the three output vectors are in step and hold, in order, the block of every input statement, the versions of the tables scanned from its text first; it fails exactly when an UPDATE or INSERT has no version key to set or read, or there is no `=` operator for one |
| TxQueue.Instrumentor.InstrumentOne | src/txcheck/instrumentor.cc:48-240 | one turn appends exactly the block of the statement or fails |
| TxQueue.Instrumentor.PushReads | src/txcheck/instrumentor.cc:106-119 | the tables are scanned from the text, an INSERT skips its own, and the reads are pushed in order |
| TxQueue.BlockShape | src/txcheck/instrumentor.cc:107-240 | a block is one run of a single transaction: instrumented reads, one entry that is not, after UPDATE and INSERT one AFTER_WRITE_READ; BEFORE_WRITE_READ only directly before UPDATE and DELETE |
| TxQueue.BlockIs | src/txcheck/instrumentor.cc:107-244 | the entries of each kind of statement with their usages and targets, written out |
| TxQueue.VersionsRead | src/txcheck/instrumentor.cc:194-201 | a version of a table is read with a statement if and only if it is scanned from its text and, for an INSERT, is not its own |
| TxQueue.ItemsAround | src/txcheck/instrumentor.cc:48-240 | where the block of a statement lies in the queues |
| TxQueue.UnzipIsInjective | src/txcheck/instrumentor.cc:115-127 | the three vectors determine the entries |
| TxQueue.CleaningUndoesInstrumenting | src/txcheck/instrumentor.cc:48-245 | dropping the instrumented entries gives the input statements, text and all, and transaction numbers back, in order |
| TxQueue.CleanInstrument | src/txcheck/transaction_test.cc:109-139 | the loop drops exactly the instrumented entries from all three vectors |
| TxMinimize.DeleteStmt | src/txcheck/tx_general_process.cc:266-312 | erasing around entry `i` leaves exactly the instrumentation of the statement list without that statement |
| TxMinimize.DeletionFits | src/txcheck/tx_general_process.cc:289-306 | around the block of a statement lies nothing the erasing would take by mistake |
| TxMinimize.DeleteAt | src/txcheck/tx_general_process.cc:289-312 | the order of erasing and the index arithmetic remove tail, entry and reads and nothing else |
| TxMinimize.EraseReads | src/txcheck/tx_general_process.cc:304-312 | the backward loop stops exactly at the end of the previous block |
| TxMinimize.BlockAt | src/txcheck/tx_general_process.cc:289-295 | the entry after a statement is an AFTER_WRITE_READ exactly when it is the statement's own |
| TxMinimize.LastOfItems | src/txcheck/tx_general_process.cc:304-312 | a block never ends with a read that the backward loop would erase |
| TxMinimize.DeleteTxn | src/txcheck/tx_general_process.cc:211-232 | the erasing loop and the renumbering leave the other transactions' entries, renumbered |
| TxMinimize.ShiftTids | src/txcheck/tx_general_process.cc:226-232 | later transactions move down by one, earlier ones stay |
| TxMinimize.ItemsWithoutTxn | src/txcheck/tx_general_process.cc:211-232 | that is the instrumentation of the statement list without the transaction |
| TxMinimize.SurvivorsFacts | src/txcheck/tx_general_process.cc:215-224 | exactly the statements of other transactions remain, in order |
| TxMinimizer.TxnPassKeeps | src/txcheck/tx_general_process.cc:207-261 | whatever is accepted, whole transactions of the original are left, each with all its statements in order, numbered anew; the rest reproduces |
| TxMinimizer.TxnLevel | src/txcheck/tx_general_process.cc:207-261 | terminates by `txn_num - tid` although both move; the queues are the instrumentation of what dropping transactions in turn leaves |
| TxnMinimal.WithoutOfTxns | src/txcheck/tx_general_process.cc:211-232 | dropping a transaction of a part leaves exactly the part made of the other transactions, numbered anew |
| TxnMinimal.FewerTxnsIff | src/txcheck/tx_general_process.cc:207-261 | if every cut is saved, fewer transactions are left if and only if the failure persists without some one of them |
| TxnMinimal.TxnsAreMinimal | src/txcheck/tx_general_process.cc:207-261 | if adding transactions back cannot hide the failure, no transaction left can be dropped |
| TxnMinimal.LargestTid | src/txcheck/tx_general_process.cc:196-201 | with transactions 0 to n - 1 all there, all n are tried |
| Reduction.PartPassIsForward | src/txcheck/tx_general_process.cc:207-261 | a pass that drops numbered parts of a thing is a pass over the list of its parts |
| Reduction.ForwardPassShrinks | src/txcheck/tx_general_process.cc:207-261 | a pass drops something if and only if some single element can be dropped from the list it starts with |
| TxMinimizer.StmtPassKeeps | src/txcheck/tx_general_process.cc:263-343 | whatever is accepted, order, transactions and every BEGIN, COMMIT and ABORT of the transactions left are kept; the rest reproduces |
| TxMinimizer.TryStmt | src/txcheck/tx_general_process.cc:266-343 | one turn deletes the statement at `i` with its block if that is accepted, and goes on closer to the end |
| TxMinimizer.StmtLevel | src/txcheck/tx_general_process.cc:263-343 | terminates by `stmt_num - i` although `i` moves back; the queues are the instrumentation of what trying each deletable statement once, in order, leaves |
| TxMinimizer.MinimizedKeeps | src/txcheck/tx_general_process.cc:182-356 | what both passes leave reproduces and is a subsequence of the original statements, in their order and transactions, with all fixed statements of the transactions left |
| TxMinimizer.MinimizedIsSaved | src/txcheck/tx_general_process.cc:222-343 | what is left is the original, or a test case that reproduced and that the user saved |
| Reduction.ForwardPassIsMinimal | src/txcheck/tx_general_process.cc:263-343 | for any list and any bug that adding elements cannot hide, one pass forward already leaves a 1-minimal list |
| TxMinimizer.MinimizedIsMinimal | src/txcheck/tx_general_process.cc:263-343 | if every cut is saved and adding statements cannot hide the failure, no statement left that may be deleted can be spared |
| TxMinimizer.MinimizeTestcase | src/txcheck/tx_general_process.cc:182-356 | with a deterministic test, a case that reproduces is replaced by exactly the instrumentation of what the passes leave, if that is shorter, which reproduces and keeps order, transactions and fixed statements; otherwise it is untouched |
| TxMinimizer.LargestIsBound | src/txcheck/tx_general_process.cc:196-201 | no transaction number exceeds the largest |
| TxMinimizer.Deletable | src/txcheck/tx_general_process.cc:274-312 | an entry that is not skipped is a statement's own, is not the last, and after its deletion the index is closer to the end |
| TxMinimizer.EntryPos | src/txcheck/tx_general_process.cc:266-287 | an entry that is not instrumented is the statement of exactly the block it lies in |
| TxMinimizer.EntryFollows | src/txcheck/tx_general_process.cc:289-290 | when transactions end with COMMIT or ABORT, a deletable entry is never the last, so the look-ahead stays inside |
| TxMinimizer.EndsFixedWithoutStmt | src/txcheck/tx_general_process.cc:274-283 | deleting a deletable statement keeps that every transaction ends with COMMIT or ABORT |
| TxMinimizer.ReducedByStmt | src/txcheck/tx_general_process.cc:337-340 | an accepted deletion keeps order, transactions and all fixed statements |
| TxMinimizer.ReducedByTxn | src/txcheck/tx_general_process.cc:254-259 | an accepted deletion of a transaction keeps every statement of the others |
| TxnGraph.CheckTxnGraphCycle | src/txcheck/dependency_analyzer.cc:1573-1624 | terminates; the sorted transactions are committed, distinct and in dependency order, the reported ones are all others, each depended on by a reported one |
| TxnGraph.FirstSource | src/txcheck/dependency_analyzer.cc:1587-1612 | a transaction nothing left depends into, -1 exactly when each has such an edge |
| TxnGraph.CycleNodesAreBehindCycles | src/txcheck/dependency_analyzer.cc:1618-1622 | a transaction is reported if and only if some dependency cycle leads to it |
| TxnGraph.NoCycleNodesIffAcyclic | src/txcheck/dependency_analyzer.cc:1573-1574 | nothing is reported if and only if the committed transactions have no dependency cycle |
| TxnGraph.FiveKindsOrder | src/txcheck/dependency_analyzer.cc:1593-1597 | each of the five kinds of dependency, by itself, puts a committed transaction before the sorted one that depends on it |
| TxnGraph.FiveKindsReport | src/txcheck/dependency_analyzer.cc:1593-1597 | two committed transactions that depend on each other by any of the five kinds are both reported |
| TxnGraph.OtherKindsAreFree | src/txcheck/dependency_analyzer.cc:1593-1597 | with the other four kinds alone nothing is reported and every committed transaction is sorted |
| TxnGraph.EveryCommittedOnce | src/txcheck/dependency_analyzer.cc:1575-1583 | sorted and reported are exactly the transactions that did not abort, without the initial one, each once |
| SerialPath.NewStmtId | src/txcheck/dependency_analyzer.cc:29-37 | the name of an entry is its transaction and how many of its entries come before |
| SerialPath.TransferToStmtIdx | src/txcheck/dependency_analyzer.cc:40-54 | the entry with that name, -1 exactly when there is none |
| SerialPath.IdsAreOrdered | src/txcheck/dependency_analyzer.cc:29-54 | different entries have different names, ordered as in the queue inside a transaction |
| SerialPath.EveryPositionIsNamed | src/txcheck/dependency_analyzer.cc:40-54 | every position below a transaction's length names an entry |
| SerialPath.BuildSerialPath | src/txcheck/tx_general_process.cc:631-641 | the path lists exactly the entries of the given transactions that are not control entries, transaction order first, then program order |
| Decycle.Blank | src/txcheck/tx_general_process.cc:599-613 | every non-control entry of the transaction becomes a placeholder, nothing else changes |
| Decycle.BlankedAllAt | src/txcheck/tx_general_process.cc:599-613 | after any number of blankings an entry is a placeholder exactly when it was no INIT_TYPE entry and its transaction was blanked; length and transaction numbers never change |
| Decycle.CycleIsBusy | src/txcheck/tx_general_process.cc:597-613 | a reported transaction still has something to run, so blanking it is progress |
| Decycle.TxnDecycleTest | src/txcheck/tx_general_process.cc:534-660 | terminates, no deeper than the number of transactions with something to run; exactly the attempts that blanking every cyclic transaction in turn calls for are made, and the counters grow by their number and by the differences found; each saw the queue with those transactions blanked |
| Decycle.AttemptsAreAll | src/txcheck/tx_general_process.cc:597-629 | a sequence of blankings is attempted, and once, if and only if each blanks a transaction some cycle leads to at that point and the last run throws or has no cycle |
| Decycle.SomeAttempt | src/txcheck/tx_general_process.cc:597-629 | some attempt always comes to an end: a run that throws or a serial path |
| Decycle.TryWithout | src/txcheck/tx_general_process.cc:597-629 | every reported transaction is tried, in ascending order, each from the same queue |
| Decycle.CyclicIsBusy | src/txcheck/tx_general_process.cc:597-613 | a transaction some cycle leads to has something to run |
| Decycle.PathIsExact | src/txcheck/tx_general_process.cc:630-641 | in the acyclic branch an entry is on the path if and only if it is no INIT_TYPE entry and its transaction committed, and no entry is there twice |
| Decycle.PathFollowsDependencies | src/txcheck/tx_general_process.cc:630-641 | on the path every statement follows those its transaction depends on by any of the five kinds and the earlier ones of its own |
| Decycle.BugsAreDifferences | src/txcheck/tx_general_process.cc:643-650 | the bugs counted are the attempts whose serial comparison differs, and no others |
| TxnSplit.SplitByTxn | src/txcheck/tx_general_process.cc:568-572 | each transaction gets its statements in queue order |
| TxnSplit.SplitFinds | src/txcheck/tx_general_process.cc:568-572 | every entry of the queue is found again by transaction and position |
| TxnSplit.BuildIndex | src/cross/cross_tester.cc:223-232 | the map is exactly the inverse of naming entries by transaction and position |
| TxnSplit.ExtractPath | src/cross/cross_tester.cc:238-258 | what is taken from the transactions along the path is what stands in the queue, added reads and control entries left out |
| TxnSplit.TakenIff | src/cross/cross_tester.cc:238-255 | an entry is taken if and only if the path names it, it is not instrumented and it is no control string |
| CrossMinimize.FirstRound | src/cross/cross_tester.cc:287-304 | transforming all queries once and putting them back leaves every expression at rest with a memorised form |
| CrossMinimize.TransformSelect | src/cross/cross_tester.cc:60-93 | every expression of the query shows its memorised form, all other expressions are untouched |
| CrossMinimize.BackTransformSelect | src/cross/cross_tester.cc:98-122 | and is at rest again |
| CrossMinimize.TransformPath | src/cross/cross_tester.cc:481-488 | exactly the queries are transformed, and their positions remembered |
| CrossMinimize.BackPath | src/cross/cross_tester.cc:494-496 | afterwards all expressions are at rest |
| CrossMinimize.SendPath | src/cross/cross_tester.cc:33-56 | the statements go out in order, each with the plain or the rewritten text |
| CrossMinimize.OnlyReadsAreRewritten | src/cross/cross_tester.cc:20-22 | exactly SELECT_READ and VERSION_SET_READ statements are sent rewritten, and only in the rewritten run |
| CrossMinimize.Retest | src/cross/cross_tester.cc:475-500 | one retest depends only on the statements: the same rewritten texts are sent each time; afterwards all expressions are at rest, unless the rewritten run throws, which leaves exactly those of the queries rewritten |
| CrossMinimize.DiffersIff | src/cross/cross_tester.cc:498-500 | a list shows the difference if and only if both runs end and their rows or their final contents differ |
| CrossMinimize.RewrittenIsMarked | src/cross/cross_tester.cc:567-576 | an expression that stayed rewritten is marked, so the report saved after the exception cannot transform it |
| CrossMinimize.CrossTester.DropOne | src/cross/cross_tester.cc:459-510 | one turn drops the first statement that can be dropped, or shows that none can, or stops at an exception |
| CrossMinimize.CrossTester.MinimizePhase1 | src/cross/cross_tester.cc:456-510 | terminates; the list still shows the difference and all queries are kept in order, even after an exception; without one no single other statement can be dropped unless it is the only one, and all expressions are at rest; nothing is assumed of the difference |
| CrossMinimize.EveryOtherKindIsNeeded | src/cross/cross_tester.cc:461-473 | at the end no statement of the six other usages can be dropped, unless it is the only statement |
| CrossMinimize.ReadsAreKept | src/cross/cross_tester.cc:464-465 | every SELECT_READ and VERSION_SET_READ of the start list is still there |
| DatabaseMinimize.MinimizeQcnDatabase | src/eet/eet_run.cc:83-155 | the erase and insert loop is the backward pass, outcome by outcome |
| DatabaseMinimize.PassIs | src/eet/eet_run.cc:95-150 | from the last statement to the first, one is dropped for good exactly when the list without it shows the bug or throws |
| DatabaseMinimize.ThrowsIff | src/eet/qcn_tester/qcn_insert_select_tester.cc:68-110 | an exception leaves a test exactly when an unguarded validation fails after both queries ran and differed; a bug is found exactly when all four executions succeed and differ both times |
| DatabaseMinimize.PassIsLastKept | src/eet/eet_run.cc:83-155 | what is left tests as the last list that was kept did |
| DatabaseMinimize.RestShowsBugIff | src/eet/eet_run.cc:83-155 | what is left shows the bug if and only if the last of the tested lists that was kept was not kept by a throw; so if no tested list throws |
| DatabaseMinimize.RestIsMinimal | src/eet/eet_run.cc:83-155 | the rest is a selection in order, and 1-minimal if adding statements cannot hide the bug |
| DatabaseMinimize.ThrowLosesBug | src/eet/eet_run.cc:138-141 | two statements, where testing the first alone throws in its validation: the second is dropped and the bug with it |
| DatabaseMinimize.OnePassMissesSmaller | src/eet/eet_run.cc:83-155 | without upward closure one pass can leave a list that is not 1-minimal |
| ResultCompare.BkdrHash | src/core/general_process.cc:380-386 | the wrapped loop computes the polynomial of the bytes up to the first NUL modulo 2^64, bytes sign-extended |
| ResultCompare.HashRow | src/core/general_process.cc:392-397 | the hash of a row is the hash of its columns joined |
| ResultCompare.OneByteHash | src/core/general_process.cc:380-386 | a row of one byte hashes to the byte, from 128 on sign-extended to 64 bits |
| ResultCompare.TwoByteHash | src/core/general_process.cc:380-386 | the second byte is added to 131 times the first |
| ResultCompare.NulEndsText | src/core/general_process.cc:380-386 | what stands after a NUL is not hashed |
| ResultCompare.OneByteTellsApart | src/core/general_process.cc:380-397 | rows whose joined texts differ in exactly one byte have different hashes, because 131 is odd |
| ResultCompare.HashOutputToSet | src/core/general_process.cc:388-403 | the hashes of all rows, ascending |
| ResultCompare.SortedOnce | src/core/general_process.cc:400-401 | ascending lists of the same hashes are equal, so comparing them compares multisets |
| ResultCompare.IsNumber | src/core/general_process.cc:424-454 | accepts exactly numerals with at most one point and a digit, or a sign before one that starts with a digit |
| ResultCompare.NormalizeContent | src/core/general_process.cc:456-476 | exactly the numbers with a point are rounded |
| ResultCompare.RoundedOnlyWithPoint | src/core/general_process.cc:467-468 | a text without a point, or with a byte no number has, stays as it is |
| ResultCompare.DecimalIsRounded | src/core/general_process.cc:467-472 | digits with one point among them are rounded |
| ResultCompare.CompareOutput | src/core/general_process.cc:523-560 | true if and only if, statement by statement, the normalised rows have the same hashes, each as often |
| ResultCompare.SameSizes | src/core/general_process.cc:526-550 | outputs that compare as equal have as many statements, and each as many rows |
| ResultCompare.OneByteIsSeen | src/core/general_process.cc:548-556 | the comparison fails on one-row outputs whose normalised rows differ in one byte |
| ResultCompare.OneIsNotTwo | src/core/general_process.cc:548-556 | the outputs "1" and "2" differ |
| ResultCompare.OrderIsIgnored | src/core/general_process.cc:400-401 | rearranging the rows of a statement changes nothing |
| ResultCompare.ColumnSplitIsIgnored | src/core/general_process.cc:394-396 | rows whose columns join to the same text have the same hash |
| Names.DecIsInjective | src/core/relmodel.hh:131-136 | different numbers print differently |
| Names.DecReadsBack | src/core/relmodel.hh:131-136 | the printed digits are those of the number |
| Names.UidReadsBack | src/core/relmodel.hh:131-136 | prefix and counter can be read back from an identifier, whatever the prefixes |
| Names.AgainIff | src/core/relmodel.hh:131-136 | an identifier was issued before if and only if the unsigned counter of its prefix has gone round |
| Names.Counters.Draw | src/core/relmodel.hh:131-136 | the identifier, and the new counters |
| Names.Scope.StmtUid | src/core/relmodel.hh:131-136 | drawn from the shared counters |
| Names.Scope.NewStmt | src/core/relmodel.hh:138-140 | fresh counters for this scope; other scopes keep theirs |
| Names.DrawAll | src/core/relmodel.hh:114-140 | between two resets, identifiers drawn through any scopes that share the counters, with any prefixes, are pairwise different |
| Names.FirstFree | src/grammar/grammar.cc:1560-1570 | the search terminates with the first free name |
| Names.NameTable.UniqueName | src/grammar/grammar.cc:1552-1572 | the name equals no name of the schema and no earlier name, upper or lower case aside |
| Names.UpperIff | src/grammar/grammar.cc:1508-1520 | two names agree in upper case if and only if they agree letter by letter, case aside |
| Names.NameTable.UniqueNames | src/grammar/grammar.cc:1552-1594 | so for any number of names |
| StatementLog.ProcessDbrecordIntoSqls | src/schema/dut.cc:5-27 | the offset loop splits at every separator |
| StatementLog.LogReadsBackIff | src/core/general_process.cc:122-136 | reading the written log gives the statements back if and only if none holds a semicolon at the end of a line |
| StatementLog.WrittenIs | src/core/general_process.cc:122-136 | each statement is written followed by a semicolon at the end of its line, and such a semicolon is what separates |
| StatementLog.NothingIsLost | src/schema/dut.cc:13-27 | the statements read, a line each, and what follows the last separator are the text |
| StatementLog.SavedListReadsBack | src/eet/eet_run.cc:157-162 | a list that is saved after the reduction reads back the same |

## Left out

- Random generation of queries, expressions and statements: every random choice is an arbitrary one, random parts are arbitrary expressions nothing else refers to, and evaluation is total.
- White space in the printed text (tokens only), and the type suffix some systems put after boolean constants.
- Casts, JSON, intervals, window functions, LIKE, BETWEEN and the other nodes whose transform and component code repeats that of the nodes modelled; atomic subselects; components inside IN subqueries.
- ORDER, LIMIT, windows and aggregates: a query is rows, a select list, a search condition and DISTINCT; in `EetQuery` GROUP BY is an arbitrary function from rows to group rows.
- ExprGraph.EqExpr.Out: the rewrite is one object with a form instead of a CASE object over a shared pointer; the random parts of a rewrite are values, since nothing else points into them.
- ExprGraph.Node.SetComponentFromId: only on an untransformed tree; on a transformed one the source can also reach a component through a snapshot. A null component and a component that shares nodes with the tree are not modelled.
- ExprGraph.Node.GetComponentFromId: on a transformed AND/OR the source also meets the two unnumbered NOT objects of the De Morgan dual, which match only a search for id -1; ids of components start at 0.
- Putting single components of a transformed query back, in the query reduction of `src/eet/qcn_tester/qcn_select_tester.cc`.
- UnionQuery.UnionedQuery.PrintedRows: a copy made for an operator that is not rewritten stands for the same two sides; that the copy shares their search pointers later on is part of the object model, that it clears ORDER and LIMIT is not.
- QuerySemantics.CorrelatedRows: for queries without name capture; the generator gives columns names that are unique in the statement (`Names.DrawAll`).
- QuerySemantics.ExistsAsIn: the value of the rewritten EXISTS, not the swapping of the subquery's select list in place.
- InQuery.InIsExists: the value of the rewritten IN, for well-scoped subqueries of one column, not the objects that are built and put back.
- TxQueue.Instrumentor.constructor: the tables of a statement are a field that holds what the scanner finds in its text, which the constructor scans again. The text of the added reads is a constructor, not SQL.
- TxMinimizer.MinimizeTestcase: the statement and transaction vectors are returned instead of assigned to reference parameters; the usages, passed by value, are not. Testing is a function of the queues. The answer at the prompt is an arbitrary function of the candidate. The look-ahead past the end when a deletable statement is the last entry is excluded by the precondition that transactions end with COMMIT or ABORT.
- Decycle.TxnDecycleTest: what executing and analysing a queue gives is an arbitrary function of the queue and of the transactions blanked on the way, so every attempt has an outcome of its own; that only a transaction with something to run depends on another is assumed. The files and the dumps of the graph are left out.
- TxnGraph.CheckTxnGraphCycle: how dependencies are found from the outputs is not modelled; the graph is given.
- The statement-level sorting of `src/txcheck/dependency_analyzer.cc:1360-1573`.
- CrossMinimize.CrossTester.MinimizePhase1: what is executed is a function of the texts sent; usages are a field of the statement instead of a second vector. Phase 2, which transforms shared objects before it runs the untransformed list, is left out.
- DatabaseMinimize.MinimizeQcnDatabase: feeding and testing are one outcome per list; retries while the server is down are left out.
- ResultCompare.NormalizeContent: rounding is an arbitrary function on text, not binary floating point.
- `compare_content`, whose loop never runs (`src/core/general_process.cc:486`), and `unique_window_name`, which looks up another spelling than it inserts (`src/grammar/grammar.cc:1538-1550`).
- Connections, servers, files, time, logging and options.
