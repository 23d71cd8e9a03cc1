# ply-ng core in Dafny

ply-ng is a Python library that gives pandas a dplyr-style vocabulary. You
write `df >> select(X.x, X.y) >> head(5)` or
`df.ply_select('*', '-y')`. Expressions over `X` are built as lazy trees and
evaluated against the table later. This project models the core of the
library and proves properties of the model:

- `symbolic_eval.dfy` (module `SymbolicEval`) models the expression tree:
  symbols, attribute access and calls. It models `eval_if_symbolic`, the
  evaluator that walks the tree against a context. Errors and the optional
  log are part of the result.
- `select.dfy` (module `ColumnSelect`) models `resolve_selection`,
  `select` and `drop` of `ply_ng/select.py`. They work on selector vectors
  with one entry per column: 1 selects a column, -1 deselects it, 0 leaves
  it alone.
- `pandas_stream.dfy` (module `PandasStream`) models the DataFrame methods
  `ply_select`, `ply_filter` and `ply_mutate` of `ply_ng/pandas_stream.py`.
- `pandas_stream_set.dfy` (module `PandasStreamSet`) models the second copy
  of `ply_select` in `ply_ng/pandas-stream.py`. That copy tests membership
  against a set of the input columns. It is proved to give the same outcome
  as the first copy.
- `joins.dfy` (module `Joins`) models `_get_join_parameters` of
  `ply_ng/joins.py`. It turns the `by` keyword into `left_on` and
  `right_on`.
- `pandas_pipe.dfy` (module `PandasPipe`) models the `pipe` class of
  `ply_ng/pandas_pipe.py`. A pipe holds a mutable chain of pipes. `>>`
  appends to that chain and `df >> p` runs the chain.
- `masks.dfy` (module `Masks`) models selection by a boolean mask: the
  elements at the true positions, in their original order. `select`/`drop`
  (`np.where` on the labels), `ply_select` (a filtering list comprehension)
  and `ply_filter` (`self[mask]`) all select this way.
- `wrappers.dfy` defines the `Option` and `Result` types used for error
  paths. Each Python `ValueError`, `KeyError`, `AttributeError` or unpacking
  failure the model covers becomes a named error value.

Tables are reduced to what each operation looks at:

- `select`, `drop` and `ply_select` see a sequence of column labels.
- `ply_filter` sees a sequence of rows and boolean masks.
- `ply_mutate` sees a map from column names to columns plus an index.
- The pipe sees a value of an abstract type.

In `eval_if_symbolic`, a plain list or tuple argument is passed to the
callee as it is, and the expressions inside it are not evaluated
(`ply_ng/symbolic_eval.py:69` and `:99` test only `hasattr(obj, '_eval')`).
`SymbolicEval.ContainerArgumentIsNotEvaluated` states this behaviour.

## Model

| member | source | states |
|---|---|---|
| `SymbolicEval.EvalIfSymbolic` | ply_ng/symbolic_eval.py:83-99 | Anything without `_eval` is returned unchanged, with no error and nothing logged. |
| `SymbolicEval.LogOnlyPrints` | ply_ng/symbolic_eval.py:42-74 | The `log` option changes only what is printed, never the value or error. Without it nothing is printed. |
| `SymbolicEval.LogOnlyPrintsArgs` | ply_ng/symbolic_eval.py:69 | The same for the list of positional arguments. |
| `SymbolicEval.LogOnlyPrintsKwargs` | ply_ng/symbolic_eval.py:70 | The same for the keyword arguments. |
| `SymbolicEval.EvalArgsPointwise` | ply_ng/symbolic_eval.py:69 | Positional arguments evaluate to a list iff each one evaluates. Element i of that list is argument i's value. Otherwise the error is the first failing argument's. |
| `SymbolicEval.EvalKwargsKeepsNames` | ply_ng/symbolic_eval.py:70 | Keyword arguments evaluate iff each value does. The result keeps every name in order, paired with that name's evaluated value. Otherwise the error is that of the first keyword whose value fails. |
| `SymbolicEval.CallCalleeFirst` | ply_ng/symbolic_eval.py:65-68 | If the callee fails to evaluate, the call fails with the callee's error. |
| `SymbolicEval.CallPositionalBeforeKeywords` | ply_ng/symbolic_eval.py:68-70 | With the callee evaluated, the first failing positional argument decides the error, before any keyword. |
| `SymbolicEval.CallKeywordsBeforeApplying` | ply_ng/symbolic_eval.py:68-71 | With the callee and every positional argument evaluated, the first failing keyword value decides the error, and the callee is not applied. |
| `SymbolicEval.CallAppliesLast` | ply_ng/symbolic_eval.py:65-74 | When callee and all arguments evaluate, the result is the callee applied to the evaluated positional and keyword arguments. |
| `SymbolicEval.SymbolReadsOwnBinding` | tests/test_symbolic_eval.py:8-10 | A symbol evaluates to its own binding, whatever else the context holds. An unbound symbol is an error naming its key. |
| `SymbolicEval.GetAttrLooksUpStoredName` | ply_ng/symbolic_eval.py:42-49 | `GetAttr(obj, name)` evaluates `obj`, then looks up the stored name on the value. A missing attribute is an error. |
| `SymbolicEval.ExpressionValuesGrowTheTree` | ply_ng/symbolic_eval.py:25-31 | When a symbol is bound to an expression, attribute access on it gives a new `GetAttr` node. A call on it, with any positional and keyword arguments that are not expressions, gives a new `Call` node holding exactly those arguments. Neither result depends on the host. |
| `SymbolicEval.PlainValuesEvaluateToThemselves` | ply_ng/symbolic_eval.py:69-70 | Positional and keyword arguments that are not expressions evaluate to themselves, keyword names and order included. |
| `SymbolicEval.ContainerArgumentIsNotEvaluated` | ply_ng/symbolic_eval.py:69-71 | A list or tuple argument reaches the callee as it is, even if it holds expressions. |
| `SymbolicEval.EvaluationIsLocal` | ply_ng/symbolic_eval.py:83-99 | The value and the log of an evaluation depend only on the bindings of symbols the evaluator can reach. Symbols inside a plain container are not reachable. |
| `SymbolicEval.EvaluationIsLocalArgs` | ply_ng/symbolic_eval.py:69 | The same for a positional argument list. |
| `SymbolicEval.EvaluationIsLocalKwargs` | ply_ng/symbolic_eval.py:70 | The same for keyword arguments. |
| `ColumnSelect.LaterSelectorsWin` | ply_ng/select.py:11-16 | Each column's accumulated entry is the last nonzero entry given for it, negated when dropping. It is 0 when no selector mentions the column. |
| `ColumnSelect.AppendMarkedGrows` | ply_ng/select.py:17-19 | Appending the columns one selector marks with 1 keeps the earlier order as a prefix. It adds exactly the marked columns not yet present, and keeps labels distinct. On distinct labels, the appended part is those columns in table order. |
| `ColumnSelect.AppendMarkedInTableOrder` | ply_ng/select.py:17-19 | On distinct labels, one selector appends the columns it marks with 1 and that are not yet present, in table order, after the earlier ordering. |
| `ColumnSelect.NotYetAppended` | ply_ng/select.py:18 | On distinct labels, a column is present after scanning the positions before its own iff it was already in the ordering. |
| `ColumnSelect.Ordering` | ply_ng/select.py:9-19 | The ordering holds only columns of the table, and is empty before any selector. |
| `ColumnSelect.OrderingCollectsMarked` | ply_ng/select.py:17-19 | The ordering has no repeats. A column is in it iff some selector marks it with 1. It extends the ordering of every prefix of the selectors. |
| `ColumnSelect.OrderingHoldsMarked` | ply_ng/select.py:11-19 | A column is in the ordering iff it is among the columns that some selector marks with 1. |
| `ColumnSelect.OrderingAppendsNewMarks` | ply_ng/select.py:11-19 | Each further selector appends, in table order, exactly the columns it marks 1 that earlier selectors did not. So the ordering is first-mention order. |
| `ColumnSelect.ResolveSelection` | ply_ng/select.py:6-23 | The loop returns the ordering and accumulated indices defined by the functions above. With no selectors these are all the columns and all ones. |
| `ColumnSelect.Max` | ply_ng/select.py:32 | The maximum bounds every entry and is attained. |
| `ColumnSelect.MaskedColumns` | ply_ng/select.py:32-34 | On distinct labels, the columns a mask keeps are distinct and are exactly those where the mask holds. They are the columns at the mask's true positions, in increasing position order. |
| `ColumnSelect.Kept` | ply_ng/select.py:32-34 | The kept columns are columns of the table. |
| `ColumnSelect.Restrict` | ply_ng/select.py:36 | Restricting the ordering keeps only ordered columns that are kept. |
| `ColumnSelect.RestrictIsMasked` | ply_ng/select.py:36 | Restricting the ordering selects, in ordering order, the ordered columns that are kept. |
| `ColumnSelect.RestrictFilters` | ply_ng/select.py:35-36 | Restricting the ordering to the kept columns keeps exactly its members that are kept, without repeats and in ordering order. When every ordered column is kept, the result is the whole ordering. |
| `ColumnSelect.Selected` | ply_ng/select.py:28-39 | `select` returns only columns of the table. |
| `ColumnSelect.Dropped` | ply_ng/select.py:46-52 | `drop` returns only columns of the table, and no more than it has. |
| `ColumnSelect.Select` | ply_ng/select.py:28-39 | Computes the columns of `select`: none when every index is 0. Otherwise it takes the columns at the maximal non-negative index, reordered by the ordering when that covers them all. |
| `ColumnSelect.Drop` | ply_ng/select.py:46-52 | Computes the columns of `drop` the same way, on the negated indices and without reordering. |
| `ColumnSelect.NoSelectorsKeepsAll` | ply_ng/select.py:20-22 | With no selectors, `select` and `drop` both keep every column, in order. |
| `ColumnSelect.KeptAreMaximal` | ply_ng/select.py:32-34 | The kept columns are distinct. A column is kept iff its index equals the maximum and is non-negative. They come in table order. |
| `ColumnSelect.SelectedAreTheKept` | ply_ng/select.py:28-39 | The selected columns are distinct. They are empty when every index is 0, and otherwise exactly the kept columns. When the ordering covers the kept columns, they come in ordering order; otherwise in table order. |
| `ColumnSelect.SelectByNamesMask` | ply_ng/select.py:11-16 | When selectors only mark columns with 1 (and mark at least one), the named positions end at the maximum, 1, and are exactly the positions kept. |
| `ColumnSelect.SelectAccumulator` | ply_ng/select.py:10-14 | When selectors only mark with 1, each position of `column_indices` ends at 1 if some selector marks it and at 0 otherwise. |
| `ColumnSelect.SelectByNamesFollowsOrdering` | ply_ng/select.py:35-37 | When selectors only mark columns with 1 (and mark at least one), the result is the ordering: the marked columns in first-mention order. |
| `ColumnSelect.DropAccumulator` | ply_ng/select.py:11-16 | When dropping by names, a column's entry is -1 if some selector marks it and 0 otherwise. |
| `ColumnSelect.DropByNamesMask` | ply_ng/select.py:11-16 | When dropping by names (at least one), the maximum is 0 or -1 and the positions kept are exactly the unnamed ones. |
| `ColumnSelect.DropByNamesKeepsTheRest` | ply_ng/select.py:46-52 | Dropping by names leaves exactly the unmarked columns: those at the unmarked positions, in increasing position order. |
| `ColumnSelect.SelectNamesExample` | tests/test_select.py:27 | Selecting `x` then `y` of `x, y, z` gives `x, y`. |
| `ColumnSelect.SelectStarExample` | tests/test_select.py:28 | Selecting all columns, then deselecting `y`, gives `x, z`. |
| `ColumnSelect.SelectInvertedExample` | tests/test_select.py:41-44 | Selecting `~X.x, ~X.y` gives `z`. |
| `PandasStream.SelectColumns` | ply_ng/pandas_stream.py:68-78 | With no arguments nothing is selected: the result is the empty column list. What it selects in general is stated by `PandasStream.SelectOutcome`. |
| `PandasStream.ScanErrorSticks` | ply_ng/pandas_stream.py:50-66 | Once an argument raises, later arguments do not change the error. |
| `PandasStream.ScanStep` | ply_ng/pandas_stream.py:50-66 | Scanning one more argument is one loop step from the state of the shorter scan. An error at that step is the error of the whole scan. |
| `PandasStream.PlySelect` | ply_ng/pandas_stream.py:25-82 | The loop and the checks after it give the outcome defined by the scan and the output rule. |
| `PandasStream.Without` | ply_ng/pandas_stream.py:77-78 | The output keeps exactly the source columns not excluded, and has no more columns than the source. |
| `PandasStream.WithoutKeepsOrder` | ply_ng/pandas_stream.py:77-78 | The output is the source columns not excluded, in source order. |
| `PandasStream.Includes` | ply_ng/pandas_stream.py:55-59 | The collected includes are exactly the arguments that name a column. |
| `PandasStream.IncludesKeepOrder` | ply_ng/pandas_stream.py:55-59 | The includes are the arguments that name a column, in argument order. |
| `PandasStream.Excludes` | ply_ng/pandas_stream.py:60-64 | Every collected exclude is a column of the table, and every argument `-c` naming a column contributes `c`. |
| `PandasStream.StepMeaning` | ply_ng/pandas_stream.py:51-66 | One argument is accepted iff it is a fresh star, a column not yet included, or `-c` for a column `c`. It updates the star flag, the includes or the excludes to match. |
| `PandasStream.ScanMeaning` | ply_ng/pandas_stream.py:50-66 | The scan succeeds iff every argument is parseable, has at most one star and has no repeated include. On success its state is the star flag, the includes and the excludes in argument order. |
| `PandasStream.SelectOutcome` | ply_ng/pandas_stream.py:68-78 | `ply_select` succeeds iff the scan does, excludes come with a star, and a star comes without includes. The result is all columns minus the excludes (with a star) or the includes in argument order. |
| `PandasStream.SelectAfterScan` | ply_ng/pandas_stream.py:68-78 | After a completed scan, the selection succeeds iff excludes come with a star and a star comes without includes. The overlap check then never fires. The result is the table's columns (with a star) or the includes, minus the excludes. |
| `PandasStream.UnreachableSelectErrors` | ply_ng/pandas_stream.py:60-73 | No argument list raises the repeated column-exclude error or the overlapping includes and excludes error. |
| `PandasStream.NoRepeatedExcludeInScan` | ply_ng/pandas_stream.py:60-64 | The exclude check compares the argument `-c` with the stored names `c`. Those never match, so the scan never reports a repeated exclude. |
| `PandasStream.SelectedColumnsAreNamed` | ply_ng/pandas_stream.py:75-78 | Every output column is a column of the table. |
| `PandasStream.ExcludesAreNamed` | ply_ng/pandas_stream.py:60-64 | Every collected exclude is a column of the table. |
| `PandasStream.SelectErrorExamples` | tests/test_pandas_stream.py:96-109 | Unknown column, unknown exclude, exclude without star, star with include, repeated star, repeated include and the empty string each raise. |
| `PandasStream.SelectExamples` | tests/test_pandas_stream.py:111-131 | No arguments, `*`, reordering, `*,-y` and `*,-x,-y` give the expected columns. |
| `PandasStream.RepeatedExcludeAccepted` | ply_ng/pandas_stream.py:60-64 | `*, -y, -y` is accepted and acts like a single `-y`. |
| `PandasStream.AndAllMeansEvery` | ply_ng/pandas_stream.py:131 | The `&`-reduction of the masks holds at a row iff every mask holds there. |
| `Masks.KeepRows` | ply_ng/pandas_stream.py:132 | Boolean indexing returns only rows of the input, and no more of them. |
| `Masks.TrueIndices` | ply_ng/pandas_stream.py:132 | The listed positions are increasing and in range. They are exactly the positions where the mask holds. |
| `Masks.KeepRowsPicksTrueIndices` | ply_ng/pandas_stream.py:132 | Boolean indexing keeps the rows at the mask's true positions, in order. |
| `Masks.KeepRowsMembers` | ply_ng/pandas_stream.py:132 | A value is kept iff it sits at some position where the mask holds. |
| `Masks.KeepRowsAll` | ply_ng/pandas_stream.py:132 | An all-true mask keeps every row. |
| `PandasStream.Filter` | ply_ng/pandas_stream.py:112-132 | Without conditions the table itself is returned. On success there are no more rows than before. |
| `PandasStream.FilterKeepsRowsWhereAllHold` | ply_ng/pandas_stream.py:112-132 | No conditions return the table itself. Otherwise filtering succeeds iff every mask has one entry per row, and keeps, in order, exactly the rows where every condition holds. |
| `PandasStream.PlyMutate` | ply_ng/pandas_stream.py:85-108 | The result has the old columns plus every assigned name except `index`. Each assigned column is its function applied to the input table. Untouched columns are kept. The index is replaced by an `index` assignment and kept otherwise. |
| `PandasStream.Mutated` | ply_ng/pandas_stream.py:91-108 | Every column of the input table is still present, and every name assigned by a keyword other than `index` is present. |
| `PandasStream.MutatedKeys` | ply_ng/pandas_stream.py:91-106 | The columns afterwards are exactly the input's columns plus the names assigned by keywords other than `index`. |
| `PandasStream.MutatedAssigns` | ply_ng/pandas_stream.py:100-106 | With distinct keyword names, each assigned column holds its value evaluated on the input table. |
| `PandasStream.MutatedIndex` | ply_ng/pandas_stream.py:103-104 | With distinct keyword names, an `index` keyword sets the index to its value evaluated on the input table. |
| `PandasStream.MutatedKeeps` | ply_ng/pandas_stream.py:94-106 | A column that no keyword names, or one called `index`, keeps its input contents. |
| `PandasStream.MutatedKeepsIndex` | ply_ng/pandas_stream.py:94-104 | With no `index` keyword, the index is the input's. |
| `PandasStreamSet.PlySelectBySet` | ply_ng/pandas-stream.py:14-71 | Testing membership against the set of input columns gives the same outcome as `ply_select` of `pandas_stream.py`. |
| `Joins.MinLength` | ply_ng/joins.py:11 | The length of the shortest row: a lower bound on every row's length, attained by some row. |
| `Joins.Zip` | ply_ng/joins.py:11 | `zip(*rows)` of no rows is empty. Otherwise it has one column per position of the shortest row, each with one entry per row. Entry `i` of column `c` is item `c` of row `i`. |
| `Joins.GetJoinParameters` | ply_ng/joins.py:4-14 | The suffixes are those given, defaulting to `("_x", "_y")`. Only a tuple or list `by` can fail, with a count other than 2. A tuple succeeds iff it has two items. A missing `by`, or one that is neither tuple nor list, gives the same key on both sides. |
| `Joins.ScalarOnBothSides` | ply_ng/joins.py:12-13 | A missing `by` leaves both keys to the merge's default. Any `by` that is neither a tuple nor a list (a string such as `'x'` included) is used on both sides. |
| `Joins.TupleSplits` | ply_ng/joins.py:7-8 | A tuple `by` succeeds iff it has two items, which become the left and right keys. Any other length is an unpacking error with that count. |
| `Joins.ListUnzips` | ply_ng/joins.py:9-11 | A list `by` succeeds iff it is non-empty and its shortest row has two items. The keys then have one entry per element: a plain key on both sides, or a tuple's first and second items. An empty list is an unpacking error with count 0. |
| `Joins.PlainListOnBothSides` | ply_ng/joins.py:9-11 | A non-empty list of plain keys becomes the same key list on both sides. |
| `Joins.JoinByScalarExample` | tests/test_joins.py:24-29 | `by='x'` joins on `x` on both sides with the default suffixes. |
| `Joins.JoinByPairsExample` | tests/test_joins.py:39-44 | `by=[('x','x'),('y','y')]` gives the key lists `[x, y]` on both sides. |
| `Joins.JoinByNamesExample` | tests/test_joins.py:54-59 | `by=['x','y']` gives the key lists `[x, y]` on both sides. |
| `Joins.JoinSuffixAndEmptyExamples` | tests/test_joins.py:61-73 | Custom suffixes are passed through. An empty list is an unpacking error. |
| `PandasPipe.Pipe.constructor` | ply_ng/pandas_pipe.py:8-12 | A new pipe holds the function and an empty chain, and applying it calls the function on the input. |
| `PandasPipe.Pipe.Rshift` | ply_ng/pandas_pipe.py:14-17 | `self >> other` appends `other` to the chain and returns `self`. Applying `self` afterwards applies `other` to what `self` gave before. |
| `PandasPipe.Pipe.ChainExtended` | ply_ng/pandas_pipe.py:14-17 | Appending to the chain composes the appended pipe after the old behaviour. |
| `PandasPipe.Pipe.Rrshift` | ply_ng/pandas_pipe.py:19-30 | `x >> self` runs the function on the input and then each chained pipe in order, each through its own `>>`. |
| `PandasPipe.Pipe.Call` | ply_ng/pandas_pipe.py:32-33 | Calling a pipe gives a fresh pipe with an empty chain whose function has the arguments bound. |
| `PandasPipe.IdentityChain` | tests/test_pipe.py:25-29 | A pipe whose function and chained pipes all act as the identity acts as the identity. |

## Left out

- `flatten` (`ply_ng/symbolic_eval.py`) is not modelled. Selectors reach `select`/`drop` already flattened into one vector per selector. How `X.x`, `~X.x`, `'*'` or an index turns into such a vector is assumed, as in the three select examples.
- `ColumnSelect.ResolveSelection` tests for no selectors after flattening, while `resolve_selection` tests `len(args) > 0` on the arguments before `flatten`. Arguments that flatten to no vector at all give every column and all ones in the model. Python gives an empty ordering and all-zero indices there, so `select` and `drop` return no columns. The same holds for `ColumnSelect.ResolvedIndices`, `ColumnSelect.ResolvedOrdering`, `ColumnSelect.Selected` and `ColumnSelect.Dropped`.
- `Symbol`, `X` and `to_callable` are not modelled beyond what their uses show. A symbol reads its key from the context, as in tests/test_symbolic_eval.py. Conditions and mutate values are given as functions of the table.
- `symbolic_pipe_evaluation`, `GroupedEvaluationService` (`ply_ng/group.py`) and the decorators around `select`/`drop` are not part of this model. `Select` and `Drop` model the decorated bodies.
- `__repr__` and `print` are not modelled. The log records the node entered and the value returned, not their printed strings.
- Python finds some names on an `Expression` itself (its `_eval` method, its stored fields) before `__getattr__` runs. The model treats every attribute access on an expression as building a `GetAttr` node.
- Floating point is not modelled. Masks and selector entries are given as booleans and integers.
- `inner_join`'s `merge`, `inject_ply`, `_ply_mutate_for_groups`, `bindings.py`, `summarize.py` and `subset.py` are not part of this model.
- The `_ply_mutate` of `ply_ng/pandas-stream.py` is not modelled because it uses names that file never defines.
- Duplicate column labels are not modelled. The lemmas about `select`/`drop` assume distinct labels. With repeats, label-based indexing like `df[ordering]` returns every column with that label.
- `ColumnSelect.Select` does not model row data, only column labels. The same holds for `ColumnSelect.Drop`, `PandasStream.PlySelect` and `PandasStreamSet.PlySelectBySet`.
- `PandasStream.FilterKeepsRowsWhereAllHold` does not model pandas index alignment of boolean Series or non-boolean masks. A mask whose length differs from the table's is one error value.
- `PandasStream.PlyMutate` does not model the result's column order. pandas takes the copy through a set of labels, so the order is unspecified; the model uses a map. Keyword arguments are a sequence of distinct names. Length checks and broadcasting of assigned values are left to pandas.
- `PandasPipe.Pipe.Rrshift` does not model `copy()` object identity or `_grouped_by`. A copy is the same value, and it keeps the input's `_grouped_by`.
- `PandasPipe.Pipe.Rshift` requires that `other` not already reach `self`. In Python, `p >> q` with `q` reaching `p` succeeds, and a later `df >> p` raises `RecursionError` through the loop of `__rrshift__`; the model's requires excludes such appends. Its contract speaks only about `self`: other chains that already contain `self` change too, and the model does not track them.
- `PandasPipe.Pipe.Call` has no `TypeError`. Calling a pipe built by `__call__` again passes extra arguments to a one-argument lambda, which raises in Python; the model ignores them.
- The `assert isinstance(other, pipe)` in `__rshift__` is enforced by the parameter's type.
- `PandasStream.Without`: its own contract states membership and length only. The order of the output is stated separately by `PandasStream.WithoutKeepsOrder`.
- `PandasStream.Includes`: its own contract states membership only. Argument order is stated separately by `PandasStream.IncludesKeepOrder`.
- `Joins.GetJoinParameters` does not tell an explicit `suffixes=None` apart from an absent keyword. Python passes an explicit `None` through as the suffixes, while the model's `None` means absent and gives `("_x", "_y")`.
- `PandasStream.PlySelect` does not model non-string arguments, which raise `TypeError` at `arg[0]` in Python. Arguments are strings.
