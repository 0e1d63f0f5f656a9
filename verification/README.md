# bpfquery core, modelled in Dafny

bpfquery lets you write a SQL `SELECT` against kernel probes. It compiles
the query to a bpftrace program, runs bpftrace, and turns bpftrace's JSON
event stream back into a growing table of rows. This project models the
three pieces of pure logic in that pipeline and proves properties about
them.

- **The compiler** (`src/bpftrace_compiler.rs`):
  - A parsed `SELECT` becomes one bpftrace probe plus the ordered column headers.
  - `FROM a.b` becomes the probe `a:b`; with no `FROM`, the probe is `BEGIN` and the program ends with `exit()`.
  - `WHERE` becomes a `/…/` filter.
  - Each projected column is bound to `$q1_<i>`.
  - One `print` statement emits the row as a tuple keyed by position.
  - Expressions are translated recursively:
    - `=` becomes `==`;
    - single-quoted strings become double-quoted;
    - `args.<name>` under a kprobe becomes a typed cast `((<type>)arg<index>)`, read off the kernel function's signature text.
  - Modules: `Compiler`, `KernelSignature` and `BpftraceProgram`.
  - Laws: `TranslationLaws`, `CompilerLaws` and `SignatureExamples`.
- **The row reconstructor** (`src/executor.rs`):
  - This is the per-line loop of `execute_bpf_locally`, which `execute_bpf_remotely` copies.
  - It is modelled as a step function over lines that are already decoded and interleaved (`Executor`).
  - The laws are in `ExecutorLaws`.
  - The state is:
    - the accumulated rows;
    - every snapshot sent to subscribers;
    - whether the loop still runs, and if not, why.
- **The SQL dialect's identifier characters** (`src/old/dialect.rs`), in module `Dialect`.

How failures are modelled:

- The compiler's `Err` results are `Rejected(message)`, with the source's messages.
- Every place where the source panics is an explicit outcome rather than a precondition:
  - indexing an empty statement list;
  - the `:`-split probe name;
  - `cs[1]`;
  - the catalog lookup;
  - the `panic!` arms.
- In the compiler, a panic is `Aborted(panic)`. In the executor loop, it is `Stopped(Panicked(abort))`.

Support modules:

- `Wrappers` holds `Option` and `Result`.
- `Strings` holds `split`, `join`, `replace`, `trim` and decimal formatting, as Rust defines them, with their laws.
- `SqlAst` holds the part of the sqlparser tree the compiler inspects.
- `JsonValue` holds decoded JSON values with serde_json's `Null`-returning indexing.

How the read loop treats two kinds of line:

- When standard output ends, the loop publishes the snapshot `[["Done"]]` in place of the rows, keeps the rows, and goes on reading (src/executor.rs:105-107).
- Every event type other than `attached_probes` and `map` is read as a data event (src/executor.rs:65-94). An event whose `data` is not an array stops the loop with `DataNotArray`.

The text that sqlparser's `Display` would print for an expression, operator, literal or name is carried as a string inside the tree.

## Model

| member | source | states |
|---|---|---|
| Strings.TrimStart | src/bpftrace_compiler.rs:20 | The result is a suffix of the input, everything removed is whitespace, and the result does not start with whitespace. |
| Strings.TrimEnd | src/bpftrace_compiler.rs:20 | The result is a prefix of the input, everything removed is whitespace, and the result does not end with whitespace. |
| Strings.SplitJoin | src/bpftrace_compiler.rs:16 | Joining the pieces of a split with the separator gives back the original text. |
| Strings.JoinSplit | src/bpftrace_compiler.rs:20-23 | Splitting a join of pieces that are free of the separator gives back the pieces. |
| Strings.SplitCountsSeparator | src/bpftrace_compiler.rs:35-37 | A split has at least two pieces exactly when the separator occurs in the text. |
| Strings.SplitPiecesAvoidSeparator | src/bpftrace_compiler.rs:16 | No piece of a split contains the separator. |
| Strings.SplitAfterPiece | src/bpftrace_compiler.rs:35-37 | Splitting `a + sep + b`, with `a` free of `sep`, gives `a` followed by the pieces of `b`. |
| Strings.SplitWithoutSeparator | src/bpftrace_compiler.rs:35 | Text without the separator splits into itself alone. |
| Strings.ReplaceCharPointwise | src/bpftrace_compiler.rs:146 | Replacing one character by another keeps the length and changes exactly the positions that held that character. |
| Strings.RemoveCharKeepsOthers | src/bpftrace_compiler.rs:15 | Deleting a character removes every occurrence of it and keeps the count of every other character. |
| Strings.DeleteIntroducesNothing | src/bpftrace_compiler.rs:15 | Deleting a pattern never brings in a character the text did not have. |
| Strings.ReplaceAbsentIsIdentity | src/bpftrace_compiler.rs:15 | Text in which the pattern never occurs is unchanged by the replacement. |
| Strings.ReplaceMissingCharIsIdentity | src/bpftrace_compiler.rs:15 | Text that lacks one of the pattern's characters is unchanged by the replacement. |
| Strings.ReplaceCharDistributes | src/bpftrace_compiler.rs:146 | Replacing a single character distributes over concatenation. |
| Strings.NatToString | src/bpftrace_compiler.rs:28 | The decimal rendering of an index is non-empty and all digits. |
| Strings.NatToStringRoundTrip | src/bpftrace_compiler.rs:28 | Reading the decimal rendering back gives the index, so distinct indices render differently. |
| Strings.JoinSnoc | src/bpftrace_compiler.rs:213-216 | Joining one more piece adds the separator and the piece at the end. |
| Strings.JoinAvoids | src/bpftrace_compiler.rs:16 | A character absent from the separator and from every piece is absent from their join. |
| Strings.PatternNeedsItsChars | src/bpftrace_compiler.rs:15 | A pattern occurs in a text only if each of its characters does. |
| KernelSignature.Tokens | src/bpftrace_compiler.rs:20 | A parameter declaration always has at least one token, so its last token exists. |
| KernelSignature.FindParameter | src/bpftrace_compiler.rs:19-27 | The scan returns the first position whose declared name is the argument, and returns none exactly when no declaration has that name. |
| KernelSignature.CastFor | src/bpftrace_compiler.rs:17-28 | The cast names the type and the position of the first declaration of the argument, and is `(()arg0)` when no declaration has that name. |
| KernelSignature.ArgumentCast | src/bpftrace_compiler.rs:13-28 | For a signature text, the cast is `((<type>)arg<i>)` for the first parameter `i` that declares the argument, and `(()arg0)` when none does. |
| KernelSignature.CleanRemovesParentheses | src/bpftrace_compiler.rs:15 | No parenthesis survives the cleaning; deleting `const` cannot bring one back. |
| KernelSignature.CleanBracketed | src/bpftrace_compiler.rs:15 | Cleaning `(<inner>)`, with `inner` free of parentheses and of `const`, gives `inner`. |
| KernelSignature.CleanConstLed | src/bpftrace_compiler.rs:15 | Cleaning `(const<inner>)`, with `inner` free of parentheses and of `const`, gives `inner`. |
| KernelSignature.SignatureDeclarations | src/bpftrace_compiler.rs:15-20 | A bracketed, comma-joined list of parameter texts without parentheses, commas or `const` has one declaration per parameter, in order, each read from that parameter alone. |
| SignatureExamples.PointerDeclaration | src/bpftrace_compiler.rs:20-23 | `struct <kind> * <name>`, possibly after a space, with any non-empty words free of whitespace, declares `<name>` with type `struct <kind> *`. |
| SignatureExamples.FourTokenDeclaration | src/bpftrace_compiler.rs:21-23 | In a four-token declaration, the last token is the name and the first three joined by spaces are the type. |
| SignatureExamples.PointerDeclarationSplit | src/bpftrace_compiler.rs:20 | Such a declaration, once trimmed, splits into `struct`, the kind, `*` and the name. |
| SignatureExamples.ConstLedPairDeclarations | src/bpftrace_compiler.rs:13-23 | `(const struct <k1> * <n1>,struct <k2> * <n2>)`, with words free of whitespace, parentheses and commas and no other `const`, declares `<n1>` of type `struct <k1> *` and then `<n2>` of type `struct <k2> *`. |
| SignatureExamples.ConstLedPairCasts | src/bpftrace_compiler.rs:13-28 | In such a signature with distinct names `<n1>` ≠ `<n2>`, `<n1>` resolves to `((struct <k1> *)arg0)`, `<n2>` to `((struct <k2> *)arg1)`, and any name other than both to `(()arg0)`. |
| SignatureExamples.VfsOpenFile | src/bpftrace_compiler.rs:13-28 | For the signature text `(const struct path * path,struct file * file)`, `file` resolves to `((struct file *)arg1)`. |
| SignatureExamples.VfsOpenUnknown | src/bpftrace_compiler.rs:13-28 | For the same signature text, a name it does not declare resolves to `(()arg0)`. |
| Compiler.TranslateValue | src/bpftrace_compiler.rs:53-58 | A single-quoted string comes out in double quotes; removing them gives the contents back. Other literals keep their text. |
| Compiler.TranslateOperator | src/bpftrace_compiler.rs:85-89 | A bare `=` never comes out. The result is `==` exactly for `=` and `==`, and every other operator is kept. |
| Compiler.ResolveCompound | src/bpftrace_compiler.rs:31-51 | A compound identifier resolves exactly when the probe has a `:`, the identifier is non-empty, and `args` under a kprobe has a field and a function the catalog knows. |
| Compiler.TranslateExpr | src/bpftrace_compiler.rs:79-117 | Translation succeeds exactly when every node is one the translator handles. Qualified wildcards, subqueries, unresolvable compound identifiers and other kinds of expression abort. |
| Compiler.TranslateArgs | src/bpftrace_compiler.rs:98-113 | A call's arguments translate exactly when each of them does, and then give one text per argument. |
| Compiler.TranslateArg | src/bpftrace_compiler.rs:68-77 | One argument, named or not, translates exactly when it is a wildcard or a translatable expression. |
| Compiler.TranslateArgExpr | src/bpftrace_compiler.rs:60-66 | An argument expression translates exactly when it is not a qualified wildcard and, if it is an expression, that expression translates. |
| Compiler.Compile | src/bpftrace_compiler.rs:119-147 | An empty statement list aborts. A non-query is rejected with "Expected a query", a non-SELECT body with "Expected a select", and a non-table FROM with "Expected a table". Only a SELECT can compile. |
| Compiler.CompileProjection | src/bpftrace_compiler.rs:174-197 | On success the accumulated headers and outputs are kept as prefixes, and both grow by the same number of columns. |
| TranslationLaws.ArgsTranslatePointwise | src/bpftrace_compiler.rs:101-108 | The argument texts of a call are the arguments translated one by one, in order. |
| TranslationLaws.TranslationDependsOnlyOnCompounds | src/bpftrace_compiler.rs:79-117 | The probe and the catalog affect the output only through compound identifiers: contexts that resolve those alike translate alike. |
| TranslationLaws.ArgsDependOnlyOnCompounds | src/bpftrace_compiler.rs:98-108 | The same holds for a call's argument list. |
| TranslationLaws.ArgDependsOnlyOnCompounds | src/bpftrace_compiler.rs:60-77 | The same holds for one argument. |
| TranslationLaws.TranslationWithoutCompounds | src/bpftrace_compiler.rs:79-117 | An expression without compound identifiers translates the same under every probe and catalog. |
| TranslationLaws.CatalogOnlyForKprobes | src/bpftrace_compiler.rs:39-43 | Under a probe whose kind is not `kprobe`, the catalog never affects the translation. |
| TranslationLaws.ProbeNameParts | src/bpftrace_compiler.rs:35-37 | For `<kind>:<function>…`, the probe kind is the text before the first `:` and the function is the text up to the next one. |
| TranslationLaws.ResolveKprobeArgument | src/bpftrace_compiler.rs:39-43 | `args.<name>` under a kprobe is the cast that the traced function's catalog signature gives for `<name>`. |
| TranslationLaws.ResolveJoinsOtherwise | src/bpftrace_compiler.rs:44-50 | Any other compound identifier under a probe with a `:` is its parts joined by `.`. |
| TranslationLaws.ResolveAbortsWithoutFunction | src/bpftrace_compiler.rs:35-37 | Under a probe with no `:`, such as `BEGIN`, every compound identifier aborts. |
| BpftraceProgram.RenderStatementsAppend | src/bpftrace_compiler.rs:199-225 | Rendering a statement list distributes over concatenation. |
| CompilerLaws.PrintEntriesJoin | src/bpftrace_compiler.rs:211-215 | The pushed id entry and column entries are the row's entries joined by commas, plus one trailing comma. |
| CompilerLaws.PrintTextRenders | src/bpftrace_compiler.rs:209-217 | Popping the last comma leaves the print statement with its entries joined by commas, with no trailing comma. |
| CompilerLaws.PrintWithoutColumns | src/bpftrace_compiler.rs:209-217 | With no columns, the print statement is `print((("id",@q1_id["id"])));`. |
| CompilerLaws.BindingTextRenders | src/bpftrace_compiler.rs:203-205 | The binding lines are the rendering of the bindings from a given position on. |
| CompilerLaws.QueryBodyRenders | src/bpftrace_compiler.rs:199-223 | The body text is the rendering of four parts in order: the counter, the bindings, the print statement, and the exit if there is one. |
| CompilerLaws.ProgramTextRenders | src/bpftrace_compiler.rs:151-225 | The text `Compiler.ProgramText` builds piece by piece is the rendering of the structured probe. |
| CompilerLaws.ProjectionStep | src/bpftrace_compiler.rs:177-193 | One turn of the projection loop appends one item's headers and outputs. |
| CompilerLaws.ProjectionFollowsColumns | src/bpftrace_compiler.rs:174-197 | The projection loop, with its two accumulators, computes the plan's columns. Headers and outputs grow together in projection order, and the first bad item's error is returned. |
| CompilerLaws.AccumulateColumns | src/bpftrace_compiler.rs:174-197 | Appending the columns of two item lists one after the other to the accumulators equals appending the columns of both at once. |
| CompilerLaws.CompileFollowsPlan | src/bpftrace_compiler.rs:119-227 | A SELECT compiles exactly when it has a plan. The program is then the rendering of the plan's probe and the headers are the plan's; otherwise the error is the plan's. |
| CompilerLaws.CompileAfterFilter | src/bpftrace_compiler.rs:174-227 | Once the probe and the filter have compiled, compilation succeeds exactly when the plan exists, renders the plan's probe with its headers, and otherwise fails with the plan's error. |
| CompilerLaws.ColumnsWidth | src/bpftrace_compiler.rs:177-193 | An unnamed or aliased item gives one column and `*` gives four. |
| CompilerLaws.ColumnsConcatenate | src/bpftrace_compiler.rs:177 | The columns of two item lists in sequence are the columns of each, in order. |
| CompilerLaws.ColumnsOfExpressions | src/bpftrace_compiler.rs:179-186 | Without wildcards, column `i` belongs to item `i`. Its header is the alias or the expression's text, and its output is the item's translation. |
| CompilerLaws.ColumnsFailAtFirstBadItem | src/bpftrace_compiler.rs:177-196 | A projection fails with the failure of its first failing item. |
| CompilerLaws.RejectsQualifiedWildcard | src/bpftrace_compiler.rs:195 | A `t.*` item is rejected with "Expected an expression" once the probe, the filter and the earlier items have compiled. |
| CompilerLaws.PlanProbe | src/bpftrace_compiler.rs:136-147 | Without FROM, the probe is `BEGIN` and the body ends with `exit()`. With FROM, the table name has each `.` turned into `:`, position by position, and there is no `exit()`. |
| CompilerLaws.PlanFilter | src/bpftrace_compiler.rs:157-168 | A filter is present exactly when there is a WHERE clause, and it is that clause's translation. |
| CompilerLaws.PlanBody | src/bpftrace_compiler.rs:199-223 | The body is: the counter, then binding `$q1_<i>` to the `i`-th output of the projection for each header in order, then a print of as many columns as there are headers. Without FROM, `exit()` follows as the last statement; with FROM, the print is last. |
| Executor.Collect | src/executor.rs:90-94 | Collecting gives one value per header. |
| Executor.DecodeRow | src/executor.rs:65-94 | A decoded row has one value more than there are headers, its first value is the integer id, and decoding succeeds only when the event's `data` is an array. |
| Executor.Step | src/executor.rs:34-113 | A stopped loop ignores its input. One step publishes at most one snapshot, earlier snapshots are kept, a new snapshot is the rows or `[["Done"]]`, and while the loop runs the rows only grow, by at most one. |
| ExecutorLaws.StageAllSnoc | src/executor.rs:69-87 | Staging one more entry continues from the staging state reached so far. |
| ExecutorLaws.StagingMeaning | src/executor.rs:67-87 | Staging succeeds exactly when every entry is accepted. A header is then staged exactly when some entry supplies it, with the value of the last such entry, and the id is the last one set (0 if none). |
| ExecutorLaws.CollectMeaning | src/executor.rs:90-94 | Collecting succeeds exactly when every header is staged, and gives their values in header order. |
| ExecutorLaws.DecodeRowMeaning | src/executor.rs:67-94 | An event gives a row exactly when its data is well formed. The row is the id, then, for each header in order, the value of the last entry that supplies it. |
| ExecutorLaws.SameHeaderSameValue | src/executor.rs:76-77 | Two columns with the same header always show the same value. |
| ExecutorLaws.StoppedStaysPut | src/executor.rs:34-113 | Once the loop has stopped, no later input changes anything. |
| ExecutorLaws.RunAppend | src/executor.rs:34-113 | Running on two input sequences in turn equals running on their concatenation. |
| ExecutorLaws.RunAround | src/executor.rs:34-113 | The run over `before`, `x`, `after` steps `x` from the state after `before`. |
| ExecutorLaws.ErrorLineEndsSession | src/executor.rs:36-41 | A line on standard error replaces the rows with one row holding the line, publishes it, and stops the loop, whatever follows. |
| ExecutorLaws.ErrorEndStopsQuietly | src/executor.rs:42-46 | When standard error ends, the loop stops without publishing and keeps its rows. |
| ExecutorLaws.SkippedLineChangesNothing | src/executor.rs:52-58 | An empty (zero-length) output line or an `attached_probes` event leaves the run as if it had never come. |
| ExecutorLaws.MapEventFinishes | src/executor.rs:59-64 | A `map` event appends the `DONE` row, publishes all rows and stops the loop. |
| ExecutorLaws.EventAppendsRow | src/executor.rs:67-104 | Any other well-formed event appends exactly one row and publishes all rows. The row has length `headers + 1`, starts with the id, and earlier rows are untouched. |
| ExecutorLaws.OutputEndPublishesDone | src/executor.rs:105-107 | When standard output ends, the snapshot `[["Done"]]` is published, the rows are kept and the loop goes on. |
| ExecutorLaws.StepKeepsGrowing | src/executor.rs:59-107 | Every step except an error line keeps published snapshots as prefixes of the rows and of one another. |
| ExecutorLaws.RunKeepsGrowing | src/executor.rs:34-113 | Growth is kept along a whole run unless bpftrace reports an error. |
| ExecutorLaws.AppendOnlyGrowth | src/executor.rs:34-113 | Unless there is an error line, each snapshot other than `[["Done"]]` extends every earlier one and is a prefix of the final rows. |
| ExecutorLaws.DecodePidEvent | src/executor.rs:67-94 | `[["id", n], [0, p]]` under the single header `pid` gives the row `[n, p]`. |
| ExecutorLaws.TranscriptFirstSteps | src/executor.rs:55-96 | The trace's first two steps: the probes attach, then the first row is published. |
| ExecutorLaws.TranscriptLastSteps | src/executor.rs:59-96 | The trace's last two steps: the second row is published, then the map dump finishes. |
| ExecutorLaws.TranscriptWithTwoEvents | src/executor.rs:34-113 | Attach, two events, then a map dump publish one row, then two rows, then both rows plus `DONE`. |
| Dialect.IsIdentifierStart | src/old/dialect.rs:8-10 | A character can start an identifier exactly when it is an ASCII letter, `_` or `*`, listed explicitly. |
| Dialect.IsIdentifierPart | src/old/dialect.rs:12-14 | A character can continue an identifier exactly when it is an ASCII letter or digit, `_` or `*`, listed explicitly. |
| Dialect.StartIsPart | src/old/dialect.rs:13 | Every identifier-start character is an identifier-part character. |
| Dialect.DigitsOnlyContinue | src/old/dialect.rs:9-13 | ASCII digits continue identifiers but never start them. |
| Dialect.PartButNotStartIsDigit | src/old/dialect.rs:9-13 | A part character that cannot start an identifier is a digit. |
| Dialect.OthersRejected | src/old/dialect.rs:8-14 | Every character other than an ASCII letter or digit, `_` or `*` is refused by both predicates. |

## Left out

- **The SQLite lookup** in `get_struct_for_arg` (opening the database and querying it) is database I/O. The catalog is a map from function name to signature text. A function missing from it aborts with `UnknownFunction`, where the source's `unwrap` panics.
- **sqlparser** is not part of this model, neither the parser nor its `Display` output. The texts it would print are fields of the tree.
- **Process and session setup**: spawning bpftrace, ssh sessions, line readers and the `tokio::select!` race in `src/executor.rs`. This is I/O and concurrency. The loop receives one explicit, already-interleaved input sequence.
- **The `execute_bpf` dispatch** between local and remote execution is I/O.
- **serde_json text parsing.** Output lines arrive decoded. Only a zero-length line is skipped (src/executor.rs:52-54). Any other text that does not parse, a whitespace-only line included, is `OutputGarbage` and stops the loop with `MalformedJson`, as the source's `unwrap` would.
- **Send failures.** Every send is modelled as succeeding. The source stops the loop when a normal row cannot be sent (no subscriber left) and panics when the other sends fail.
- **The `println!` diagnostics** are not modelled.
- **JSON number representation.** Only what `as_u64` decides is modelled: a float is `Float(text)`.
- **Other source files** are not part of this model: the web server and its tasks, the CLI and TUI front ends, DataFusion tables that shell out over ssh, ssh setup, and the browser UI.
- KernelSignature.SignatureDeclarations, SignatureExamples.ConstLedPairDeclarations: the cleaning, splitting and trimming of a signature text are related to its declarations for two shapes only. One is a comma-joined list with no `const` anywhere. The other is a two-parameter pointer signature led by `const`. A signature with `const` in other positions still has its declarations computed by the model, but no lemma states what they are.
