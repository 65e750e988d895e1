# gojq builtin-table generator, modelled in Dafny

gojq ships its builtin jq functions (`map`, `select`, `paths`, …) as jq
source text. At build time, `_tools/gen_builtin.go` parses every definition
and asks a structure builder for a Go expression that rebuilds the parsed
queries. The generator then rewrites that expression into a Go file.

The builder's expression has the form
`(func(p1, p2 T, …) map[string]*gojq.Query { return map[string]*gojq.Query{…} })(a1, a2, …)`.
The generator turns it into three parts:

- a binding statement `p1, p2, … := a1, a2, …`;
- an assignment `builtinFuncs = <the returned composite literal>`;
- inside the literal's entries, every word-bounded `Op: <n>` with `n` from
  `OpAdd` to `OpAlt` replaced by that operator's symbolic name
  (`Op: OpAdd`, …); operators outside that range stay numeric.

The whole file body is wrapped in `func init() { … }` under a
"generated code" header.

The model has one Dafny module per part of the generator:

| module | file | models |
|---|---|---|
| `Ast` | `ast.dfy` | the Go syntax nodes the generator looks at, its error type and a `Result` with `:-` |
| `Shape` | `shape.dfy` | `getReturnStmtCompositeLit`, the shape check with its five error cases |
| `Bindings` | `bindings.dfy` | `printAssignStmtsFromFuncArgs`, the nested loops that pair parameter names with arguments |
| `Symbolize` | `symbolize.dfy` | the per-operator regular-expression passes `\bOp: %d\b` |
| `Layout` | `layout.dfy` | `printCompositeLit`, the line-by-line layout of the builtin table |
| `Generator` | `generator.dfy` | `run`: parsing into a map, building, assembling the buffer, wrapping it in the file format |

## How the parts are modelled

The parser, the structure builder and the Go pretty-printer are
function-typed parameters that may fail: `parse`, `build` and `render`.
The operator range `OpAdd..OpAlt`, with the `%#v` spelling of each operator,
is the parameter `OpTable`. An `io.Writer` is modelled as the text written
to it, which the method returns.

The symbolisation loop is specified twice:

- as the source runs it: one left-to-right, non-overlapping replacement per
  operator, in ascending order (`ReplaceAll`, `Passes`);
- as a single left-to-right rewrite of every operator in range
  (`Rewrite`, `Symbolized`).

`PassesRewrite` proves the two equal. The properties of the output are then
proved about the one-pass rewrite: no match remains, other text is kept,
and the rewrite is idempotent. `\b` is Go's ASCII word boundary.

## Model

| member | source | states |
|---|---|---|
| Shape.GetReturnStmtCompositeLit | _tools/gen_builtin.go:100-120 | Succeeds exactly when the callee is a function literal whose body is one `return` of one composite literal, and then returns that literal. Each failure names its node: the call, the body block, the statement that is not a return, the return with the wrong result count, or the result that is not a composite literal. |
| Bindings.BindingStatement | _tools/gen_builtin.go:82-92 | The nested loops build a `:=` (DEFINE) statement. Its left side is every group's names in declaration order, as identifiers. Its right side has the same length, and its k-th entry is argument k. Needs at least as many arguments as names, because `Args[i]` is unchecked. |
| Bindings.FlattenAppend | _tools/gen_builtin.go:85-91 | Flattening the groups keeps group order: the names of `a + b` are those of `a` followed by those of `b`. |
| Bindings.FlattenMembers | _tools/gen_builtin.go:85-91 | A name ends up on the left side exactly when some parameter group declares it. |
| Bindings.PrintAssignStmtsFromFuncArgs | _tools/gen_builtin.go:77-98 | A callee that is not a function literal gives an error naming the call. Otherwise the output is `"\n\t"` followed by the rendering of the binding statement and nothing else, or the renderer's error. |
| Symbolize.DecimalInjective | _tools/gen_builtin.go:137 | Different operator numbers have different `%d` spellings, so each pattern names exactly one operator. |
| Symbolize.MatchUnique | _tools/gen_builtin.go:136-138 | At most one operator's pattern matches at a position, so the order of the passes cannot choose between two operators. |
| Symbolize.ReplaceAllString | _tools/gen_builtin.go:137-138 | The scan of one `ReplaceAllString` call computes the replacement of every non-overlapping, word-bounded `Op: <n>` found left to right. |
| Symbolize.ReplaceAllAsRewrite | _tools/gen_builtin.go:137-138 | One replacement pass is the one-pass rewrite restricted to the single operator `n`. |
| Symbolize.ReplaceAllNeedsBoundary | _tools/gen_builtin.go:137 | Because of the `\b` after the digits, the pass for operator 1 leaves `Op: 12` unchanged. |
| Symbolize.PassesRewrite | _tools/gen_builtin.go:136-139 | For valid symbols, the ascending sequence of passes for `lo..k`, each applied to the previous pass's output, equals the single left-to-right rewrite of all operators `lo..k`. |
| Symbolize.SymbolizeOps | _tools/gen_builtin.go:136-139 | The operator loop's result is the one-pass symbolisation of the entry text. |
| Symbolize.SymbolizedComplete | _tools/gen_builtin.go:136-139 | No word-bounded `Op: <n>` with `n` in `OpAdd..OpAlt` is left in the result, at any position. |
| Symbolize.SymbolizedReplacesOp | _tools/gen_builtin.go:136-139 | Wherever a word-bounded `Op: <n>` with `n` in range stands, it becomes `Op: <symbol(n)>`. The text before it is symbolised on its own, and the text after it is rewritten after a word character. |
| Symbolize.SymbolizedKeepsOtherOp | _tools/gen_builtin.go:136-139 | A word-bounded `Op: <n>` with `n` outside the range is kept verbatim wherever it stands. |
| Symbolize.RewriteCopiesPrefix | _tools/gen_builtin.go:136-139 | Text containing no `O` is copied unchanged, including numerals that do not follow `Op: `. |
| Symbolize.SymbolizedUnchanged | _tools/gen_builtin.go:136-139 | A text with no word-bounded `Op: <n>` of the range is left as it is. |
| Symbolize.SymbolizedIdempotent | _tools/gen_builtin.go:136-139 | Symbolising an already symbolised text changes nothing. |
| Symbolize.OccursIff | _tools/gen_builtin.go:137 | The left-to-right scan finds an occurrence exactly when some operator in range matches, with a word boundary, at some position. |
| Layout.PrintCompositeLit | _tools/gen_builtin.go:122-145 | The output is the type's rendering, `{`, then for each entry `"\n\t\t"` + its symbolised rendering + `","`, then `"\n\t}\n"`; otherwise it is the first render error. |
| Layout.RenderEntriesAppend | _tools/gen_builtin.go:128-142 | The entries of `a + b` are those of `a` followed by those of `b`, with no reordering. An error in `a` wins over one in `b`. |
| Layout.RenderEntriesOk | _tools/gen_builtin.go:128-134 | The entry lines are produced exactly when every entry renders. |
| Layout.RenderEntriesStopsAt | _tools/gen_builtin.go:128-134 | If the first i entries render and entry i fails, the result is entry i's error. |
| Layout.CompositeLitErrors | _tools/gen_builtin.go:122-134 | The literal is written exactly when its type and every entry render. Otherwise the error is the type's, or else the first failing entry's. |
| Generator.ParseDefinitions | _tools/gen_builtin.go:36-43 | The parse loop over the definitions, visited in the given enumeration order, computes `ParseAll`. |
| Generator.ParseAllSpec | _tools/gen_builtin.go:36-43 | Parsing succeeds exactly when every definition parses. The map then has exactly the visited names, each mapped to its parsed query. |
| Generator.ParseAllFirstError | _tools/gen_builtin.go:37-41 | The first definition in visiting order that fails to parse decides the error. |
| Generator.ParseAllStopsAt | _tools/gen_builtin.go:37-41 | Once a prefix of the visited names fails to parse, the whole loop returns that error. |
| Generator.ParseAllOrderIndependent | _tools/gen_builtin.go:36-43 | When every definition parses, the parsed map does not depend on the map iteration order. |
| Generator.Run | _tools/gen_builtin.go:35-63 | `run` returns `Generate`: parse, build, check for a call, the binding text, `"\n\tbuiltinFuncs = "`, then the table. The first failing step's error is returned and the buffer is discarded. |
| Generator.GenerateOk | _tools/gen_builtin.go:35-63 | A file is produced exactly when all of these succeed: every definition parses, the builder returns a call of the expected shape, the binding statement renders, and the table's type and every entry render. |
| Generator.GenerateErrors | _tools/gen_builtin.go:37-63 | Errors are reported in the order of the source: a parse error, then a builder error, then an error naming a builder result that is not a call, then an error naming a call whose callee is not a function literal, then the binding renderer's error, then the shape error, then the table's error. |
| Generator.GenerateLayout | _tools/gen_builtin.go:52-63 | A generated file is exactly: the header, `"\n\t"`, the rendering of the binding statement built from the call, `"\n\tbuiltinFuncs = "`, the rendering of the returned literal's type, `{`, the symbolised entry lines of its elements in order, `"\n\t}\n"`, and the closing `}` of `init`. |
| Generator.GenerateOrderIndependent | _tools/gen_builtin.go:37-44 | When every definition parses, the generated file does not depend on the order in which line 37 visits the definitions. |

## Left out

- `main`, flag parsing, `os.Exit`, `os.Create` with its deferred `Close`, and the final `fmt.Fprintf` to the file or to standard output (lines 25-33 and 64-74). This is I/O; the model returns the text `fmt.Sprintf(fileFormat, buf)` instead of writing it.
- `gojq.Parse`, `astgen.Build` and `go/printer.Fprint` are parameters of the model (`parse`, `build`, `render`). Their behaviour is not modelled beyond "returns a value or an error".
- The `%#v` spelling of an operator is the parameter `OpTable.symbol`, and the values of `OpAdd` and `OpAlt` are `OpTable.lo` and `OpTable.hi`. The operator enumeration in gojq's `operator.go` is not part of this model.
- The `Error()` text of `unexpectedAstError` (lines 149-151) is not modelled. The error carries the offending node instead.
- Go's map iteration order is unspecified, so the order of the parse loop is the parameter `order`. It is any enumeration of the definition names. The model makes order claims only when every definition parses. If several definitions fail, which error is reported depends on the order.
- The unchecked type assertion `f.Fun.(*ast.ParenExpr)` (lines 78 and 101) and the unchecked `f.Args[i]` (line 88) panic in Go. They are preconditions (`CallWellFormed`, and `BuildWellFormed` for the call built from the parsed definitions), not modelled errors. Surplus arguments are silently ignored, as in the code. The code does not check that the argument and parameter counts are equal.
- Symbolize.SymbolizeOps: the equality with the one-pass rewrite is proved only for symbols that are Go identifiers other than `Op` (`ValidSymbol`). With the symbol `Op`, the pass for operator 3 would turn `Op: 3: 5` into `Op: Op: 5`, which the pass for 5 matches again. The `%#v` names of gojq's operators are such identifiers, and for them the `$` expansion in `ReplaceAllString`'s replacement text never applies.
- Generator.GenerateOrderIndependent: only the visiting order of line 37 varies. `astgen.Build` is a function of the map's contents in the model, so it is assumed to return the same expression for maps with equal contents, whatever its own walk over the map does.
- Symbolize.SymbolizeOps: an empty operator range (`OpAdd > OpAlt`) is accepted and runs no pass; nothing else about the range is assumed.
- Text written to a writer before an error is not kept. `run` returns the error and never emits its buffer, so those writes are not observable.
- The general regular-expression engine is not modelled, only the fixed pattern `\bOp: <decimal>\b`.
