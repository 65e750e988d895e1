/** The fragment of Go's `go/ast` tree that the builtin generator inspects,
    together with the generator's error kinds.

    Only the node kinds that `_tools/gen_builtin.go` asserts on are spelled
    out; every other node (identifiers of the map values, key/value pairs,
    basic literals, ...) is `Other`, which the generator only hands on to the
    pretty-printer. */
module Ast {

  /** A parameter group `a, b T` of a function literal: only its names matter. */
  datatype Field = Field(names: seq<string>)

  /** The assignment token; the generator only ever builds `:=`. */
  datatype Token = Define

  datatype Node =
    | CallExpr(fun: Node, args: seq<Node>)
    | ParenExpr(x: Node)
    | FuncLit(params: seq<Field>, body: seq<Node>)
    | BlockStmt(list: seq<Node>)
    | ReturnStmt(results: seq<Node>)
    | CompositeLit(typ: Node, elts: seq<Node>)
    | AssignStmt(lhs: seq<Node>, tok: Token, rhs: seq<Node>)
    | Ident(name: string)
    | Other(kind: string)

  /** `unexpectedAstError` names the node whose shape was not the expected
      one; `External` is an error handed back verbatim by a collaborator
      (the parser, the structure builder or the pretty-printer). */
  datatype Error = UnexpectedAst(node: Node) | External(message: string)

  /** Go's `(value, error)` pair, usable with `:-`. */
  datatype Result<+T> = Ok(value: T) | Err(error: Error) {
    predicate IsFailure() {
      Err?
    }

    function PropagateFailure<U>(): Result<U>
      requires Err?
    {
      Err(error)
    }

    function Extract(): T
      requires Ok?
    {
      value
    }
  }
}
