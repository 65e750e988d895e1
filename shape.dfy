/** The shape check `getReturnStmtCompositeLit`: the structure builder's
    result must be `(func(params) T { return T{...} })(args...)`. */
module Shape {
  import opened Ast

  /** The expected shape, stated as one conjunction: a parenthesised function
      literal whose body is a single `return` of a single composite literal. */
  predicate HasExpectedShape(f: Node)
    requires f.CallExpr? && f.fun.ParenExpr?
  {
    var fn := f.fun.x;
    fn.FuncLit? && |fn.body| == 1 && fn.body[0].ReturnStmt?
    && |fn.body[0].results| == 1 && fn.body[0].results[0].CompositeLit?
  }

  /** The composite literal returned by the synthetic function, or an
      `UnexpectedAst` error naming the first node that does not fit. A callee
      that is not parenthesised makes Go's unchecked type assertion panic, so
      it is excluded by the precondition instead of reported. */
  function GetReturnStmtCompositeLit(f: Node): (r: Result<Node>)
    requires f.CallExpr? && f.fun.ParenExpr?
    ensures r.Ok? <==> HasExpectedShape(f)
    ensures r.Ok? ==> r.value.CompositeLit? && r.value == f.fun.x.body[0].results[0]
    ensures r.Err? ==> r.error.UnexpectedAst?
    ensures !f.fun.x.FuncLit? ==> r == Err(UnexpectedAst(f))
    ensures f.fun.x.FuncLit? && |f.fun.x.body| != 1 ==>
              r == Err(UnexpectedAst(BlockStmt(f.fun.x.body)))
    ensures f.fun.x.FuncLit? && |f.fun.x.body| == 1 && !f.fun.x.body[0].ReturnStmt? ==>
              r == Err(UnexpectedAst(f.fun.x.body[0]))
    ensures f.fun.x.FuncLit? && |f.fun.x.body| == 1 && f.fun.x.body[0].ReturnStmt?
            && |f.fun.x.body[0].results| != 1 ==>
              r == Err(UnexpectedAst(f.fun.x.body[0]))
    ensures f.fun.x.FuncLit? && |f.fun.x.body| == 1 && f.fun.x.body[0].ReturnStmt?
            && |f.fun.x.body[0].results| == 1 && !f.fun.x.body[0].results[0].CompositeLit? ==>
              r == Err(UnexpectedAst(f.fun.x.body[0].results[0]))
  {
    var fn := f.fun.x;
    if !fn.FuncLit? then Err(UnexpectedAst(f))
    else if |fn.body| != 1 then Err(UnexpectedAst(BlockStmt(fn.body)))
    else
      var ret := fn.body[0];
      if !ret.ReturnStmt? then Err(UnexpectedAst(ret))
      else if |ret.results| != 1 then Err(UnexpectedAst(ret))
      else
        var m := ret.results[0];
        if !m.CompositeLit? then Err(UnexpectedAst(m))
        else Ok(m)
  }
}
