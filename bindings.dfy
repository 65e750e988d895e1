/** The binding extractor `printAssignStmtsFromFuncArgs`: every parameter of
    the synthetic function literal is bound to the call argument in the same
    position by one `p1, p2, ... := a1, a2, ...` statement. */
module Bindings {
  import opened Ast

  /** The parameter names in declaration order, group after group. */
  function FlattenNames(params: seq<Field>): (names: seq<string>)
    decreases |params|
  {
    if params == [] then []
    else FlattenNames(params[..|params| - 1]) + params[|params| - 1].names
  }

  /** The names as the identifier expressions that form the left-hand side. */
  function Idents(names: seq<string>): (r: seq<Node>)
  {
    seq(|names|, k requires 0 <= k < |names| => Ident(names[k]))
  }

  /** Flattening distributes over concatenation of parameter lists: the
      order of the groups is kept. */
  lemma {:induction false} FlattenAppend(a: seq<Field>, b: seq<Field>)
    ensures FlattenNames(a + b) == FlattenNames(a) + FlattenNames(b)
    decreases |b|
  {
    if b == [] {
      assert a + b == a;
    } else {
      var b' := b[..|b| - 1];
      assert (a + b)[..|a + b| - 1] == a + b';
      FlattenAppend(a, b');
    }
  }

  /** A name is flattened exactly when some group declares it. */
  lemma {:induction false} FlattenMembers(params: seq<Field>, n: string)
    ensures n in FlattenNames(params) <==> exists g :: 0 <= g < |params| && n in params[g].names
    decreases |params|
  {
    if params != [] {
      var init := params[..|params| - 1];
      FlattenMembers(init, n);
      if n in FlattenNames(params) && n !in params[|params| - 1].names {
        var g :| 0 <= g < |init| && n in init[g].names;
        assert params[g] == init[g];
      }
      if exists g :: 0 <= g < |params| && n in params[g].names {
        var g :| 0 <= g < |params| && n in params[g].names;
        if g < |params| - 1 {
          assert init[g] == params[g];
        }
      }
    }
  }

  /** The statement built at lines 82-92: the nested loops append each name
      of each group to `lhs` and the argument at the running counter `i` to
      `rhs`. Go indexes `Args` without a check, so there must be at least as
      many arguments as names; surplus arguments are never looked at. */
  method BindingStatement(params: seq<Field>, args: seq<Node>) returns (stmt: Node)
    requires |FlattenNames(params)| <= |args|
    ensures stmt.AssignStmt? && stmt.tok == Define
    ensures stmt.lhs == Idents(FlattenNames(params))
    ensures |stmt.rhs| == |stmt.lhs| == |FlattenNames(params)|
    ensures forall k :: 0 <= k < |stmt.rhs| ==> stmt.rhs[k] == args[k]
  {
    var lhs: seq<Node> := [];
    var rhs: seq<Node> := [];
    var i := 0;
    for p := 0 to |params|
      invariant lhs == Idents(FlattenNames(params[..p]))
      invariant i == |lhs| == |rhs| <= |FlattenNames(params)|
      invariant rhs == args[..i]
    {
      var names := params[p].names;
      ghost var done := FlattenNames(params[..p]);
      FlattenStep(params, p);
      for j := 0 to |names|
        invariant lhs == Idents(done + names[..j])
        invariant i == |lhs| == |rhs| <= |FlattenNames(params)|
        invariant rhs == args[..i]
      {
        IdentsSnoc(done + names[..j], names[j]);
        assert (done + names[..j]) + [names[j]] == done + names[..j + 1];
        lhs := lhs + [Ident(names[j])];
        rhs := rhs + [args[i]];
        i := i + 1;
      }
      assert names[..|names|] == names;
    }
    assert params[..|params|] == params;
    stmt := AssignStmt(lhs, Define, rhs);
  }

  /** Adding the next group to the groups already visited adds its names,
      and all of them together are no more than the names of all groups. */
  lemma FlattenStep(params: seq<Field>, p: nat)
    requires p < |params|
    ensures FlattenNames(params[..p + 1]) == FlattenNames(params[..p]) + params[p].names
    ensures |FlattenNames(params[..p + 1])| <= |FlattenNames(params)|
  {
    assert params[..p + 1][..p] == params[..p];
    FlattenAppend(params[..p + 1], params[p + 1..]);
    assert params[..p + 1] + params[p + 1..] == params;
  }

  /** One more name adds one more identifier. */
  lemma IdentsSnoc(names: seq<string>, x: string)
    ensures Idents(names + [x]) == Idents(names) + [Ident(x)]
  {
  }

  /** Whether the builder's call can be handed to the extractor without a Go
      panic: the callee is parenthesised, and when it wraps a function
      literal there are enough arguments for its parameters. */
  predicate CallWellFormed(f: Node)
  {
    f.CallExpr? && f.fun.ParenExpr?
    && (f.fun.x.FuncLit? ==> |FlattenNames(f.fun.x.params)| <= |f.args|)
  }

  /** The binding statement of a well-formed call whose callee is a function
      literal. */
  function BindingOf(f: Node): (stmt: Node)
    requires CallWellFormed(f) && f.fun.x.FuncLit?
  {
    var names := FlattenNames(f.fun.x.params);
    AssignStmt(Idents(names), Define, f.args[..|names|])
  }

  /** The text the extractor writes: a newline and tab, then the rendered
      binding statement; nothing else. */
  function BindingText(f: Node, render: Node -> Result<string>): (r: Result<string>)
    requires CallWellFormed(f)
  {
    if !f.fun.x.FuncLit? then Err(UnexpectedAst(f))
    else
      var s :- render(BindingOf(f));
      Ok("\n\t" + s)
  }

  /** `printAssignStmtsFromFuncArgs` (lines 77-98), with the writer modelled
      as the text written to it. */
  method PrintAssignStmtsFromFuncArgs(f: Node, render: Node -> Result<string>) returns (r: Result<string>)
    requires CallWellFormed(f)
    ensures r == BindingText(f, render)
    ensures !f.fun.x.FuncLit? ==> r == Err(UnexpectedAst(f))
    ensures r.Ok? ==> exists s :: render(BindingOf(f)) == Ok(s) && r.value == "\n\t" + s
  {
    var fn := f.fun.x;
    if !fn.FuncLit? {
      return Err(UnexpectedAst(f));
    }
    var stmt := BindingStatement(fn.params, f.args);
    assert stmt == BindingOf(f);
    var s :- render(stmt);
    r := Ok("\n\t" + s);
  }
}
