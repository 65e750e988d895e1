/** The driver `run`: parse every builtin definition, build the Go
    expression that reconstructs the parsed queries, check its shape, and
    assemble the generated file from the binding statement and the builtin
    table.

    The collaborators are parameters: `parse` is the query parser, `build`
    the structure builder, `render` the Go pretty-printer, and the operator
    table supplies the operator range and symbols. Go's map iteration order
    is unspecified, so the order in which the definitions are visited is the
    parameter `order`. */
module Generator {
  import opened Ast
  import opened Shape
  import opened Bindings
  import opened Symbolize
  import opened Layout

  /** The file text around the generated body (`fileFormat`). */
  const Header: string := "// Code generated by _tools/gen_builtin.go; DO NOT EDIT.\n\npackage gojq\n\nfunc init() {"
  const Footer: string := "}\n"

  /** `fmt.Sprintf(fileFormat, body)`. */
  function FileText(body: string): (text: string) {
    Header + body + Footer
  }

  /** The separator written between the binding and the builtin table. */
  const TableIntro: string := "\n\tbuiltinFuncs = "

  /** `order` visits every definition name exactly once, as a `range` over
      the map does. */
  predicate Enumerates(order: seq<string>, defs: map<string, string>) {
    (forall k :: 0 <= k < |order| ==> order[k] in defs)
    && (forall n :: n in defs ==> n in order)
    && (forall j, k :: 0 <= j < k < |order| ==> order[j] != order[k])
  }

  /** The parsed queries keyed by name, visiting the names in `order`; the
      first definition that fails to parse decides the error. */
  function ParseAll<Q(!new)>(defs: map<string, string>, order: seq<string>, parse: string -> Result<Q>): (r: Result<map<string, Q>>)
    requires forall k :: 0 <= k < |order| ==> order[k] in defs
    decreases |order|
  {
    if order == [] then Ok(map[])
    else
      var qs :- ParseAll(defs, order[..|order| - 1], parse);
      var n := order[|order| - 1];
      var q :- parse(defs[n]);
      Ok(qs[n := q])
  }

  /** Lines 36-43: the loop that parses each definition into the map `qs`. */
  method ParseDefinitions<Q(!new)>(defs: map<string, string>, order: seq<string>, parse: string -> Result<Q>)
    returns (r: Result<map<string, Q>>)
    requires Enumerates(order, defs)
    ensures r == ParseAll(defs, order, parse)
  {
    var qs: map<string, Q> := map[];
    for i := 0 to |order|
      invariant ParseAll(defs, order[..i], parse) == Ok(qs)
    {
      var n := order[i];
      var q := parse(defs[n]);
      assert order[..i + 1][..i] == order[..i];
      if q.Err? {
        ParseAllStopsAt(defs, order, i + 1, parse);
        return Err(q.error);
      }
      qs := qs[n := q.value];
    }
    assert order[..|order|] == order;
    r := Ok(qs);
  }

  /** Once a prefix of the names fails to parse, the whole loop fails with
      the same error. */
  lemma {:induction false} ParseAllStopsAt<Q(!new)>(defs: map<string, string>, order: seq<string>, i: nat, parse: string -> Result<Q>)
    requires i <= |order| && forall k :: 0 <= k < |order| ==> order[k] in defs
    requires ParseAll(defs, order[..i], parse).Err?
    ensures ParseAll(defs, order, parse) == ParseAll(defs, order[..i], parse)
    decreases |order|
  {
    if i == |order| {
      assert order[..i] == order;
    } else {
      var init := order[..|order| - 1];
      assert init[..i] == order[..i];
      ParseAllStopsAt(defs, init, i, parse);
    }
  }

  /** The loop succeeds exactly when every visited definition parses; it
      then maps exactly the visited names, each to its parsed query. */
  lemma {:induction false} ParseAllSpec<Q(!new)>(defs: map<string, string>, order: seq<string>, parse: string -> Result<Q>)
    requires forall k :: 0 <= k < |order| ==> order[k] in defs
    ensures ParseAll(defs, order, parse).Ok? <==> forall k :: 0 <= k < |order| ==> parse(defs[order[k]]).Ok?
    ensures ParseAll(defs, order, parse).Ok? ==>
              var qs := ParseAll(defs, order, parse).value;
              (forall n :: n in qs <==> n in order)
              && (forall n :: n in qs ==> parse(defs[n]) == Ok(qs[n]))
    decreases |order|
  {
    if order != [] {
      var init := order[..|order| - 1];
      ParseAllSpec(defs, init, parse);
      assert forall k :: 0 <= k < |init| ==> init[k] == order[k];
      assert order == init + [order[|order| - 1]];
    }
  }

  /** The first definition that fails to parse decides the error. */
  lemma ParseAllFirstError<Q(!new)>(defs: map<string, string>, order: seq<string>, i: nat, parse: string -> Result<Q>)
    requires forall k :: 0 <= k < |order| ==> order[k] in defs
    requires i < |order| && parse(defs[order[i]]).Err?
    requires forall k :: 0 <= k < i ==> parse(defs[order[k]]).Ok?
    ensures ParseAll(defs, order, parse) == Err(parse(defs[order[i]]).error)
  {
    var pre := order[..i];
    ParseAllSpec(defs, pre, parse);
    assert order[..i + 1][..i] == pre;
    ParseAllStopsAt(defs, order, i + 1, parse);
  }

  /** When every definition parses, the parsed map does not depend on the
      order in which the definitions were visited. */
  lemma ParseAllOrderIndependent<Q(!new)>(defs: map<string, string>, o1: seq<string>, o2: seq<string>, parse: string -> Result<Q>)
    requires Enumerates(o1, defs) && Enumerates(o2, defs)
    requires ParseAll(defs, o1, parse).Ok?
    ensures ParseAll(defs, o2, parse) == ParseAll(defs, o1, parse)
  {
    ParseAllSpec(defs, o1, parse);
    ParseAllSpec(defs, o2, parse);
    var q1 := ParseAll(defs, o1, parse).value;
    forall k | 0 <= k < |o2|
      ensures parse(defs[o2[k]]).Ok?
    {
      assert o2[k] in defs;
      assert o2[k] in q1;
    }
    assert ParseAll(defs, o2, parse).Ok?;
    var q2 := ParseAll(defs, o2, parse).value;
    forall n
      ensures n in q1 <==> n in q2
    {
      if n in q1 {
        assert n in defs;
      }
      if n in q2 {
        assert n in defs;
      }
    }
    assert q1.Keys == q2.Keys;
    assert forall n :: n in q1 ==> q1[n] == q2[n];
    assert q1 == q2;
  }

  /** The builder does not hand back, for the parsed definitions, a call
      that makes the generator panic: Go's unchecked assertion on the callee
      and its unchecked argument indexing are preconditions of the model. */
  predicate BuildWellFormed<Q(!new)>(defs: map<string, string>, order: seq<string>, parse: string -> Result<Q>,
                                     build: map<string, Q> -> Result<Node>)
    requires forall k :: 0 <= k < |order| ==> order[k] in defs
  {
    var p := ParseAll(defs, order, parse);
    p.Ok? && build(p.value).Ok? && build(p.value).value.CallExpr? ==> CallWellFormed(build(p.value).value)
  }

  /** The generated file, or the error `run` returns. */
  function Generate<Q(!new)>(defs: map<string, string>, order: seq<string>, parse: string -> Result<Q>,
                       build: map<string, Q> -> Result<Node>, render: Node -> Result<string>, ops: OpTable): (r: Result<string>)
    requires forall k :: 0 <= k < |order| ==> order[k] in defs
    requires BuildWellFormed(defs, order, parse, build)
  {
    var qs :- ParseAll(defs, order, parse);
    var t :- build(qs);
    if !t.CallExpr? then Err(UnexpectedAst(t))
    else
      var bind :- BindingText(t, render);
      var m :- GetReturnStmtCompositeLit(t);
      var table :- CompositeLitText(m, render, ops);
      Ok(FileText(bind + TableIntro + table))
  }

  /** Lines 35-63 and 73: `run`, with the output file modelled as the text
      written to it. */
  method Run<Q(!new)>(defs: map<string, string>, order: seq<string>, parse: string -> Result<Q>,
                build: map<string, Q> -> Result<Node>, render: Node -> Result<string>, ops: OpTable)
    returns (r: Result<string>)
    requires Enumerates(order, defs) && BuildWellFormed(defs, order, parse, build) && ops.Valid()
    ensures r == Generate(defs, order, parse, build, render, ops)
  {
    var qs :- ParseDefinitions(defs, order, parse);
    var t :- build(qs);
    if !t.CallExpr? {
      return Err(UnexpectedAst(t));
    }
    var buf := "";
    var bind :- PrintAssignStmtsFromFuncArgs(t, render);
    buf := buf + bind;
    assert buf == bind;
    buf := buf + TableIntro;
    var m :- GetReturnStmtCompositeLit(t);
    var table :- PrintCompositeLit(m, render, ops);
    buf := buf + table;
    r := Ok(FileText(buf));
  }

  /** The builtin definitions are turned into a file exactly when every
      definition parses, the builder succeeds with a call of the expected
      shape, and the binding statement, the table's type and every table
      entry render. */
  lemma GenerateOk<Q(!new)>(defs: map<string, string>, order: seq<string>, parse: string -> Result<Q>,
                      build: map<string, Q> -> Result<Node>, render: Node -> Result<string>, ops: OpTable)
    requires forall k :: 0 <= k < |order| ==> order[k] in defs
    requires BuildWellFormed(defs, order, parse, build)
    ensures Generate(defs, order, parse, build, render, ops).Ok? <==>
              ParseAll(defs, order, parse).Ok?
              && var t := build(ParseAll(defs, order, parse).value);
              t.Ok? && t.value.CallExpr? && HasExpectedShape(t.value)
              && render(BindingOf(t.value)).Ok?
              && var m := t.value.fun.x.body[0].results[0];
              render(m.typ).Ok?
              && forall k :: 0 <= k < |m.elts| ==> render(m.elts[k]).Ok?
  {
    var p := ParseAll(defs, order, parse);
    if p.Ok? {
      var t := build(p.value);
      if t.Ok? && t.value.CallExpr? && HasExpectedShape(t.value) {
        var m := t.value.fun.x.body[0].results[0];
        CompositeLitErrors(m, render, ops, 0);
      }
    }
  }

  /** The first failing step decides the error: a parse error, then a
      builder error, then a builder result that is not a call. */
  lemma GenerateErrors<Q(!new)>(defs: map<string, string>, order: seq<string>, parse: string -> Result<Q>,
                          build: map<string, Q> -> Result<Node>, render: Node -> Result<string>, ops: OpTable)
    requires forall k :: 0 <= k < |order| ==> order[k] in defs
    requires BuildWellFormed(defs, order, parse, build)
    ensures var r := Generate(defs, order, parse, build, render, ops);
            var p := ParseAll(defs, order, parse);
            (p.Err? ==> r == Err(p.error))
            && (p.Ok? && build(p.value).Err? ==> r == Err(build(p.value).error))
            && (p.Ok? && build(p.value).Ok? && !build(p.value).value.CallExpr? ==>
                  r == Err(UnexpectedAst(build(p.value).value)))
            && (p.Ok? && build(p.value).Ok? && build(p.value).value.CallExpr?
                && !build(p.value).value.fun.x.FuncLit? ==>
                  r == Err(UnexpectedAst(build(p.value).value)))
            && (p.Ok? && build(p.value).Ok? && build(p.value).value.CallExpr? ==>
                  var t := build(p.value).value;
                  (t.fun.x.FuncLit? && render(BindingOf(t)).Err? ==>
                     r == Err(render(BindingOf(t)).error))
                  && (t.fun.x.FuncLit? && render(BindingOf(t)).Ok? && GetReturnStmtCompositeLit(t).Err? ==>
                        r == Err(GetReturnStmtCompositeLit(t).error))
                  && (HasExpectedShape(t) && render(BindingOf(t)).Ok?
                      && CompositeLitText(GetReturnStmtCompositeLit(t).value, render, ops).Err? ==>
                        r == Err(CompositeLitText(GetReturnStmtCompositeLit(t).value, render, ops).error)))
  {
  }

  /** A generated file is the fixed header, the rendered binding statement
      on its own line, the `builtinFuncs` assignment of the rendered type and
      the symbolised entry lines, and the closing brace of `init`. */
  lemma GenerateLayout<Q(!new)>(defs: map<string, string>, order: seq<string>, parse: string -> Result<Q>,
                          build: map<string, Q> -> Result<Node>, render: Node -> Result<string>, ops: OpTable)
    requires forall k :: 0 <= k < |order| ==> order[k] in defs
    requires BuildWellFormed(defs, order, parse, build)
    requires Generate(defs, order, parse, build, render, ops).Ok?
    ensures var t := build(ParseAll(defs, order, parse).value).value;
            var m := t.fun.x.body[0].results[0];
            Generate(defs, order, parse, build, render, ops).value
            == Header + "\n\t" + render(BindingOf(t)).value + TableIntro + render(m.typ).value + "{"
               + RenderEntries(m.elts, render, ops).value + "\n\t}\n" + Footer
  {
    var t := build(ParseAll(defs, order, parse).value).value;
    var stmt := render(BindingOf(t)).value;
    var m := GetReturnStmtCompositeLit(t).value;
    var ty := render(m.typ).value;
    var entries := RenderEntries(m.elts, render, ops).value;
    var bind, table := "\n\t" + stmt, ty + "{" + entries + "\n\t}\n";
    var q := Header + "\n\t" + stmt + TableIntro;
    Assoc(Header, bind + TableIntro, table);
    Assoc(Header, bind, TableIntro);
    Assoc(Header, "\n\t", stmt);
    Assoc(q, (ty + "{") + entries, "\n\t}\n");
    Assoc(q, ty + "{", entries);
    Assoc(q, ty, "{");
  }

  /** When every definition parses, the generated file, or the error that
      follows parsing, does not depend on the order in which line 37 visits
      the definitions; the builder is a function of the map's contents. */
  lemma GenerateOrderIndependent<Q(!new)>(defs: map<string, string>, o1: seq<string>, o2: seq<string>,
                                    parse: string -> Result<Q>, build: map<string, Q> -> Result<Node>,
                                    render: Node -> Result<string>, ops: OpTable)
    requires Enumerates(o1, defs) && Enumerates(o2, defs)
    requires BuildWellFormed(defs, o1, parse, build)
    requires ParseAll(defs, o1, parse).Ok?
    ensures BuildWellFormed(defs, o2, parse, build)
    ensures Generate(defs, o2, parse, build, render, ops) == Generate(defs, o1, parse, build, render, ops)
  {
    ParseAllOrderIndependent(defs, o1, o2, parse);
  }
}
