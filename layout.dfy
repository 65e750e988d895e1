/** The layout `printCompositeLit` gives the builtin table: the literal's
    type, an opening brace, one line per map entry (rendered by the
    pretty-printer, then symbolised) and a closing brace.

    The writer is modelled as the text written to it. When a render fails the
    generator returns the error and throws the whole buffer away, so the
    characters written before the failure never reach the output and the
    model does not keep them. */
module Layout {
  import opened Ast
  import opened Symbolize

  /** The line written for one rendered map entry. */
  function EntryText(text: string, ops: OpTable): (line: string) {
    "\n\t\t" + Symbolized(text, ops) + ","
  }

  /** The lines of the entries `es`, in order; the first entry whose render
      fails decides the error. */
  function RenderEntries(es: seq<Node>, render: Node -> Result<string>, ops: OpTable): (r: Result<string>)
    decreases |es|
  {
    if es == [] then Ok([])
    else
      var init :- RenderEntries(es[..|es| - 1], render, ops);
      var s :- render(es[|es| - 1]);
      Ok(init + EntryText(s, ops))
  }

  /** The text of the whole composite literal. */
  function CompositeLitText(t: Node, render: Node -> Result<string>, ops: OpTable): (r: Result<string>)
    requires t.CompositeLit?
  {
    var ty :- render(t.typ);
    var body :- RenderEntries(t.elts, render, ops);
    Ok(ty + "{" + body + "\n\t}\n")
  }

  /** Lines 122-145, with the op loop of lines 136-139 delegated to
      `SymbolizeOps`. */
  method PrintCompositeLit(t: Node, render: Node -> Result<string>, ops: OpTable) returns (r: Result<string>)
    requires t.CompositeLit? && ops.Valid()
    ensures r == CompositeLitText(t, render, ops)
  {
    var ty := render(t.typ);
    if ty.Err? {
      return Err(ty.error);
    }
    var out := ty.value + "{";
    for i := 0 to |t.elts|
      invariant RenderEntries(t.elts[..i], render, ops).Ok?
      invariant out == ty.value + "{" + RenderEntries(t.elts[..i], render, ops).value
    {
      var kv := render(t.elts[i]);
      if kv.Err? {
        RenderEntriesStopsAt(t.elts, i, render, ops);
        return Err(kv.error);
      }
      var str := SymbolizeOps(kv.value, ops);
      RenderEntriesStep(t.elts, i, render, ops);
      out := out + ("\n\t\t" + str + ",");
    }
    assert t.elts[..|t.elts|] == t.elts;
    r := Ok(out + "\n\t}\n");
  }

  /** The entries up to `i + 1` are those up to `i` followed by entry `i`. */
  lemma RenderEntriesStep(es: seq<Node>, i: nat, render: Node -> Result<string>, ops: OpTable)
    requires i < |es| && RenderEntries(es[..i], render, ops).Ok? && render(es[i]).Ok?
    ensures RenderEntries(es[..i + 1], render, ops)
            == Ok(RenderEntries(es[..i], render, ops).value + EntryText(render(es[i]).value, ops))
  {
    assert es[..i + 1][..i] == es[..i];
  }

  /** Rendering stops at the first entry whose render fails, with its error. */
  lemma RenderEntriesStopsAt(es: seq<Node>, i: nat, render: Node -> Result<string>, ops: OpTable)
    requires i < |es| && RenderEntries(es[..i], render, ops).Ok? && render(es[i]).Err?
    ensures RenderEntries(es, render, ops) == Err(render(es[i]).error)
  {
    assert es[..i + 1][..i] == es[..i];
    RenderEntriesAppend(es[..i + 1], es[i + 1..], render, ops);
    assert es[..i + 1] + es[i + 1..] == es;
  }

  /** Rendering the entries of `a + b` renders those of `a`, then those of
      `b`, and concatenates the lines in that order; an error in `a` wins
      over one in `b`. */
  lemma {:induction false} RenderEntriesAppend(a: seq<Node>, b: seq<Node>, render: Node -> Result<string>, ops: OpTable)
    ensures RenderEntries(a + b, render, ops)
            == (match RenderEntries(a, render, ops)
                case Err(e) => Err(e)
                case Ok(x) =>
                  match RenderEntries(b, render, ops)
                  case Err(e) => Err(e)
                  case Ok(y) => Ok(x + y))
    decreases |b|
  {
    if b == [] {
      assert a + b == a;
      var ra := RenderEntries(a, render, ops);
      if ra.Ok? {
        assert ra.value + [] == ra.value;
      }
    } else {
      var b' := b[..|b| - 1];
      assert (a + b)[..|a + b| - 1] == a + b';
      assert (a + b)[|a + b| - 1] == b[|b| - 1];
      RenderEntriesAppend(a, b', render, ops);
      var ra, rb' := RenderEntries(a, render, ops), RenderEntries(b', render, ops);
      if ra.Ok? && rb'.Ok? && render(b[|b| - 1]).Ok? {
        var e := EntryText(render(b[|b| - 1]).value, ops);
        assert (ra.value + rb'.value) + e == ra.value + (rb'.value + e);
      }
    }
  }

  /** The entries render exactly when every entry renders. */
  lemma {:induction false} RenderEntriesOk(es: seq<Node>, render: Node -> Result<string>, ops: OpTable)
    ensures RenderEntries(es, render, ops).Ok? <==> forall k :: 0 <= k < |es| ==> render(es[k]).Ok?
    decreases |es|
  {
    if es != [] {
      var init := es[..|es| - 1];
      RenderEntriesOk(init, render, ops);
      assert forall k :: 0 <= k < |init| ==> init[k] == es[k];
    }
  }

  /** The literal is written exactly when its type and every entry render;
      otherwise the error is the type's, or else the first failing entry's. */
  lemma CompositeLitErrors(t: Node, render: Node -> Result<string>, ops: OpTable, i: nat)
    requires t.CompositeLit?
    ensures CompositeLitText(t, render, ops).Ok? <==>
              render(t.typ).Ok? && forall k :: 0 <= k < |t.elts| ==> render(t.elts[k]).Ok?
    ensures render(t.typ).Err? ==> CompositeLitText(t, render, ops) == Err(render(t.typ).error)
    ensures render(t.typ).Ok? && i < |t.elts| && render(t.elts[i]).Err?
            && (forall k :: 0 <= k < i ==> render(t.elts[k]).Ok?) ==>
              CompositeLitText(t, render, ops) == Err(render(t.elts[i]).error)
  {
    RenderEntriesOk(t.elts, render, ops);
    if i < |t.elts| && (forall k :: 0 <= k < i ==> render(t.elts[k]).Ok?) && render(t.elts[i]).Err? {
      RenderEntriesOk(t.elts[..i], render, ops);
      RenderEntriesStopsAt(t.elts, i, render, ops);
    }
  }
}
