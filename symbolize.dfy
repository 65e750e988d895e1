/** The operator symbolisation pass of `printCompositeLit`: in the rendered
    text of every map entry, each word-bounded `Op: <decimal>` whose number
    is an operator between OpAdd and OpAlt is rewritten to
    `Op: <symbol of that operator>`.

    The source runs one regular-expression replacement `\bOp: %d\b` per
    operator, in ascending order. This module defines that replacement
    (`ReplaceAll`) and, independently, the rewrite the whole loop is meant to
    perform in one left-to-right pass (`Symbolized`), and proves the loop
    equal to the one-pass rewrite. */
module Symbolize {

  datatype Option<T> = None | Some(value: T)

  /** Go's ASCII word characters, which decide where `\b` holds. */
  predicate IsWordChar(c: char) {
    'a' <= c <= 'z' || 'A' <= c <= 'Z' || '0' <= c <= '9' || c == '_'
  }

  predicate IsDigit(c: char) {
    '0' <= c <= '9'
  }

  function DigitChar(d: nat): (c: char)
    requires d < 10
    ensures IsDigit(c)
  {
    ('0' as int + d) as char
  }

  /** `fmt.Sprintf("%d", n)` for a non-negative operator number. */
  function Decimal(n: nat): (d: string)
    ensures |d| >= 1
    ensures forall k :: 0 <= k < |d| ==> IsDigit(d[k])
    ensures n < 10 <==> |d| == 1
    decreases n
  {
    if n < 10 then [DigitChar(n)] else Decimal(n / 10) + [DigitChar(n % 10)]
  }

  /** Different numbers have different decimal spellings. */
  lemma {:induction false} DecimalInjective(n: nat, m: nat)
    requires Decimal(n) == Decimal(m)
    ensures n == m
    decreases n
  {
    if n >= 10 && m >= 10 {
      var dn, dm := Decimal(n), Decimal(m);
      assert dn[..|dn| - 1] == Decimal(n / 10);
      assert dm[..|dm| - 1] == Decimal(m / 10);
      DecimalInjective(n / 10, m / 10);
      assert DigitChar(n % 10) == dn[|dn| - 1] == DigitChar(m % 10);
    }
  }

  /** The literal text `Op: <n>` that the pattern for operator `n` matches. */
  function Pattern(n: nat): (p: string)
  {
    "Op: " + Decimal(n)
  }

  /** `Op: <n>` starts `t` and a word boundary follows it. The boundary in
      front of `O` is decided by the preceding character, which the scanning
      functions below carry along. */
  predicate MatchHere(t: string, n: nat) {
    var p := Pattern(n);
    |p| <= |t| && t[..|p|] == p && (|p| == |t| || !IsWordChar(t[|p|]))
  }

  /** Whether the character before position `j` of `s` (the start of the
      text when `j` is 0, seen as `pw`) is a word character. */
  function PrevWord(pw: bool, s: string, j: nat): (r: bool)
    requires j <= |s|
  {
    if j == 0 then pw else IsWordChar(s[j - 1])
  }

  /** `\bOp: <n>\b` matches `s` at position `i`. */
  predicate MatchAt(s: string, i: nat, n: nat)
    requires i <= |s|
  {
    !PrevWord(false, s, i) && MatchHere(s[i..], n)
  }

  /** At most one operator number matches at a given position, so the order
      in which the source tries the operators does not decide which one wins. */
  lemma MatchUnique(t: string, n: nat, m: nat)
    requires MatchHere(t, n) && MatchHere(t, m)
    ensures n == m
  {
    var p, q := Pattern(n), Pattern(m);
    assert forall i :: 4 <= i < |p| ==> t[i] == t[..|p|][i] == Decimal(n)[i - 4];
    assert forall i :: 4 <= i < |q| ==> t[i] == t[..|q|][i] == Decimal(m)[i - 4];
    assert Decimal(n) == p[4..] == t[4..|p|] == q[4..] == Decimal(m);
    DecimalInjective(n, m);
  }

  /** What a match of the pattern looks like at its start. */
  lemma MatchHereChars(t: string, n: nat)
    ensures MatchHere(t, n) ==>
              |t| >= 5 && t[0] == 'O' && t[1] == 'p' && t[2] == ':' && t[3] == ' ' && IsDigit(t[4])
  {
    var p := Pattern(n);
    assert p[4] == Decimal(n)[0];
    assert MatchHere(t, n) ==> forall i :: 0 <= i < |p| ==> t[i] == t[..|p|][i] == p[i];
  }

  // ---------------------------------------------------------------------
  // One regular-expression replacement: `regexp.ReplaceAllString`
  // ---------------------------------------------------------------------

  /** Replaces, left to right and without overlap, every match of
      `\bOp: <n>\b` in `t` by `Op: <sym>`; `pw` says whether the character
      before `t` is a word character. */
  function ReplaceFrom(pw: bool, t: string, n: nat, sym: string): (r: string)
    decreases |t|
  {
    if t == [] then []
    else if !pw && MatchHere(t, n) then "Op: " + (sym + ReplaceFrom(true, t[|Pattern(n)|..], n, sym))
    else [t[0]] + ReplaceFrom(IsWordChar(t[0]), t[1..], n, sym)
  }

  /** `regexp.MustCompile(\bOp: <n>\b).ReplaceAllString(s, "Op: " + sym)`. */
  function ReplaceAll(s: string, n: nat, sym: string): (r: string) {
    ReplaceFrom(false, s, n, sym)
  }

  /** The regular-expression scan over `s` for the pattern of operator `n`. */
  method ReplaceAllString(s: string, n: nat, sym: string) returns (r: string)
    ensures r == ReplaceAll(s, n, sym)
  {
    r := [];
    var i := 0;
    while i < |s|
      invariant 0 <= i <= |s|
      invariant r + ReplaceFrom(PrevWord(false, s, i), s[i..], n, sym) == ReplaceAll(s, n, sym)
      decreases |s| - i
    {
      if !PrevWord(false, s, i) && MatchHere(s[i..], n) {
        ReplaceStepMatch(r, s, i, n, sym);
        r := r + ("Op: " + sym);
        i := i + |Pattern(n)|;
      } else {
        ReplaceStepCopy(r, s, i, n, sym);
        r := r + [s[i]];
        i := i + 1;
      }
    }
  }

  /** A scan step that replaces a match at position `i` of `s`. */
  lemma ReplaceStepMatch(r: string, s: string, i: nat, n: nat, sym: string)
    requires i < |s| && !PrevWord(false, s, i) && MatchHere(s[i..], n)
    ensures i + |Pattern(n)| <= |s|
    ensures r + ReplaceFrom(PrevWord(false, s, i), s[i..], n, sym)
            == (r + ("Op: " + sym)) + ReplaceFrom(PrevWord(false, s, i + |Pattern(n)|), s[i + |Pattern(n)|..], n, sym)
  {
    var t, L := s[i..], |Pattern(n)|;
    assert s[i + L - 1] == t[..L][L - 1] == Pattern(n)[L - 1] == Decimal(n)[L - 5];
    assert t[L..] == s[i + L..];
  }

  /** A scan step that copies the character at position `i` of `s`. */
  lemma ReplaceStepCopy(r: string, s: string, i: nat, n: nat, sym: string)
    requires i < |s| && !(!PrevWord(false, s, i) && MatchHere(s[i..], n))
    ensures r + ReplaceFrom(PrevWord(false, s, i), s[i..], n, sym)
            == (r + [s[i]]) + ReplaceFrom(PrevWord(false, s, i + 1), s[i + 1..], n, sym)
  {
    assert s[i..][1..] == s[i + 1..];
  }

  // ---------------------------------------------------------------------
  // The symbolisation the loop over operators performs, in one pass
  // ---------------------------------------------------------------------

  /** The operator range OpAdd..OpAlt and the `%#v` spelling of each operator. */
  datatype OpTable = OpTable(lo: nat, hi: nat, symbol: nat -> string) {
    predicate Valid() {
      SymbolsValid(lo, hi, symbol)
    }
  }

  /** A symbol is a Go identifier (word characters, not starting with a
      digit) other than `Op` itself: `Op: Op` followed by `: 5` would
      create a fresh match for a later operator. */
  predicate ValidSymbol(x: string) {
    x != [] && !IsDigit(x[0]) && (forall k :: 0 <= k < |x| ==> IsWordChar(x[k])) && x != "Op"
  }

  predicate SymbolsValid(lo: nat, hi: int, sym: nat -> string) {
    forall n :: lo <= n <= hi ==> ValidSymbol(sym(n))
  }

  /** The smallest operator in `n..hi` whose pattern starts `t`. */
  function FirstOp(t: string, n: nat, hi: int): (r: Option<nat>)
    ensures r.Some? ==> n <= r.value <= hi && MatchHere(t, r.value)
    decreases hi - n
  {
    if hi < n then None
    else if MatchHere(t, n) then Some(n)
    else FirstOp(t, n + 1, hi)
  }

  /** When no operator is found, no operator of the range matches. */
  lemma {:induction false} FirstOpNone(t: string, n: nat, hi: int, m: nat)
    ensures FirstOp(t, n, hi).None? && n <= m <= hi ==> !MatchHere(t, m)
    decreases hi - n
  {
    if n < m <= hi && !MatchHere(t, n) {
      FirstOpNone(t, n + 1, hi, m);
    }
  }

  /** A matching operator in range is the one found. */
  lemma FirstOpFinds(t: string, lo: nat, hi: int, n: nat)
    requires lo <= n <= hi && MatchHere(t, n)
    ensures FirstOp(t, lo, hi) == Some(n)
  {
    var r := FirstOp(t, lo, hi);
    FirstOpNone(t, lo, hi, n);
    if r.Some? {
      MatchUnique(t, n, r.value);
    }
  }

  /** One left-to-right pass that rewrites every word-bounded `Op: <n>` with
      `lo <= n <= hi` to `Op: <sym(n)>` and copies every other character. */
  function Rewrite(pw: bool, t: string, lo: nat, hi: int, sym: nat -> string): (r: string)
    decreases |t|
  {
    if t == [] then []
    else
      var m := if pw then None else FirstOp(t, lo, hi);
      if m.Some? then "Op: " + (sym(m.value) + Rewrite(true, t[|Pattern(m.value)|..], lo, hi, sym))
      else [t[0]] + Rewrite(IsWordChar(t[0]), t[1..], lo, hi, sym)
  }

  /** The text after symbolisation with the operator table `ops`. */
  function Symbolized(s: string, ops: OpTable): (r: string) {
    Rewrite(false, s, ops.lo, ops.hi, ops.symbol)
  }

  /** The passes of the source's loop for operators `lo` to `k`, in
      ascending order, each applied to the result of the previous one. */
  function Passes(s: string, lo: nat, k: int, sym: nat -> string): (r: string)
    decreases k - lo + 1
  {
    if k < lo then s else ReplaceAll(Passes(s, lo, k - 1, sym), k, sym(k))
  }

  /** The passes for `lo..k` perform the one-pass rewrite for `lo..k`. */
  lemma {:induction false} PassesRewrite(s: string, lo: nat, k: int, sym: nat -> string)
    requires SymbolsValid(lo, k, sym)
    ensures Passes(s, lo, k, sym) == Rewrite(false, s, lo, k, sym)
    decreases k - lo + 1
  {
    if k < lo {
      RewriteEmptyRange(false, s, lo, k, sym);
    } else {
      PassesRewrite(s, lo, k - 1, sym);
      PassExtends(false, s, lo, k, sym);
    }
  }

  /** Lines 136-139: one `ReplaceAllString` per operator, OpAdd to OpAlt in
      ascending order, each applied to the result of the previous one. */
  method SymbolizeOps(s: string, ops: OpTable) returns (r: string)
    requires ops.Valid()
    ensures r == Symbolized(s, ops)
  {
    r := s;
    var op := ops.lo;
    while op <= ops.hi
      invariant ops.lo <= op
      invariant op == ops.lo || op <= ops.hi + 1
      invariant r == Passes(s, ops.lo, op - 1, ops.symbol)
    {
      assert Passes(s, ops.lo, op, ops.symbol) == ReplaceAll(r, op, ops.symbol(op));
      r := ReplaceAllString(r, op, ops.symbol(op));
      op := op + 1;
    }
    assert r == Passes(s, ops.lo, ops.hi, ops.symbol) by {
      if op == ops.lo {
        assert Passes(s, ops.lo, op - 1, ops.symbol) == s;
      } else {
        assert op - 1 == ops.hi;
      }
    }
    PassesRewrite(s, ops.lo, ops.hi, ops.symbol);
  }

  // ---------------------------------------------------------------------
  // Lemmas connecting the passes to the one-pass rewrite
  // ---------------------------------------------------------------------

  /** With no operator in range, nothing is rewritten. */
  lemma {:induction false} RewriteEmptyRange(pw: bool, t: string, lo: nat, hi: int, sym: nat -> string)
    requires hi < lo
    ensures Rewrite(pw, t, lo, hi, sym) == t
    decreases |t|
  {
    if t != [] {
      RewriteEmptyRange(IsWordChar(t[0]), t[1..], lo, hi, sym);
    }
  }

  /** Widening the range by one operator keeps every earlier find, and finds
      the new operator exactly where its pattern matches. */
  lemma {:induction false} FirstOpExtend(t: string, n: nat, k: nat)
    requires n <= k
    ensures FirstOp(t, n, k - 1).Some? ==> FirstOp(t, n, k) == FirstOp(t, n, k - 1)
    ensures FirstOp(t, n, k - 1).None? ==>
              FirstOp(t, n, k) == (if MatchHere(t, k) then Some(k) else None)
    decreases k - n
  {
    if n < k && !MatchHere(t, n) {
      FirstOpExtend(t, n + 1, k);
    }
  }

  /** A replacement `Op: <x>` never starts a match: `x` starts with a
      non-digit, and a match cannot begin inside `x` when the text after it
      starts with a non-word character. */
  lemma NoMatchAtSymbol(x: string, r: string, n: nat)
    requires ValidSymbol(x)
    requires r == [] || !IsWordChar(r[0])
    ensures !MatchHere(x + r, n)
  {
    var u := x + r;
    MatchHereChars(u, n);
    assert |x| >= 3 ==> u[2] == x[2] && IsWordChar(x[2]);
    assert |x| >= 2 ==> u[0] == x[0] && u[1] == x[1];
    assert |x| == 2 ==> x == [x[0], x[1]];
    assert |x| == 1 && |u| >= 2 ==> u[1] == r[0];
  }

  /** The scan copies a run of word characters when a word character
      precedes it. */
  lemma {:induction false} ReplaceSkipsWord(w: string, r: string, n: nat, sym: string)
    requires forall k :: 0 <= k < |w| ==> IsWordChar(w[k])
    ensures ReplaceFrom(true, w + r, n, sym) == w + ReplaceFrom(true, r, n, sym)
    decreases |w|
  {
    if w == [] {
      assert w + r == r;
    } else {
      assert (w + r)[1..] == w[1..] + r;
      ReplaceSkipsWord(w[1..], r, n, sym);
    }
  }

  /** One step of the scan where no match starts: the character is copied. */
  lemma ReplaceCopiesHead(pw: bool, c: char, v: string, n: nat, sym: string)
    requires pw || !MatchHere([c] + v, n)
    ensures ReplaceFrom(pw, [c] + v, n, sym) == [c] + ReplaceFrom(IsWordChar(c), v, n, sym)
  {
    assert ([c] + v)[1..] == v;
  }

  /** The scan copies the `Op: ` of a replacement. */
  lemma ReplaceSkipsOpPrefix(pw: bool, v: string, n: nat, sym: string)
    requires v == [] || !IsDigit(v[0])
    ensures ReplaceFrom(pw, "Op: " + v, n, sym) == "Op: " + ReplaceFrom(false, v, n, sym)
  {
    var v3 := [' '] + v;
    var v2 := [':'] + v3;
    var v1 := ['p'] + v2;
    var tail := ReplaceFrom(false, v, n, sym);
    assert ReplaceFrom(false, v3, n, sym) == [' '] + tail by {
      MatchHereChars(v3, n);
      ReplaceCopiesHead(false, ' ', v, n, sym);
    }
    assert ReplaceFrom(true, v2, n, sym) == [':'] + ([' '] + tail) by {
      ReplaceCopiesHead(true, ':', v3, n, sym);
    }
    assert ReplaceFrom(true, v1, n, sym) == ['p'] + ([':'] + ([' '] + tail)) by {
      ReplaceCopiesHead(true, 'p', v2, n, sym);
    }
    assert ReplaceFrom(pw, ['O'] + v1, n, sym) == ['O'] + (['p'] + ([':'] + ([' '] + tail))) by {
      MatchHereChars(['O'] + v1, n);
      ReplaceCopiesHead(pw, 'O', v1, n, sym);
    }
    assert "Op: " + v == ['O'] + v1;
    assert ['O'] + (['p'] + ([':'] + ([' '] + tail))) == "Op: " + tail;
  }

  /** A later pass copies the replacement an earlier pass wrote. */
  lemma ReplaceSkipsReplacement(pw: bool, x: string, r: string, n: nat, sym: string)
    requires ValidSymbol(x)
    requires r == [] || !IsWordChar(r[0])
    ensures ReplaceFrom(pw, "Op: " + (x + r), n, sym) == "Op: " + (x + ReplaceFrom(true, r, n, sym))
  {
    ReplaceSkipsOpPrefix(pw, x + r, n, sym);
    ReplaceSkipsSymbol(x, r, n, sym);
  }

  /** The scan copies the symbol of a replacement. */
  lemma ReplaceSkipsSymbol(x: string, r: string, n: nat, sym: string)
    requires ValidSymbol(x)
    requires r == [] || !IsWordChar(r[0])
    ensures ReplaceFrom(false, x + r, n, sym) == x + ReplaceFrom(true, r, n, sym)
  {
    var w, tail := x[1..], ReplaceFrom(true, r, n, sym);
    assert ReplaceFrom(false, x + r, n, sym) == [x[0]] + ReplaceFrom(true, w + r, n, sym) by {
      NoMatchAtSymbol(x, r, n);
      assert x + r == [x[0]] + (w + r);
      ReplaceCopiesHead(false, x[0], w + r, n, sym);
    }
    assert ReplaceFrom(true, w + r, n, sym) == w + tail by {
      ReplaceSkipsWord(w, r, n, sym);
    }
    assert [x[0]] + (w + tail) == x + tail;
  }

  /** Every character of a pattern after its leading `O` differs from `O`. */
  lemma PatternTailNoO(n: nat)
    ensures forall i :: 1 <= i < |Pattern(n)| ==> Pattern(n)[i] != 'O'
  {
    var p := Pattern(n);
    assert forall i :: 4 <= i < |p| ==> p[i] == Decimal(n)[i - 4];
  }

  /** No operator matches text that does not start with `O`. */
  lemma FirstOpNeedsO(t: string, lo: nat, hi: int)
    requires t == [] || t[0] != 'O'
    ensures FirstOp(t, lo, hi).None?
  {
    var m := FirstOp(t, lo, hi);
    MatchHereChars(t, if m.Some? then m.value else 0);
  }

  /** A step of the rewrite where nothing is rewritten at the head. */
  lemma RewriteStep(pw: bool, t: string, lo: nat, hi: int, sym: nat -> string)
    requires t != [] && (pw || FirstOp(t, lo, hi).None?)
    ensures Rewrite(pw, t, lo, hi, sym) == [t[0]] + Rewrite(IsWordChar(t[0]), t[1..], lo, hi, sym)
  {
  }

  /** How the rewrite starts: empty input gives empty output; otherwise the
      output starts with `O` where an operator is rewritten, and with the
      copied first character everywhere else. */
  lemma RewriteHead(pw: bool, t: string, lo: nat, hi: int, sym: nat -> string)
    ensures t == [] ==> Rewrite(pw, t, lo, hi, sym) == []
    ensures t != [] ==>
              var m := if pw then None else FirstOp(t, lo, hi);
              var out := Rewrite(pw, t, lo, hi, sym);
              out != [] &&
              (m.Some? ==> out[0] == 'O') &&
              (m.None? ==> out == [t[0]] + Rewrite(IsWordChar(t[0]), t[1..], lo, hi, sym))
  {
  }

  /** The rewrite keeps text empty or non-empty, and whether it starts with
      a word character: a rewritten operator starts with `O` in both. */
  lemma RewriteHeadWord(pw: bool, t: string, lo: nat, hi: int, sym: nat -> string)
    ensures (Rewrite(pw, t, lo, hi, sym) == []) == (t == [])
    ensures t != [] ==> IsWordChar(Rewrite(pw, t, lo, hi, sym)[0]) == IsWordChar(t[0])
  {
    RewriteHead(pw, t, lo, hi, sym);
    var m := if pw then None else FirstOp(t, lo, hi);
    MatchHereChars(t, if m.Some? then m.value else 0);
  }

  /** After a match, which ends on a digit, nothing is rewritten at the next
      character, so the rewritten rest starts with a non-word character. */
  lemma RewriteAfterMatch(t: string, L: nat, lo: nat, hi: int, sym: nat -> string)
    requires L <= |t|
    requires L == |t| || !IsWordChar(t[L])
    ensures var R := Rewrite(true, t[L..], lo, hi, sym); R == [] || !IsWordChar(R[0])
  {
    RewriteHeadWord(true, t[L..], lo, hi, sym);
  }

  /** Slicing a text and its tail. */
  lemma ConsSlices(t: string, j: nat)
    requires 0 < j <= |t|
    ensures t[1..][j - 1..] == t[j..]
    ensures t[..j] == [t[0]] + t[1..][..j - 1]
  {
  }

  /** Concatenation of texts is associative. */
  lemma Assoc(a: string, b: string, c: string)
    ensures a + (b + c) == (a + b) + c
  {
  }

  /** Text free of `O` is copied unchanged: every match starts with `O`. */
  lemma {:induction false} RewriteCopiesPrefix(pw: bool, t: string, j: nat, lo: nat, hi: int, sym: nat -> string)
    requires j <= |t|
    requires forall i :: 0 <= i < j ==> t[i] != 'O'
    ensures Rewrite(pw, t, lo, hi, sym) == t[..j] + Rewrite(PrevWord(pw, t, j), t[j..], lo, hi, sym)
    decreases j
  {
    if j > 0 {
      var t', pw' := t[1..], IsWordChar(t[0]);
      var rest := Rewrite(PrevWord(pw, t, j), t[j..], lo, hi, sym);
      FirstOpNeedsO(t, lo, hi);
      RewriteStep(pw, t, lo, hi, sym);
      ConsSlices(t, j);
      assert Rewrite(pw', t', lo, hi, sym) == t'[..j - 1] + rest by {
        assert forall i :: 0 <= i < j - 1 ==> t'[i] == t[i + 1];
        RewriteCopiesPrefix(pw', t', j - 1, lo, hi, sym);
      }
      Assoc([t[0]], t'[..j - 1], rest);
    }
  }

  /** A rewrite whose output does not start with `O` copied the head. */
  lemma RewriteOutputHead(pw: bool, t: string, lo: nat, hi: int, sym: nat -> string)
    requires Rewrite(pw, t, lo, hi, sym) != [] && Rewrite(pw, t, lo, hi, sym)[0] != 'O'
    ensures t != []
    ensures Rewrite(pw, t, lo, hi, sym) == [t[0]] + Rewrite(IsWordChar(t[0]), t[1..], lo, hi, sym)
  {
    RewriteHead(pw, t, lo, hi, sym);
  }

  /** Conversely, output free of `O` was copied from the input unchanged. */
  lemma {:induction false} RewriteOutputPrefix(pw: bool, t: string, j: nat, lo: nat, hi: int, sym: nat -> string)
    requires j <= |Rewrite(pw, t, lo, hi, sym)|
    requires forall i :: 0 <= i < j ==> Rewrite(pw, t, lo, hi, sym)[i] != 'O'
    ensures j <= |t|
    ensures Rewrite(pw, t, lo, hi, sym) == t[..j] + Rewrite(PrevWord(pw, t, j), t[j..], lo, hi, sym)
    decreases j
  {
    if j > 0 {
      var out := Rewrite(pw, t, lo, hi, sym);
      RewriteOutputHead(pw, t, lo, hi, sym);
      var t', pw' := t[1..], IsWordChar(t[0]);
      var R := Rewrite(pw', t', lo, hi, sym);
      assert j - 1 <= |t'| && R == t'[..j - 1] + Rewrite(PrevWord(pw', t', j - 1), t'[j - 1..], lo, hi, sym) by {
        assert forall i :: 0 <= i < j - 1 ==> R[i] == out[i + 1];
        RewriteOutputPrefix(pw', t', j - 1, lo, hi, sym);
      }
      ConsSlices(t, j);
      assert PrevWord(pw', t', j - 1) == PrevWord(pw, t, j);
      Assoc([t[0]], t'[..j - 1], Rewrite(PrevWord(pw, t, j), t[j..], lo, hi, sym));
    }
  }

  /** Whether a pattern matches a text depends only on the text's first
      `|Pattern(n)|` characters and on the kind of the character after them. */
  lemma MatchTransfer(p: string, x: string, y: string, n: nat)
    requires |p| == |Pattern(n)|
    requires (x == []) == (y == [])
    requires x != [] && y != [] ==> IsWordChar(x[0]) == IsWordChar(y[0])
    ensures MatchHere(p + x, n) == MatchHere(p + y, n)
  {
    assert (p + x)[..|p|] == p == (p + y)[..|p|];
    assert x != [] ==> (p + x)[|p|] == x[0];
    assert y != [] ==> (p + y)[|p|] == y[0];
  }

  /** A match seen in the output of the rewrite, on a character the rewrite
      copied, was already a match in the input. */
  lemma MatchSurvives(c: char, u: string, n: nat, lo: nat, hi: int, sym: nat -> string)
    ensures MatchHere([c] + Rewrite(IsWordChar(c), u, lo, hi, sym), n) ==> MatchHere([c] + u, n)
  {
    var pw := IsWordChar(c);
    var R := Rewrite(pw, u, lo, hi, sym);
    var L := |Pattern(n)|;
    if MatchHere([c] + R, n) {
      assert forall i :: 0 <= i < L - 1 ==> R[i] != 'O' by {
        PatternTailNoO(n);
        assert forall i :: 0 <= i < L - 1 ==> R[i] == ([c] + R)[..L][i + 1];
      }
      RewriteOutputPrefix(pw, u, L - 1, lo, hi, sym);
      var head, rest := u[..L - 1], u[L - 1..];
      var R' := Rewrite(PrevWord(pw, u, L - 1), rest, lo, hi, sym);
      RewriteHeadWord(PrevWord(pw, u, L - 1), rest, lo, hi, sym);
      Assoc([c], head, R');
      assert u == head + rest;
      Assoc([c], head, rest);
      MatchTransfer([c] + head, R', rest, n);
    }
  }

  /** `PassExtends` where an operator below `k` matches at the head. */
  lemma PassExtendsOld(pw: bool, t: string, lo: nat, k: nat, sym: nat -> string, n: nat)
    requires lo <= n < k && SymbolsValid(lo, k - 1, sym)
    requires t != [] && !pw && FirstOp(t, lo, k - 1) == Some(n)
    requires var L := |Pattern(n)|;
             ReplaceFrom(true, Rewrite(true, t[L..], lo, k - 1, sym), k, sym(k)) == Rewrite(true, t[L..], lo, k, sym)
    ensures ReplaceFrom(pw, Rewrite(pw, t, lo, k - 1, sym), k, sym(k)) == Rewrite(pw, t, lo, k, sym)
  {
    FirstOpExtend(t, lo, k);
    var L := |Pattern(n)|;
    var R1 := Rewrite(true, t[L..], lo, k - 1, sym);
    RewriteAfterMatch(t, L, lo, k - 1, sym);
    ReplaceSkipsReplacement(pw, sym(n), R1, k, sym(k));
  }

  /** `PassExtends` where operator `k` itself matches at the head. */
  lemma PassExtendsNew(pw: bool, t: string, lo: nat, k: nat, sym: nat -> string)
    requires lo <= k
    requires t != [] && !pw && FirstOp(t, lo, k - 1).None? && MatchHere(t, k)
    requires var L := |Pattern(k)|;
             ReplaceFrom(true, Rewrite(true, t[L..], lo, k - 1, sym), k, sym(k)) == Rewrite(true, t[L..], lo, k, sym)
    ensures ReplaceFrom(pw, Rewrite(pw, t, lo, k - 1, sym), k, sym(k)) == Rewrite(pw, t, lo, k, sym)
  {
    var L := |Pattern(k)|;
    var R1 := Rewrite(true, t[L..], lo, k - 1, sym);
    var out := Rewrite(pw, t, lo, k - 1, sym);
    RewriteKeepsMatch(t, k, lo, k - 1, sym);
    assert MatchHere(out, k) && out[L..] == R1 by {
      RewriteAfterMatch(t, L, lo, k - 1, sym);
      assert out[..L] == t[..L];
      assert |out| > L ==> out[L] == R1[0];
    }
    assert Rewrite(pw, t, lo, k, sym) == "Op: " + (sym(k) + Rewrite(true, t[L..], lo, k, sym)) by {
      FirstOpExtend(t, lo, k);
    }
  }

  /** Where no operator of the range matches, a match of another operator
      is copied through the rewrite untouched. */
  lemma RewriteKeepsMatch(t: string, k: nat, lo: nat, hi: int, sym: nat -> string)
    requires MatchHere(t, k) && FirstOp(t, lo, hi).None?
    ensures var L := |Pattern(k)|;
            Rewrite(false, t, lo, hi, sym) == t[..L] + Rewrite(true, t[L..], lo, hi, sym)
  {
    var L := |Pattern(k)|;
    var t', w := t[1..], IsWordChar(t[0]);
    RewriteStep(false, t, lo, hi, sym);
    assert forall i :: 0 <= i < L - 1 ==> t'[i] != 'O' by {
      PatternTailNoO(k);
      assert forall i :: 0 <= i < L - 1 ==> t'[i] == t[..L][i + 1];
    }
    RewriteCopiesPrefix(w, t', L - 1, lo, hi, sym);
    assert PrevWord(w, t', L - 1) by {
      assert t'[L - 2] == t[..L][L - 1] == Pattern(k)[L - 1] == Decimal(k)[L - 5];
    }
    ConsSlices(t, L);
    Assoc([t[0]], t'[..L - 1], Rewrite(true, t[L..], lo, hi, sym));
  }

  /** `PassExtends` where nothing matches at the head. */
  lemma PassExtendsCopy(pw: bool, t: string, lo: nat, k: nat, sym: nat -> string)
    requires lo <= k
    requires t != [] && (pw || (FirstOp(t, lo, k - 1).None? && !MatchHere(t, k)))
    requires ReplaceFrom(IsWordChar(t[0]), Rewrite(IsWordChar(t[0]), t[1..], lo, k - 1, sym), k, sym(k))
             == Rewrite(IsWordChar(t[0]), t[1..], lo, k, sym)
    ensures ReplaceFrom(pw, Rewrite(pw, t, lo, k - 1, sym), k, sym(k)) == Rewrite(pw, t, lo, k, sym)
  {
    var c, u := t[0], t[1..];
    var R1 := Rewrite(IsWordChar(c), u, lo, k - 1, sym);
    assert Rewrite(pw, t, lo, k - 1, sym) == [c] + R1 by {
      RewriteStep(pw, t, lo, k - 1, sym);
    }
    assert Rewrite(pw, t, lo, k, sym) == [c] + Rewrite(IsWordChar(c), u, lo, k, sym) by {
      FirstOpExtend(t, lo, k);
      RewriteStep(pw, t, lo, k, sym);
    }
    assert ReplaceFrom(pw, [c] + R1, k, sym(k)) == [c] + ReplaceFrom(IsWordChar(c), R1, k, sym(k)) by {
      MatchSurvives(c, u, k, lo, k - 1, sym);
      assert [c] + u == t;
      ReplaceCopiesHead(pw, c, R1, k, sym(k));
    }
  }

  /** The step the loop takes: one more `ReplaceAllString`, for operator `k`,
      applied to the text already rewritten for `lo..k-1`, gives the text
      rewritten for `lo..k`. */
  lemma {:induction false} PassExtends(pw: bool, t: string, lo: nat, k: nat, sym: nat -> string)
    requires lo <= k
    requires SymbolsValid(lo, k - 1, sym)
    ensures ReplaceFrom(pw, Rewrite(pw, t, lo, k - 1, sym), k, sym(k)) == Rewrite(pw, t, lo, k, sym)
    decreases |t|
  {
    if t != [] {
      var m1 := if pw then None else FirstOp(t, lo, k - 1);
      if m1.Some? {
        PassExtends(true, t[|Pattern(m1.value)|..], lo, k, sym);
        PassExtendsOld(pw, t, lo, k, sym, m1.value);
      } else if !pw && MatchHere(t, k) {
        PassExtends(true, t[|Pattern(k)|..], lo, k, sym);
        PassExtendsNew(pw, t, lo, k, sym);
      } else {
        PassExtends(IsWordChar(t[0]), t[1..], lo, k, sym);
        PassExtendsCopy(pw, t, lo, k, sym);
      }
    }
  }

  // ---------------------------------------------------------------------
  // What the symbolisation achieves
  // ---------------------------------------------------------------------

  /** Some word-bounded `Op: <n>` with `lo <= n <= hi` occurs in `t`, found
      by the same left-to-right scan as the rewrite. */
  predicate Occurs(pw: bool, t: string, lo: nat, hi: int)
    decreases |t|
  {
    t != [] && ((!pw && FirstOp(t, lo, hi).Some?) || Occurs(IsWordChar(t[0]), t[1..], lo, hi))
  }

  /** An operator in range matches at some position of `t`. */
  predicate MatchSomewhere(pw: bool, t: string, lo: nat, hi: int) {
    exists i: nat, n: nat :: i < |t| && lo <= n <= hi && !PrevWord(pw, t, i) && MatchHere(t[i..], n)
  }

  /** A match at position `i + 1` of `t` is a match at position `i` of its tail. */
  lemma MatchInTail(pw: bool, t: string, i: nat, n: nat)
    requires i + 1 < |t|
    ensures t[i + 1..] == t[1..][i..]
    ensures PrevWord(pw, t, i + 1) == PrevWord(IsWordChar(t[0]), t[1..], i)
  {
  }

  /** What the scan finds is a match. */
  lemma {:induction false} OccursSound(pw: bool, t: string, lo: nat, hi: int)
    requires Occurs(pw, t, lo, hi)
    ensures MatchSomewhere(pw, t, lo, hi)
    decreases |t|
  {
    if !pw && FirstOp(t, lo, hi).Some? {
      assert t[0..] == t;
      assert !PrevWord(pw, t, 0) && MatchHere(t[0..], FirstOp(t, lo, hi).value);
    } else {
      var t', pw' := t[1..], IsWordChar(t[0]);
      OccursSound(pw', t', lo, hi);
      var i: nat, n: nat :| i < |t'| && lo <= n <= hi && !PrevWord(pw', t', i) && MatchHere(t'[i..], n);
      MatchInTail(pw, t, i, n);
      assert !PrevWord(pw, t, i + 1) && MatchHere(t[i + 1..], n);
    }
  }

  /** Every match is found by the scan. */
  lemma {:induction false} OccursComplete(pw: bool, t: string, lo: nat, hi: int, i: nat, n: nat)
    requires i < |t| && lo <= n <= hi && !PrevWord(pw, t, i) && MatchHere(t[i..], n)
    ensures Occurs(pw, t, lo, hi)
    decreases i
  {
    if i == 0 {
      assert t[0..] == t;
      FirstOpFinds(t, lo, hi, n);
    } else {
      MatchInTail(pw, t, i - 1, n);
      OccursComplete(IsWordChar(t[0]), t[1..], lo, hi, i - 1, n);
    }
  }

  /** The scan finds an occurrence exactly when the pattern of an operator
      in range matches at some position of `t`. */
  lemma OccursIff(pw: bool, t: string, lo: nat, hi: int)
    ensures Occurs(pw, t, lo, hi) <==> MatchSomewhere(pw, t, lo, hi)
  {
    if Occurs(pw, t, lo, hi) {
      OccursSound(pw, t, lo, hi);
    }
    if MatchSomewhere(pw, t, lo, hi) {
      var i: nat, n: nat :| i < |t| && lo <= n <= hi && !PrevWord(pw, t, i) && MatchHere(t[i..], n);
      OccursComplete(pw, t, lo, hi, i, n);
    }
  }

  /** A text in which no operator of the range occurs is left as it is. */
  lemma {:induction false} RewriteUnchanged(pw: bool, t: string, lo: nat, hi: int, sym: nat -> string)
    requires !Occurs(pw, t, lo, hi)
    ensures Rewrite(pw, t, lo, hi, sym) == t
    decreases |t|
  {
    if t != [] {
      RewriteStep(pw, t, lo, hi, sym);
      RewriteUnchanged(IsWordChar(t[0]), t[1..], lo, hi, sym);
      assert [t[0]] + t[1..] == t;
    }
  }

  /** A step of the scan where nothing occurs at the head. */
  lemma OccursStep(pw: bool, t: string, lo: nat, hi: int)
    requires t != [] && (pw || FirstOp(t, lo, hi).None?)
    ensures Occurs(pw, t, lo, hi) == Occurs(IsWordChar(t[0]), t[1..], lo, hi)
  {
  }

  /** The scan skips a run of word characters behind a word character. */
  lemma {:induction false} OccursSkipsWord(w: string, r: string, lo: nat, hi: int)
    requires forall k :: 0 <= k < |w| ==> IsWordChar(w[k])
    ensures Occurs(true, w + r, lo, hi) == Occurs(true, r, lo, hi)
    decreases |w|
  {
    if w == [] {
      assert w + r == r;
    } else {
      assert (w + r)[1..] == w[1..] + r;
      OccursSkipsWord(w[1..], r, lo, hi);
    }
  }

  /** The scan finds nothing in the `Op: ` of a replacement. */
  lemma OccursOpPrefix(pw: bool, v: string, lo: nat, hi: int)
    requires v == [] || !IsDigit(v[0])
    ensures Occurs(pw, "Op: " + v, lo, hi) == Occurs(false, v, lo, hi)
  {
    var v3 := [' '] + v;
    var v2 := [':'] + v3;
    var v1 := ['p'] + v2;
    assert "Op: " + v == ['O'] + v1;
    assert Occurs(pw, ['O'] + v1, lo, hi) == Occurs(true, v1, lo, hi) by {
      var m := FirstOp(['O'] + v1, lo, hi);
      MatchHereChars(['O'] + v1, if m.Some? then m.value else 0);
      OccursStep(pw, ['O'] + v1, lo, hi);
    }
    assert Occurs(true, v1, lo, hi) == Occurs(true, v2, lo, hi) by {
      OccursStep(true, v1, lo, hi);
    }
    assert Occurs(true, v2, lo, hi) == Occurs(false, v3, lo, hi) by {
      OccursStep(true, v2, lo, hi);
    }
    assert Occurs(false, v3, lo, hi) == Occurs(false, v, lo, hi) by {
      FirstOpNeedsO(v3, lo, hi);
      OccursStep(false, v3, lo, hi);
    }
  }

  /** The scan finds nothing in the symbol of a replacement. */
  lemma OccursInSymbol(x: string, r: string, lo: nat, hi: int)
    requires ValidSymbol(x)
    requires r == [] || !IsWordChar(r[0])
    ensures Occurs(false, x + r, lo, hi) == Occurs(true, r, lo, hi)
  {
    var v, w := x + r, x[1..] + r;
    assert Occurs(false, v, lo, hi) == Occurs(true, w, lo, hi) by {
      var m := FirstOp(v, lo, hi);
      NoMatchAtSymbol(x, r, if m.Some? then m.value else 0);
      assert v[0] == x[0] && v[1..] == w;
      OccursStep(false, v, lo, hi);
    }
    OccursSkipsWord(x[1..], r, lo, hi);
  }

  /** A replacement `Op: <x>` contains no occurrence, whatever follows it
      when that starts with a non-word character. */
  lemma NoOccurrenceInReplacement(pw: bool, x: string, r: string, lo: nat, hi: int)
    requires ValidSymbol(x)
    requires r == [] || !IsWordChar(r[0])
    ensures Occurs(pw, "Op: " + (x + r), lo, hi) == Occurs(true, r, lo, hi)
  {
    OccursOpPrefix(pw, x + r, lo, hi);
    OccursInSymbol(x, r, lo, hi);
  }

  /** No operator of the range occurs in the rewritten text: a copied
      character cannot start a new match, and a replacement is never one. */
  lemma {:induction false} RewriteComplete(pw: bool, t: string, lo: nat, hi: int, sym: nat -> string)
    requires SymbolsValid(lo, hi, sym)
    ensures !Occurs(pw, Rewrite(pw, t, lo, hi, sym), lo, hi)
    decreases |t|
  {
    if t != [] {
      var m := if pw then None else FirstOp(t, lo, hi);
      if m.Some? {
        var L := |Pattern(m.value)|;
        var R := Rewrite(true, t[L..], lo, hi, sym);
        RewriteComplete(true, t[L..], lo, hi, sym);
        RewriteAfterMatch(t, L, lo, hi, sym);
        NoOccurrenceInReplacement(pw, sym(m.value), R, lo, hi);
      } else {
        var c, u := t[0], t[1..];
        var R := Rewrite(IsWordChar(c), u, lo, hi, sym);
        RewriteStep(pw, t, lo, hi, sym);
        RewriteComplete(IsWordChar(c), u, lo, hi, sym);
        assert ([c] + R)[1..] == R;
        if !pw {
          assert FirstOp([c] + R, lo, hi).None? by {
            var m' := FirstOp([c] + R, lo, hi);
            var k := if m'.Some? then m'.value else 0;
            MatchSurvives(c, u, k, lo, hi, sym);
            assert [c] + u == t;
            FirstOpNone(t, lo, hi, k);
          }
        }
        OccursStep(pw, [c] + R, lo, hi);
      }
    }
  }

  /** The symbolised text holds no word-bounded `Op: <n>` for an operator
      `n` of the range. */
  lemma SymbolizedComplete(s: string, ops: OpTable)
    requires ops.Valid()
    ensures var r := Symbolized(s, ops);
            forall i: nat, n: nat :: i <= |r| && ops.lo <= n <= ops.hi ==> !MatchAt(r, i, n)
  {
    var r := Symbolized(s, ops);
    RewriteComplete(false, s, ops.lo, ops.hi, ops.symbol);
    OccursIff(false, r, ops.lo, ops.hi);
    forall i: nat, n: nat | i <= |r| && ops.lo <= n <= ops.hi
      ensures !MatchAt(r, i, n)
    {
      if i == |r| {
        MatchHereChars(r[i..], n);
      }
    }
  }

  /** A text that holds no word-bounded `Op: <n>` of the range is left
      unchanged. */
  lemma SymbolizedUnchanged(s: string, ops: OpTable)
    requires forall i: nat, n: nat :: i <= |s| && ops.lo <= n <= ops.hi ==> !MatchAt(s, i, n)
    ensures Symbolized(s, ops) == s
  {
    OccursIff(false, s, ops.lo, ops.hi);
    if Occurs(false, s, ops.lo, ops.hi) {
      var i: nat, n: nat :| i < |s| && ops.lo <= n <= ops.hi && !PrevWord(false, s, i) && MatchHere(s[i..], n);
      assert MatchAt(s, i, n);
    }
    RewriteUnchanged(false, s, ops.lo, ops.hi, ops.symbol);
  }

  /** Symbolising twice is symbolising once. */
  lemma SymbolizedIdempotent(s: string, ops: OpTable)
    requires ops.Valid()
    ensures Symbolized(Symbolized(s, ops), ops) == Symbolized(s, ops)
  {
    SymbolizedComplete(s, ops);
    SymbolizedUnchanged(Symbolized(s, ops), ops);
  }

  /** A pattern that starts with `O` cannot cross into text that starts
      with `O`, and cannot end where a text ending in a non-word character
      ends: matches in `a` are the same with or without `b` behind it. */
  lemma MatchHereAppend(a: string, b: string, m: nat)
    requires a != [] && !IsWordChar(a[|a| - 1])
    requires b == [] || b[0] == 'O'
    ensures MatchHere(a + b, m) == MatchHere(a, m)
    ensures MatchHere(a, m) ==> |Pattern(m)| < |a|
  {
    var p, t := Pattern(m), a + b;
    var L := |p|;
    PatternTailNoO(m);
    assert p[L - 1] == Decimal(m)[L - 5];
    if L < |a| {
      assert t[..L] == a[..L] && t[L] == a[L];
    } else {
      assert !MatchHere(a, m) by {
        assert L == |a| ==> a[..L][L - 1] == a[|a| - 1];
      }
      assert !MatchHere(t, m) by {
        assert L >= |a| && L <= |t| ==> t[..L][|a| - 1] == a[|a| - 1];
        assert L > |a| && L <= |t| ==> t[..L][|a|] == b[0];
      }
    }
  }

  /** Texts matched by the same operators have the same first operator. */
  lemma {:induction false} FirstOpSame(t1: string, t2: string, n: nat, hi: int)
    requires forall m :: n <= m <= hi ==> MatchHere(t1, m) == MatchHere(t2, m)
    ensures FirstOp(t1, n, hi) == FirstOp(t2, n, hi)
    decreases hi - n
  {
    if n <= hi {
      FirstOpSame(t1, t2, n + 1, hi);
    }
  }

  /** The rewrite of `a + b` is the rewrite of `a` followed by the rewrite
      of `b`, when `a` ends with a non-word character and `b` starts with
      `O`: no match can cross from one into the other. */
  lemma {:induction false} RewriteAppend(pw: bool, a: string, b: string, lo: nat, hi: int, sym: nat -> string)
    requires a == [] || !IsWordChar(a[|a| - 1])
    requires b == [] || b[0] == 'O'
    ensures Rewrite(pw, a + b, lo, hi, sym)
            == Rewrite(pw, a, lo, hi, sym) + Rewrite(PrevWord(pw, a, |a|), b, lo, hi, sym)
    decreases |a|
  {
    if a == [] {
      assert a + b == b;
    } else {
      var t := a + b;
      forall m | lo <= m <= hi
        ensures MatchHere(t, m) == MatchHere(a, m)
      {
        MatchHereAppend(a, b, m);
      }
      FirstOpSame(t, a, lo, hi);
      var m := if pw then None else FirstOp(a, lo, hi);
      var rest := Rewrite(PrevWord(pw, a, |a|), b, lo, hi, sym);
      if m.Some? {
        var L := |Pattern(m.value)|;
        MatchHereAppend(a, b, m.value);
        var a' := a[L..];
        assert t[L..] == a' + b;
        assert a'[|a'| - 1] == a[|a| - 1];
        RewriteAppend(true, a', b, lo, hi, sym);
        assert PrevWord(true, a', |a'|) == PrevWord(pw, a, |a|);
        var x := Rewrite(true, a', lo, hi, sym);
        Assoc(sym(m.value), x, rest);
        Assoc("Op: ", sym(m.value) + x, rest);
      } else {
        var a' := a[1..];
        assert t[0] == a[0] && t[1..] == a' + b;
        RewriteStep(pw, t, lo, hi, sym);
        RewriteStep(pw, a, lo, hi, sym);
        assert a' == [] || a'[|a'| - 1] == a[|a| - 1];
        RewriteAppend(IsWordChar(a[0]), a', b, lo, hi, sym);
        assert PrevWord(IsWordChar(a[0]), a', |a'|) == PrevWord(pw, a, |a|);
        Assoc([a[0]], Rewrite(IsWordChar(a[0]), a', lo, hi, sym), rest);
      }
    }
  }

  /** Every word-bounded `Op: <n>` with `n` in range becomes `Op: <symbol>`,
      wherever it stands: `a` is the text before it, which is empty or ends
      with a non-word character, and `r` the text after it, which is empty
      or starts with a non-word character. */
  lemma SymbolizedReplacesOp(a: string, n: nat, r: string, ops: OpTable)
    requires a == [] || !IsWordChar(a[|a| - 1])
    requires ops.lo <= n <= ops.hi
    requires r == [] || !IsWordChar(r[0])
    ensures Symbolized(a + Pattern(n) + r, ops)
            == Symbolized(a, ops) + ("Op: " + (ops.symbol(n) + Rewrite(true, r, ops.lo, ops.hi, ops.symbol)))
  {
    var t := Pattern(n) + r;
    assert a + Pattern(n) + r == a + t;
    RewriteAppend(false, a, t, ops.lo, ops.hi, ops.symbol);
    assert t[..|Pattern(n)|] == Pattern(n) && t[|Pattern(n)|..] == r;
    assert |t| > |Pattern(n)| ==> t[|Pattern(n)|] == r[0];
    FirstOpFinds(t, ops.lo, ops.hi, n);
  }

  /** A word-bounded `Op: <n>` with `n` outside the range is kept, wherever
      it stands. */
  lemma SymbolizedKeepsOtherOp(a: string, n: nat, r: string, ops: OpTable)
    requires a == [] || !IsWordChar(a[|a| - 1])
    requires n < ops.lo || ops.hi < n
    requires r == [] || !IsWordChar(r[0])
    ensures Symbolized(a + Pattern(n) + r, ops)
            == Symbolized(a, ops) + (Pattern(n) + Rewrite(true, r, ops.lo, ops.hi, ops.symbol))
  {
    var t := Pattern(n) + r;
    assert a + Pattern(n) + r == a + t;
    RewriteAppend(false, a, t, ops.lo, ops.hi, ops.symbol);
    assert t[..|Pattern(n)|] == Pattern(n) && t[|Pattern(n)|..] == r;
    assert |t| > |Pattern(n)| ==> t[|Pattern(n)|] == r[0];
    var m := FirstOp(t, ops.lo, ops.hi);
    if m.Some? {
      MatchUnique(t, n, m.value);
    }
    RewriteKeepsMatch(t, n, ops.lo, ops.hi, ops.symbol);
  }

  /** One replacement pass is the one-pass rewrite for a single operator. */
  lemma ReplaceAllAsRewrite(s: string, n: nat, x: string)
    ensures ReplaceAll(s, n, x) == Rewrite(false, s, n, n, m => x)
  {
    RewriteEmptyRange(false, s, n, n - 1, m => x);
    PassExtends(false, s, n, n, m => x);
  }

  /** The `\b` after the number stops the pass for operator 1 from touching
      `Op: 12`. */
  lemma ReplaceAllNeedsBoundary(x: string)
    ensures ReplaceAll("Op: 12", 1, x) == "Op: 12"
  {
  }
}
