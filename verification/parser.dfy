/** The recursive-descent `Parser` over a token list: `match` with its
    error recovery, the expression productions (each binary level a list of
    operands with the operators between them), `LVal`, `FuncFParam`, the
    fallback branch of `Stmt` that looks for `=` on the current line, and
    the lookahead that picks a `BlockItem` alternative. Reading past the
    last token yields the kind `EOF`. */
module Parser {
  import opened Base
  import opened Ast

  /** Error kinds `i`, `j` and `k`: a missing `;`, `)` or `]`. */
  datatype ErrorType = MissingSemicn | MissingRParent | MissingRBrack

  datatype Error = Error(line: int, kind: ErrorType)

  /** The token list, the current index and the errors recorded so far. */
  datatype PState = PState(ts: seq<Token>, i: nat, errors: seq<Error>)

  /** A parsed node and the state after it. */
  datatype Parsed<T> = Parsed(node: T, next: PState)

  predicate Valid(st: PState)
  {
    st.i <= |st.ts|
  }

  /** The kind of the token d places ahead. */
  function PeekAt(st: PState, d: nat): TokenType
  {
    if st.i + d < |st.ts| then st.ts[st.i + d].kind else EOF
  }

  function Peek(st: PState): TokenType
  {
    PeekAt(st, 0)
  }

  /** The line of the previous token, where a missing token is reported. */
  function PrevLine(st: PState): int
  {
    if 0 < st.i <= |st.ts| then st.ts[st.i - 1].line else 0
  }

  /** The state moved forward over the same tokens, errors only appended. */
  predicate Advances(st: PState, st2: PState)
  {
    st2.ts == st.ts && st.i <= st2.i <= |st.ts| && |st.errors| <= |st2.errors|
    && st2.errors[..|st.errors|] == st.errors
  }

  lemma AdvancesTrans(a: PState, b: PState, c: PState)
    requires Advances(a, b) && Advances(b, c)
    ensures Advances(a, c)
  {
    assert c.errors[..|a.errors|] == c.errors[..|b.errors|][..|a.errors|];
  }

  // ---------------------------------------------------------------------
  // match

  /** The text of the token `match` makes up for a missing one. */
  function SyntheticText(t: TokenType): string
  {
    if t == SEMICN then ";" else if t == RPARENT then ")" else if t == RBRACK then "]" else ""
  }

  /** The error a missing token of kind t records, if any. */
  function MissingError(t: TokenType): Option<ErrorType>
  {
    if t == SEMICN then Some(MissingSemicn)
    else if t == RPARENT then Some(MissingRParent)
    else if t == RBRACK then Some(MissingRBrack)
    else None
  }

  /** `match(t)`: take the current token if it has kind t; otherwise stay,
      record the error for a missing `;`, `)` or `]` at the previous
      token's line, and make up a token of kind t. Either way the token
      returned has kind t. */
  function Match(st: PState, t: TokenType): (r: Parsed<Token>)
    requires Valid(st) && t != EOF
    ensures Advances(st, r.next) && r.node.kind == t
    ensures r.next.i == st.i + 1 <==> Peek(st) == t
  {
    if Peek(st) == t then Parsed(st.ts[st.i], st.(i := st.i + 1))
    else
      var tok := Token(t, PrevLine(st), SyntheticText(t));
      match MissingError(t)
      case Some(e) => Parsed(tok, st.(errors := st.errors + [Error(PrevLine(st), e)]))
      case None => Parsed(tok, st)
  }

  /** What `match` returns and records: the current token on a hit; on a
      miss no move, a made-up token at the previous token's line, and an
      error for a missing `;`, `)` or `]` only. */
  lemma MatchBehaviour(st: PState, t: TokenType)
    requires Valid(st) && t != EOF
    ensures Peek(st) == t ==> Match(st, t) == Parsed(st.ts[st.i], st.(i := st.i + 1))
    ensures Peek(st) != t ==> Match(st, t).next.i == st.i
    ensures Peek(st) != t ==> Match(st, t).node == Token(t, PrevLine(st), SyntheticText(t))
    ensures Peek(st) != t && MissingError(t).Some? ==>
      Match(st, t).next.errors == st.errors + [Error(PrevLine(st), MissingError(t).value)]
    ensures Peek(st) != t && MissingError(t).None? ==> Match(st, t).next.errors == st.errors
  {
  }

  /** Looking ahead from the next index. */
  lemma PeekShift(st: PState, st2: PState)
    requires st2.ts == st.ts && st2.i == st.i + 1
    ensures Peek(st2) == PeekAt(st, 1)
  {
  }

  lemma PeekShift2(st: PState, st2: PState)
    requires st2.ts == st.ts && st2.i == st.i + 1
    ensures PeekAt(st2, 1) == PeekAt(st, 2)
  {
  }

  /** What appending one element does to the indices. */
  lemma Snoc<T>(s: seq<T>, x: T)
    ensures |s + [x]| == |s| + 1 && (s + [x])[|s|] == x
    ensures forall k :: 0 <= k < |s| ==> (s + [x])[k] == s[k]
  {
  }

  // ---------------------------------------------------------------------
  // The shape of what the parser builds

  predicate AddOpKind(k: TokenType) { k == PLUS || k == MINU }
  predicate MulOpKind(k: TokenType) { k == MULT || k == DIV || k == MOD }
  predicate UnaryOpKind(k: TokenType) { k == PLUS || k == MINU || k == NOT }
  predicate RelOpKind(k: TokenType) { k == LSS || k == LEQ || k == GRE || k == GEQ }
  predicate EqOpKind(k: TokenType) { k == EQL || k == NEQ }

  /** One more operand than operators, each operator of the level's kinds,
      and every operand well shaped, all the way down. */
  predicate AddShaped(e: AddExp)
    decreases e, 1
  {
    |e.ops| + 1 == |e.operands|
    && (forall k :: 0 <= k < |e.ops| ==> AddOpKind(e.ops[k].kind))
    && (forall k :: 0 <= k < |e.operands| ==> MulShaped(e.operands[k]))
  }

  predicate MulShaped(m: MulExp)
    decreases m, 1
  {
    |m.ops| + 1 == |m.operands|
    && (forall k :: 0 <= k < |m.ops| ==> MulOpKind(m.ops[k].kind))
    && (forall k :: 0 <= k < |m.operands| ==> UnaryShaped(m.operands[k]))
  }

  predicate UnaryShaped(u: UnaryExp)
    decreases u, 1
  {
    match u
    case Primary(p) => PrimaryShaped(p)
    case Call(id, lp, ps, rp) => id.kind == IDENFR && lp.kind == LPARENT && rp.kind == RPARENT && ParamsShaped(ps)
    case Unary(op, x) => UnaryOpKind(op.kind) && UnaryShaped(x)
  }

  predicate ParamsShaped(ps: RParams)
    decreases ps, 1
  {
    match ps
    case NoParams => true
    case RParams(exps, commas) =>
      |commas| + 1 == |exps|
      && (forall k :: 0 <= k < |commas| ==> commas[k].kind == COMMA)
      && (forall k :: 0 <= k < |exps| ==> AddShaped(exps[k]))
  }

  predicate PrimaryShaped(p: PrimaryExp)
    decreases p, 1
  {
    match p
    case Paren(l, e, r) => l.kind == LPARENT && r.kind == RPARENT && AddShaped(e)
    case LValExp(lv) => LValShaped(lv)
    case Number(t) => t.kind == INTCON
  }

  /** As many `[` as indices as `]`. */
  predicate LValShaped(lv: LVal)
    decreases lv, 1
  {
    lv.ident.kind == IDENFR
    && |lv.lbracks| == |lv.indices| == |lv.rbracks|
    && (forall k :: 0 <= k < |lv.lbracks| ==> lv.lbracks[k].kind == LBRACK)
    && (forall k :: 0 <= k < |lv.rbracks| ==> lv.rbracks[k].kind == RBRACK)
    && (forall k :: 0 <= k < |lv.indices| ==> AddShaped(lv.indices[k]))
  }

  // ---------------------------------------------------------------------
  // Expressions. Every call either consumes a token first or goes to a
  // production of lower rank at the same index.

  /** `AddExp -> MulExp { ('+' | '-') MulExp }` */
  function ParseAddExp(st: PState): (r: Parsed<AddExp>)
    requires Valid(st)
    ensures Advances(st, r.next) && AddShaped(r.node)
    decreases |st.ts| - st.i, 20
  {
    var m := ParseMulExp(st);
    var r := ParseAddTail(m.next, [m.node], []);
    AdvancesTrans(st, m.next, r.next);
    r
  }

  function ParseAddTail(st: PState, operands: seq<MulExp>, ops: seq<Token>): (r: Parsed<AddExp>)
    requires Valid(st) && |ops| + 1 == |operands|
    requires forall k :: 0 <= k < |ops| ==> AddOpKind(ops[k].kind)
    requires forall k :: 0 <= k < |operands| ==> MulShaped(operands[k])
    ensures Advances(st, r.next) && AddShaped(r.node)
    decreases |st.ts| - st.i, 19
  {
    if AddOpKind(Peek(st)) then
      var op := Match(st, if Peek(st) == PLUS then PLUS else MINU);
      var m := ParseMulExp(op.next);
      Snoc(operands, m.node);
      Snoc(ops, op.node);
      var r := ParseAddTail(m.next, operands + [m.node], ops + [op.node]);
      AdvancesTrans(st, op.next, m.next);
      AdvancesTrans(st, m.next, r.next);
      r
    else
      Parsed(AddExp(operands, ops), st)
  }

  /** `MulExp -> UnaryExp { ('*' | '/' | '%') UnaryExp }` */
  function ParseMulExp(st: PState): (r: Parsed<MulExp>)
    requires Valid(st)
    ensures Advances(st, r.next) && MulShaped(r.node)
    decreases |st.ts| - st.i, 18
  {
    var u := ParseUnaryExp(st);
    var r := ParseMulTail(u.next, [u.node], []);
    AdvancesTrans(st, u.next, r.next);
    r
  }

  function ParseMulTail(st: PState, operands: seq<UnaryExp>, ops: seq<Token>): (r: Parsed<MulExp>)
    requires Valid(st) && |ops| + 1 == |operands|
    requires forall k :: 0 <= k < |ops| ==> MulOpKind(ops[k].kind)
    requires forall k :: 0 <= k < |operands| ==> UnaryShaped(operands[k])
    ensures Advances(st, r.next) && MulShaped(r.node)
    decreases |st.ts| - st.i, 17
  {
    if MulOpKind(Peek(st)) then
      var op := Match(st, if Peek(st) == MULT then MULT else if Peek(st) == DIV then DIV else MOD);
      var u := ParseUnaryExp(op.next);
      Snoc(operands, u.node);
      Snoc(ops, op.node);
      var r := ParseMulTail(u.next, operands + [u.node], ops + [op.node]);
      AdvancesTrans(st, op.next, u.next);
      AdvancesTrans(st, u.next, r.next);
      r
    else
      Parsed(MulExp(operands, ops), st)
  }

  /** A call exactly when an identifier is followed by `(`. */
  predicate CallAhead(st: PState)
  {
    Peek(st) == IDENFR && PeekAt(st, 1) == LPARENT
  }

  /** `UnaryExp -> Ident '(' [FuncRParams] ')' | UnaryOp UnaryExp | PrimaryExp`,
      chosen by looking at most two tokens ahead. */
  function ParseUnaryExp(st: PState): (r: Parsed<UnaryExp>)
    requires Valid(st)
    ensures Advances(st, r.next) && UnaryShaped(r.node)
    ensures r.node.Call? <==> CallAhead(st)
    ensures r.node.Unary? <==> !CallAhead(st) && UnaryOpKind(Peek(st))
    decreases |st.ts| - st.i, 16
  {
    if CallAhead(st) then
      ParseCall(st)
    else if UnaryOpKind(Peek(st)) then
      var op := Match(st, if Peek(st) == PLUS then PLUS else if Peek(st) == MINU then MINU else NOT);
      var x := ParseUnaryExp(op.next);
      AdvancesTrans(st, op.next, x.next);
      Parsed(Unary(op.node, x.node), x.next)
    else
      var p := ParsePrimaryExp(st);
      Parsed(Primary(p.node), p.next)
  }

  /** The call alternative: the arguments are parsed unless `)` follows
      the `(`. */
  function ParseCall(st: PState): (r: Parsed<UnaryExp>)
    requires Valid(st) && CallAhead(st)
    ensures Advances(st, r.next) && UnaryShaped(r.node) && r.node.Call?
    ensures r.node.params.NoParams? <==> PeekAt(st, 2) == RPARENT
    decreases |st.ts| - st.i, 15
  {
    var id := Match(st, IDENFR);
    PeekShift(st, id.next);
    PeekShift2(st, id.next);
    var r := ParseCallAfterIdent(id.next, id.node);
    AdvancesTrans(st, id.next, r.next);
    r
  }

  function ParseCallAfterIdent(st: PState, id: Token): (r: Parsed<UnaryExp>)
    requires Valid(st) && Peek(st) == LPARENT && id.kind == IDENFR
    ensures Advances(st, r.next) && UnaryShaped(r.node) && r.node.Call?
    ensures r.node.params.NoParams? <==> PeekAt(st, 1) == RPARENT
    decreases |st.ts| - st.i, 24
  {
    var lp := Match(st, LPARENT);
    PeekShift(st, lp.next);
    var rest := ParseCallRest(lp.next);
    AdvancesTrans(st, lp.next, rest.next);
    var (ps, rp) := rest.node;
    Parsed(Call(id, lp.node, ps, rp), rest.next)
  }

  /** `[FuncRParams] ')'` after the `(` of a call. */
  function ParseCallRest(st: PState): (r: Parsed<(RParams, Token)>)
    requires Valid(st)
    ensures Advances(st, r.next) && ParamsShaped(r.node.0) && r.node.1.kind == RPARENT
    ensures r.node.0.NoParams? <==> Peek(st) == RPARENT
    decreases |st.ts| - st.i, 23
  {
    if Peek(st) != RPARENT then
      var ps := ParseFuncRParams(st);
      var rp := Match(ps.next, RPARENT);
      AdvancesTrans(st, ps.next, rp.next);
      Parsed((ps.node, rp.node), rp.next)
    else
      var rp := Match(st, RPARENT);
      Parsed((NoParams, rp.node), rp.next)
  }

  /** `FuncRParams -> Exp { ',' Exp }` */
  function ParseFuncRParams(st: PState): (r: Parsed<RParams>)
    requires Valid(st)
    ensures Advances(st, r.next) && ParamsShaped(r.node) && r.node.RParams?
    decreases |st.ts| - st.i, 22
  {
    var e := ParseAddExp(st);
    var r := ParseParamsTail(e.next, [e.node], []);
    AdvancesTrans(st, e.next, r.next);
    r
  }

  function ParseParamsTail(st: PState, exps: seq<AddExp>, commas: seq<Token>): (r: Parsed<RParams>)
    requires Valid(st) && |commas| + 1 == |exps|
    requires forall k :: 0 <= k < |commas| ==> commas[k].kind == COMMA
    requires forall k :: 0 <= k < |exps| ==> AddShaped(exps[k])
    ensures Advances(st, r.next) && ParamsShaped(r.node) && r.node.RParams?
    decreases |st.ts| - st.i, 21
  {
    if Peek(st) == COMMA then
      var c := Match(st, COMMA);
      var e := ParseAddExp(c.next);
      Snoc(exps, e.node);
      Snoc(commas, c.node);
      var r := ParseParamsTail(e.next, exps + [e.node], commas + [c.node]);
      AdvancesTrans(st, c.next, e.next);
      AdvancesTrans(st, e.next, r.next);
      r
    else
      Parsed(RParams(exps, commas), st)
  }

  /** `PrimaryExp -> '(' Exp ')' | Number | LVal` */
  function ParsePrimaryExp(st: PState): (r: Parsed<PrimaryExp>)
    requires Valid(st)
    ensures Advances(st, r.next) && PrimaryShaped(r.node)
    ensures r.node.Paren? <==> Peek(st) == LPARENT
    ensures r.node.Number? <==> Peek(st) == INTCON
    decreases |st.ts| - st.i, 14
  {
    if Peek(st) == LPARENT then
      var l := Match(st, LPARENT);
      var e := ParseAddExp(l.next);
      var rp := Match(e.next, RPARENT);
      AdvancesTrans(st, l.next, e.next);
      AdvancesTrans(st, e.next, rp.next);
      Parsed(Paren(l.node, e.node, rp.node), rp.next)
    else if Peek(st) == INTCON then
      var n := Match(st, INTCON);
      Parsed(Number(n.node), n.next)
    else
      var lv := ParseLVal(st);
      Parsed(LValExp(lv.node), lv.next)
  }

  /** `LVal -> Ident {'[' Exp ']'}` */
  function ParseLVal(st: PState): (r: Parsed<LVal>)
    requires Valid(st)
    ensures Advances(st, r.next) && LValShaped(r.node)
    decreases |st.ts| - st.i, 13
  {
    var id := Match(st, IDENFR);
    var r := ParseLValTail(id.next, id.node, [], [], []);
    AdvancesTrans(st, id.next, r.next);
    r
  }

  function ParseLValTail(st: PState, ident: Token, ls: seq<Token>, es: seq<AddExp>, rs: seq<Token>): (r: Parsed<LVal>)
    requires Valid(st) && ident.kind == IDENFR && |ls| == |es| == |rs|
    requires forall k :: 0 <= k < |ls| ==> ls[k].kind == LBRACK
    requires forall k :: 0 <= k < |rs| ==> rs[k].kind == RBRACK
    requires forall k :: 0 <= k < |es| ==> AddShaped(es[k])
    ensures Advances(st, r.next) && LValShaped(r.node)
    decreases |st.ts| - st.i, 12
  {
    if Peek(st) == LBRACK then
      var x := ParseIndex(st);
      var (l, e, rb) := x.node;
      Snoc(ls, l);
      Snoc(es, e);
      Snoc(rs, rb);
      var r := ParseLValTail(x.next, ident, ls + [l], es + [e], rs + [rb]);
      AdvancesTrans(st, x.next, r.next);
      r
    else
      Parsed(LVal(ident, ls, es, rs), st)
  }

  /** `'[' Exp ']'` */
  function ParseIndex(st: PState): (r: Parsed<(Token, AddExp, Token)>)
    requires Valid(st) && Peek(st) == LBRACK
    ensures Advances(st, r.next) && r.next.i > st.i
    ensures r.node.0.kind == LBRACK && AddShaped(r.node.1) && r.node.2.kind == RBRACK
    decreases |st.ts| - st.i, 11
  {
    var l := Match(st, LBRACK);
    var e := ParseAddExp(l.next);
    var rb := Match(e.next, RBRACK);
    AdvancesTrans(st, l.next, e.next);
    AdvancesTrans(st, e.next, rb.next);
    Parsed((l.node, e.node, rb.node), rb.next)
  }

  // ---------------------------------------------------------------------
  // Conditions: the same list shape one level up at a time

  predicate RelShaped(e: RelExp)
  {
    |e.ops| + 1 == |e.operands|
    && (forall k :: 0 <= k < |e.ops| ==> RelOpKind(e.ops[k].kind))
    && (forall k :: 0 <= k < |e.operands| ==> AddShaped(e.operands[k]))
  }

  predicate EqShaped(e: EqExp)
  {
    |e.ops| + 1 == |e.operands|
    && (forall k :: 0 <= k < |e.ops| ==> EqOpKind(e.ops[k].kind))
    && (forall k :: 0 <= k < |e.operands| ==> RelShaped(e.operands[k]))
  }

  predicate LAndShaped(e: LAndExp)
  {
    |e.ops| + 1 == |e.operands|
    && (forall k :: 0 <= k < |e.ops| ==> e.ops[k].kind == AND)
    && (forall k :: 0 <= k < |e.operands| ==> EqShaped(e.operands[k]))
  }

  predicate LOrShaped(e: LOrExp)
  {
    |e.ops| + 1 == |e.operands|
    && (forall k :: 0 <= k < |e.ops| ==> e.ops[k].kind == OR)
    && (forall k :: 0 <= k < |e.operands| ==> LAndShaped(e.operands[k]))
  }

  /** `RelExp -> AddExp { ('<' | '<=' | '>' | '>=') AddExp }` */
  function ParseRelExp(st: PState): (r: Parsed<RelExp>)
    requires Valid(st)
    ensures Advances(st, r.next) && RelShaped(r.node)
  {
    var a := ParseAddExp(st);
    var r := ParseRelTail(a.next, RelExp([a.node], []));
    AdvancesTrans(st, a.next, r.next);
    r
  }

  function ParseRelTail(st: PState, e: RelExp): (r: Parsed<RelExp>)
    requires Valid(st) && RelShaped(e)
    ensures Advances(st, r.next) && RelShaped(r.node)
    decreases |st.ts| - st.i
  {
    if RelOpKind(Peek(st)) then
      var x := ParseRelStep(st, e);
      var r := ParseRelTail(x.next, x.node);
      AdvancesTrans(st, x.next, r.next);
      r
    else
      Parsed(e, st)
  }

  /** One operator and the operand after it, appended to the lists. */
  function ParseRelStep(st: PState, e: RelExp): (r: Parsed<RelExp>)
    requires Valid(st) && RelOpKind(Peek(st)) && RelShaped(e)
    ensures Advances(st, r.next) && r.next.i > st.i && RelShaped(r.node)
  {
    var op := Match(st, if Peek(st) == LSS then LSS else if Peek(st) == LEQ then LEQ else if Peek(st) == GRE then GRE else GEQ);
    var a := ParseAddExp(op.next);
    RelAppend(e, a.node, op.node);
    AdvancesTrans(st, op.next, a.next);
    Parsed(RelExp(e.operands + [a.node], e.ops + [op.node]), a.next)
  }

  lemma RelAppend(e: RelExp, a: AddExp, op: Token)
    requires RelShaped(e) && RelOpKind(op.kind) && AddShaped(a)
    ensures RelShaped(RelExp(e.operands + [a], e.ops + [op]))
  {
    var x := RelExp(e.operands + [a], e.ops + [op]);
    assert forall k :: 0 <= k < |x.ops| ==> x.ops[k] == if k < |e.ops| then e.ops[k] else op;
    assert forall k :: 0 <= k < |x.operands| ==> x.operands[k] == if k < |e.operands| then e.operands[k] else a;
  }

  /** `EqExp -> RelExp { ('==' | '!=') RelExp }` */
  function ParseEqExp(st: PState): (r: Parsed<EqExp>)
    requires Valid(st)
    ensures Advances(st, r.next) && EqShaped(r.node)
  {
    var a := ParseRelExp(st);
    var r := ParseEqTail(a.next, EqExp([a.node], []));
    AdvancesTrans(st, a.next, r.next);
    r
  }

  function ParseEqTail(st: PState, e: EqExp): (r: Parsed<EqExp>)
    requires Valid(st) && EqShaped(e)
    ensures Advances(st, r.next) && EqShaped(r.node)
    decreases |st.ts| - st.i
  {
    if EqOpKind(Peek(st)) then
      var x := ParseEqStep(st, e);
      var r := ParseEqTail(x.next, x.node);
      AdvancesTrans(st, x.next, r.next);
      r
    else
      Parsed(e, st)
  }

  /** One operator and the operand after it, appended to the lists. */
  function ParseEqStep(st: PState, e: EqExp): (r: Parsed<EqExp>)
    requires Valid(st) && EqOpKind(Peek(st)) && EqShaped(e)
    ensures Advances(st, r.next) && r.next.i > st.i && EqShaped(r.node)
  {
    var op := Match(st, if Peek(st) == EQL then EQL else NEQ);
    var a := ParseRelExp(op.next);
    EqAppend(e, a.node, op.node);
    AdvancesTrans(st, op.next, a.next);
    Parsed(EqExp(e.operands + [a.node], e.ops + [op.node]), a.next)
  }

  lemma EqAppend(e: EqExp, a: RelExp, op: Token)
    requires EqShaped(e) && EqOpKind(op.kind) && RelShaped(a)
    ensures EqShaped(EqExp(e.operands + [a], e.ops + [op]))
  {
    var x := EqExp(e.operands + [a], e.ops + [op]);
    assert forall k :: 0 <= k < |x.ops| ==> x.ops[k] == if k < |e.ops| then e.ops[k] else op;
    assert forall k :: 0 <= k < |x.operands| ==> x.operands[k] == if k < |e.operands| then e.operands[k] else a;
  }

  /** `LAndExp -> EqExp { '&&' EqExp }` */
  function ParseLAndExp(st: PState): (r: Parsed<LAndExp>)
    requires Valid(st)
    ensures Advances(st, r.next) && LAndShaped(r.node)
  {
    var a := ParseEqExp(st);
    var r := ParseLAndTail(a.next, LAndExp([a.node], []));
    AdvancesTrans(st, a.next, r.next);
    r
  }

  function ParseLAndTail(st: PState, e: LAndExp): (r: Parsed<LAndExp>)
    requires Valid(st) && LAndShaped(e)
    ensures Advances(st, r.next) && LAndShaped(r.node)
    decreases |st.ts| - st.i
  {
    if Peek(st) == AND then
      var x := ParseLAndStep(st, e);
      var r := ParseLAndTail(x.next, x.node);
      AdvancesTrans(st, x.next, r.next);
      r
    else
      Parsed(e, st)
  }

  /** One operator and the operand after it, appended to the lists. */
  function ParseLAndStep(st: PState, e: LAndExp): (r: Parsed<LAndExp>)
    requires Valid(st) && Peek(st) == AND && LAndShaped(e)
    ensures Advances(st, r.next) && r.next.i > st.i && LAndShaped(r.node)
  {
    var op := Match(st, AND);
    var a := ParseEqExp(op.next);
    LAndAppend(e, a.node, op.node);
    AdvancesTrans(st, op.next, a.next);
    Parsed(LAndExp(e.operands + [a.node], e.ops + [op.node]), a.next)
  }

  lemma LAndAppend(e: LAndExp, a: EqExp, op: Token)
    requires LAndShaped(e) && op.kind == AND && EqShaped(a)
    ensures LAndShaped(LAndExp(e.operands + [a], e.ops + [op]))
  {
    var x := LAndExp(e.operands + [a], e.ops + [op]);
    assert forall k :: 0 <= k < |x.ops| ==> x.ops[k] == if k < |e.ops| then e.ops[k] else op;
    assert forall k :: 0 <= k < |x.operands| ==> x.operands[k] == if k < |e.operands| then e.operands[k] else a;
  }

  /** `LOrExp -> LAndExp { '||' LAndExp }` */
  function ParseLOrExp(st: PState): (r: Parsed<LOrExp>)
    requires Valid(st)
    ensures Advances(st, r.next) && LOrShaped(r.node)
  {
    var a := ParseLAndExp(st);
    var r := ParseLOrTail(a.next, LOrExp([a.node], []));
    AdvancesTrans(st, a.next, r.next);
    r
  }

  function ParseLOrTail(st: PState, e: LOrExp): (r: Parsed<LOrExp>)
    requires Valid(st) && LOrShaped(e)
    ensures Advances(st, r.next) && LOrShaped(r.node)
    decreases |st.ts| - st.i
  {
    if Peek(st) == OR then
      var x := ParseLOrStep(st, e);
      var r := ParseLOrTail(x.next, x.node);
      AdvancesTrans(st, x.next, r.next);
      r
    else
      Parsed(e, st)
  }

  /** One operator and the operand after it, appended to the lists. */
  function ParseLOrStep(st: PState, e: LOrExp): (r: Parsed<LOrExp>)
    requires Valid(st) && Peek(st) == OR && LOrShaped(e)
    ensures Advances(st, r.next) && r.next.i > st.i && LOrShaped(r.node)
  {
    var op := Match(st, OR);
    var a := ParseLAndExp(op.next);
    LOrAppend(e, a.node, op.node);
    AdvancesTrans(st, op.next, a.next);
    Parsed(LOrExp(e.operands + [a.node], e.ops + [op.node]), a.next)
  }

  lemma LOrAppend(e: LOrExp, a: LAndExp, op: Token)
    requires LOrShaped(e) && op.kind == OR && LAndShaped(a)
    ensures LOrShaped(LOrExp(e.operands + [a], e.ops + [op]))
  {
    var x := LOrExp(e.operands + [a], e.ops + [op]);
    assert forall k :: 0 <= k < |x.ops| ==> x.ops[k] == if k < |e.ops| then e.ops[k] else op;
    assert forall k :: 0 <= k < |x.operands| ==> x.operands[k] == if k < |e.operands| then e.operands[k] else a;
  }

  // ---------------------------------------------------------------------
  // FuncFParam

  /** `FuncFParam -> BType Ident [ '[' ']' { '[' ConstExp ']' } ]` */
  datatype FuncFParam = FuncFParam(btype: Token, ident: Token, lbracks: seq<Token>, rbracks: seq<Token>, dims: seq<AddExp>)

  /** Without brackets all three lists are empty; with them there is one
      more pair of brackets than dimension expressions (the first pair is
      empty). */
  predicate FParamShaped(p: FuncFParam)
  {
    p.btype.kind == INTTK && p.ident.kind == IDENFR
    && |p.lbracks| == |p.rbracks|
    && (|p.lbracks| == 0 ==> |p.dims| == 0)
    && (|p.lbracks| > 0 ==> |p.lbracks| == |p.dims| + 1)
    && (forall k :: 0 <= k < |p.lbracks| ==> p.lbracks[k].kind == LBRACK)
    && (forall k :: 0 <= k < |p.rbracks| ==> p.rbracks[k].kind == RBRACK)
    && (forall k :: 0 <= k < |p.dims| ==> AddShaped(p.dims[k]))
  }

  function ParseFuncFParam(st: PState): (r: Parsed<FuncFParam>)
    requires Valid(st)
    ensures Advances(st, r.next) && FParamShaped(r.node)
  {
    var bt := Match(st, INTTK);
    var id := Match(bt.next, IDENFR);
    AdvancesTrans(st, bt.next, id.next);
    var r := ParseFParamBrackets(id.next, bt.node, id.node);
    AdvancesTrans(st, id.next, r.next);
    r
  }

  /** The optional bracket part after the parameter's name. */
  function ParseFParamBrackets(st: PState, bt: Token, id: Token): (r: Parsed<FuncFParam>)
    requires Valid(st) && bt.kind == INTTK && id.kind == IDENFR
    ensures Advances(st, r.next) && FParamShaped(r.node)
    ensures |r.node.lbracks| > 0 <==> Peek(st) == LBRACK
  {
    if Peek(st) == LBRACK then
      var l := Match(st, LBRACK);
      var rb := Match(l.next, RBRACK);
      AdvancesTrans(st, l.next, rb.next);
      var p := FuncFParam(bt, id, [l.node], [rb.node], []);
      assert FParamShaped(p);
      var r := ParseDims(rb.next, p);
      AdvancesTrans(st, rb.next, r.next);
      r
    else
      Parsed(FuncFParam(bt, id, [], [], []), st)
  }

  /** The `{ '[' ConstExp ']' }` loop. */
  function ParseDims(st: PState, p: FuncFParam): (r: Parsed<FuncFParam>)
    requires Valid(st) && FParamShaped(p) && |p.lbracks| > 0
    ensures Advances(st, r.next) && FParamShaped(r.node) && |r.node.lbracks| > 0
    decreases |st.ts| - st.i
  {
    if Peek(st) == LBRACK then
      var x := ParseIndex(st);
      var (l, e, rb) := x.node;
      Snoc(p.lbracks, l);
      Snoc(p.rbracks, rb);
      Snoc(p.dims, e);
      var r := ParseDims(x.next, p.(lbracks := p.lbracks + [l], rbracks := p.rbracks + [rb], dims := p.dims + [e]));
      AdvancesTrans(st, x.next, r.next);
      r
    else
      Parsed(p, st)
  }

  // ---------------------------------------------------------------------
  // Statements: the assignment lookahead and the fallback branch

  /** Tokens i..k all sit on the line of token i. */
  predicate SameLine(ts: seq<Token>, i: nat, k: nat)
  {
    i <= k < |ts| && forall m :: i <= m <= k ==> ts[m].line == ts[i].line
  }

  /** An `=` follows the current token on its line, with no line break in
      between. */
  predicate AssignAhead(ts: seq<Token>, i: nat)
  {
    exists k :: i < k < |ts| && SameLine(ts, i, k) && ts[k].kind == ASSIGN
  }

  /** The scan of the fallback branch: remember the last `=` among the
      tokens from the current one to the end of its line. An `=` found
      after the current token is what makes the statement an assignment. */
  method ScanAssign(ts: seq<Token>, i: nat) returns (assign: nat)
    requires i <= |ts|
    ensures assign > i <==> AssignAhead(ts, i)
    ensures assign > i ==> SameLine(ts, i, assign) && ts[assign].kind == ASSIGN
    ensures assign > i ==> forall k :: assign < k < |ts| && SameLine(ts, i, k) ==> ts[k].kind != ASSIGN
  {
    assign := i;
    var k := i;
    while k < |ts| && ts[k].line == ts[i].line
      invariant i <= k <= |ts|
      invariant forall m :: i <= m < k ==> ts[m].line == ts[i].line
      invariant assign == i || (i < assign < k && ts[assign].kind == ASSIGN)
      invariant forall m :: i < m < k && ts[m].kind == ASSIGN ==> m <= assign
    {
      if ts[k].kind == ASSIGN {
        assign := k;
      }
      k := k + 1;
    }
    if assign > i {
      assert SameLine(ts, i, assign);
    }
    forall m | i < m < |ts| && SameLine(ts, i, m) ensures m < k {
    }
  }

  /** The statements the fallback branch builds. */
  datatype Stmt =
    | AssignExp(lval: LVal, assign: Token, exp: AddExp, semicn: Token)
    | AssignGetint(lval: LVal, assign: Token, getint: Token, lparen: Token, rparen: Token, semicn: Token)
    | ExpStmt(optExp: Option<AddExp>, semicn: Token)

  /** The tokens an expression statement can start with. */
  predicate ExpStart(k: TokenType)
  {
    k == IDENFR || k == PLUS || k == MINU || k == NOT || k == LPARENT || k == INTCON
  }

  /** The last branch of `Stmt`: an assignment (of an expression or of
      `getint()`) when an `=` follows on the line, else `[Exp] ';'`. */
  function ParseFallbackStmt(st: PState): (r: Parsed<Stmt>)
    requires Valid(st)
    ensures Advances(st, r.next) && r.node.semicn.kind == SEMICN
    ensures r.node.ExpStmt? <==> !AssignAhead(st.ts, st.i)
    ensures r.node.ExpStmt? ==> (r.node.optExp.Some? <==> ExpStart(Peek(st)))
    ensures !AssignAhead(st.ts, st.i) && !ExpStart(Peek(st)) ==>
              r.next.i == st.i + (if Peek(st) == SEMICN then 1 else 0)
  {
    if AssignAhead(st.ts, st.i) then
      var lv := ParseLVal(st);
      var eq := Match(lv.next, ASSIGN);
      AdvancesTrans(st, lv.next, eq.next);
      var r := ParseAssignRight(eq.next, lv.node, eq.node);
      AdvancesTrans(st, eq.next, r.next);
      r
    else if ExpStart(Peek(st)) then
      var e := ParseAddExp(st);
      var sc := Match(e.next, SEMICN);
      AdvancesTrans(st, e.next, sc.next);
      Parsed(ExpStmt(Some(e.node), sc.node), sc.next)
    else
      var sc := Match(st, SEMICN);
      Parsed(ExpStmt(None, sc.node), sc.next)
  }

  /** What follows the `=`: `getint '(' ')' ';'` or `Exp ';'`. */
  function ParseAssignRight(st: PState, lv: LVal, eq: Token): (r: Parsed<Stmt>)
    requires Valid(st)
    ensures Advances(st, r.next) && r.node.semicn.kind == SEMICN && !r.node.ExpStmt?
    ensures r.node.AssignGetint? <==> Peek(st) == GETINTTK
  {
    if Peek(st) == GETINTTK then
      var g := Match(st, GETINTTK);
      var lp := Match(g.next, LPARENT);
      var rp := Match(lp.next, RPARENT);
      var sc := Match(rp.next, SEMICN);
      AdvancesTrans(st, g.next, lp.next);
      AdvancesTrans(st, lp.next, rp.next);
      AdvancesTrans(st, rp.next, sc.next);
      Parsed(AssignGetint(lv, eq, g.node, lp.node, rp.node, sc.node), sc.next)
    else
      var e := ParseAddExp(st);
      var sc := Match(e.next, SEMICN);
      AdvancesTrans(st, e.next, sc.next);
      Parsed(AssignExp(lv, eq, e.node, sc.node), sc.next)
  }

  // ---------------------------------------------------------------------
  // BlockItem

  /** The statement alternatives `Stmt` dispatches on by keyword (a block,
      `printf`, `if`, `while`, `break`, `continue`, `return`); their parsing
      is not part of this model. */
  predicate StmtKeyword(k: TokenType)
  {
    k == LBRACE || k == PRINTFTK || k == IFTK || k == WHILETK || k == BREAKTK || k == CONTINUETK || k == RETURNTK
  }

  /** A statement: one of the fallback forms, or a keyword statement `S`. */
  datatype StmtNode<S> = Fallback(stmt: Stmt) | Keyword(other: S)

  /** `BlockItemNode`: the declaration and the statement fields, `None`
      standing for null. */
  datatype BlockItemNode<D, S> = BlockItemNode(decl: Option<D>, stmt: Option<StmtNode<S>>)

  /** `Stmt`: a keyword picks its alternative (parsed by `keyword`), and
      anything else goes to the fallback branch. */
  function ParseStmt<S>(st: PState, keyword: PState -> Parsed<S>): (r: Parsed<StmtNode<S>>)
    requires Valid(st)
    ensures r.node.Keyword? <==> StmtKeyword(Peek(st))
    ensures r.node.Fallback? ==> Advances(st, r.next) && r == Parsed(Fallback(ParseFallbackStmt(st).node), ParseFallbackStmt(st).next)
  {
    if StmtKeyword(Peek(st)) then
      var k := keyword(st);
      Parsed(Keyword(k.node), k.next)
    else
      var f := ParseFallbackStmt(st);
      Parsed(Fallback(f.node), f.next)
  }

  /** `BlockItem`: `Decl` (parsed by `decl`) on `const` or `int`, else `Stmt`. */
  function ParseBlockItem<D, S>(st: PState, decl: PState -> Parsed<D>, keyword: PState -> Parsed<S>)
    : (r: Parsed<BlockItemNode<D, S>>)
    requires Valid(st)
    ensures r.node.decl.Some? != r.node.stmt.Some?
    ensures r.node.decl.Some? <==> DeclFirst(Peek(st))
    ensures r.node.decl.Some? ==> r.node.decl.value == decl(st).node && r.next == decl(st).next
    ensures r.node.stmt.Some? ==> r == Parsed(BlockItemNode(None, Some(ParseStmt(st, keyword).node)), ParseStmt(st, keyword).next)
  {
    if Peek(st) == CONSTTK || Peek(st) == INTTK then
      var d := decl(st);
      Parsed(BlockItemNode(Some(d.node), None), d.next)
    else
      var s := ParseStmt(st, keyword);
      Parsed(BlockItemNode(None, Some(s.node)), s.next)
  }

  /** The first tokens of `Decl -> ConstDecl | VarDecl`. */
  predicate DeclFirst(k: TokenType)
  {
    k == CONSTTK || k == INTTK
  }

  /** The first tokens of `Stmt`: a keyword, the start of an l-value or an
      expression, or the `;` of an empty statement. */
  predicate StmtFirst(k: TokenType)
  {
    StmtKeyword(k) || ExpStart(k) || k == SEMICN
  }

  /** On every token, the node holds a declaration exactly when the token
      starts a `Decl`; any other token, even one that starts nothing, is
      handed to `Stmt`. On an item that starts a `Decl` or a `Stmt` of the
      grammar, the node holds a statement exactly when it starts a `Stmt`:
      the two first sets are disjoint, so one token of lookahead decides. A statement that starts
      like an expression is parsed by the fallback branch, as an assignment
      exactly when an `=` follows on the line. */
  lemma BlockItemFollowsGrammar<D, S>(st: PState, decl: PState -> Parsed<D>, keyword: PState -> Parsed<S>)
    requires Valid(st)
    ensures forall k :: !(DeclFirst(k) && StmtFirst(k))
    ensures var r := ParseBlockItem(st, decl, keyword);
      && (r.node.decl.Some? <==> DeclFirst(Peek(st)))
      && (DeclFirst(Peek(st)) || StmtFirst(Peek(st)) ==> (r.node.stmt.Some? <==> StmtFirst(Peek(st))))
    ensures var r := ParseBlockItem(st, decl, keyword);
      (ExpStart(Peek(st)) || Peek(st) == SEMICN) ==>
        && r.node.stmt.Some? && r.node.stmt.value.Fallback?
        && (r.node.stmt.value.stmt.ExpStmt? <==> !AssignAhead(st.ts, st.i))
  {
  }
}
