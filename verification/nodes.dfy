/** `PrimaryExpNode` as the Java class holds it: five nullable fields, of
    which a constructor fills one alternative. The methods of the child
    nodes (`ExpNode`, `LValNode`, `NumberNode`) are not part of this model;
    they are passed in as functions. */
module Nodes {
  import opened Base
  import opened Ast
  import SymTab

  /** The fields; `None` is a null reference. */
  datatype PrimaryNode = PrimaryNode(
    lparen: Option<Token>, exp: Option<AddExp>, rparen: Option<Token>,
    lval: Option<LVal>, number: Option<Token>)

  /** The argument of a call as the symbol code describes it: the name of
      the variable passed (null for a literal) and its dimension. */
  datatype FuncRParam = FuncRParam(name: Option<string>, dimension: int)

  /** How many of the three alternatives are set. */
  function Populated(n: PrimaryNode): nat
  {
    (if n.exp.Some? then 1 else 0) + (if n.lval.Some? then 1 else 0) + (if n.number.Some? then 1 else 0)
  }

  /** `new PrimaryExpNode(lparen, exp, rparen)` */
  function FromParen(l: Option<Token>, e: Option<AddExp>, r: Option<Token>): (n: PrimaryNode)
    ensures n.lval.None? && n.number.None? && n.exp == e
    ensures e.Some? ==> Populated(n) == 1
  {
    PrimaryNode(l, e, r, None, None)
  }

  /** `new PrimaryExpNode(lval)` */
  function FromLVal(lv: Option<LVal>): (n: PrimaryNode)
    ensures n.exp.None? && n.number.None? && n.lval == lv
    ensures lv.Some? ==> Populated(n) == 1
  {
    PrimaryNode(None, None, None, lv, None)
  }

  /** `new PrimaryExpNode(number)` */
  function FromNumber(t: Option<Token>): (n: PrimaryNode)
    ensures n.exp.None? && n.lval.None? && n.number == t
    ensures t.Some? ==> Populated(n) == 1
  {
    PrimaryNode(None, None, None, None, t)
  }

  /** A node some constructor built from non-null arguments. */
  predicate Built(n: PrimaryNode)
  {
    || (n.exp.Some? && n.lparen.Some? && n.rparen.Some? && n.lval.None? && n.number.None?)
    || (n.lval.Some? && n.lparen.None? && n.exp.None? && n.rparen.None? && n.number.None?)
    || (n.number.Some? && n.lparen.None? && n.exp.None? && n.rparen.None? && n.lval.None?)
  }

  /** The node of a syntax-tree alternative. */
  function Node(p: PrimaryExp): (n: PrimaryNode)
    ensures Built(n)
  {
    match p
    case Paren(l, e, r) => FromParen(Some(l), Some(e), Some(r))
    case LValExp(lv) => FromLVal(Some(lv))
    case Number(t) => FromNumber(Some(t))
  }

  /** The alternative a built node holds. */
  function Alternative(n: PrimaryNode): (p: PrimaryExp)
    requires Built(n)
  {
    if n.exp.Some? then Paren(n.lparen.value, n.exp.value, n.rparen.value)
    else if n.lval.Some? then LValExp(n.lval.value)
    else Number(n.number.value)
  }

  /** The Java fields and the three-way sum describe the same nodes. */
  lemma NodeRoundTrip(p: PrimaryExp, n: PrimaryNode)
    ensures Alternative(Node(p)) == p
    ensures Built(n) ==> Node(Alternative(n)) == n && Populated(n) == 1
  {
  }

  // ---------------------------------------------------------------------
  // Methods

  /** `getValue`: the first set field in the order exp, lval, number; with
      none set, the call on the null number node fails. */
  function GetValue(n: PrimaryNode, expValue: AddExp -> int, lvalValue: LVal -> int, numberValue: Token -> int): (r: Option<int>)
    ensures n.exp.Some? ==> r == Some(expValue(n.exp.value))
    ensures n.exp.None? && n.lval.Some? ==> r == Some(lvalValue(n.lval.value))
    ensures n.exp.None? && n.lval.None? && n.number.Some? ==> r == Some(numberValue(n.number.value))
    ensures r.None? <==> Populated(n) == 0
  {
    if n.exp.Some? then Some(expValue(n.exp.value))
    else if n.lval.Some? then Some(lvalValue(n.lval.value))
    else if n.number.Some? then Some(numberValue(n.number.value))
    else None
  }

  /** The value of an alternative of the sum. */
  function AlternativeValue(p: PrimaryExp, expValue: AddExp -> int, lvalValue: LVal -> int, numberValue: Token -> int): int
  {
    match p
    case Paren(_, e, _) => expValue(e)
    case LValExp(lv) => lvalValue(lv)
    case Number(t) => numberValue(t)
  }

  /** On a built node `getValue` is the value of the alternative it holds. */
  lemma GetValueOfAlternative(p: PrimaryExp, expValue: AddExp -> int, lvalValue: LVal -> int, numberValue: Token -> int)
    ensures GetValue(Node(p), expValue, lvalValue, numberValue) == Some(AlternativeValue(p, expValue, lvalValue, numberValue))
  {
  }

  /** `fillSymbolTable`: delegated to the expression or the l-value; a
      number literal leaves the table alone. */
  function FillSymbolTable(n: PrimaryNode, t: SymTab.Table,
                           expFill: (AddExp, SymTab.Table) -> SymTab.Table,
                           lvalFill: (LVal, SymTab.Table) -> SymTab.Table): SymTab.Table
  {
    if n.exp.Some? then expFill(n.exp.value, t)
    else if n.lval.Some? then lvalFill(n.lval.value, t)
    else t
  }

  /** `getFuncRParam`: delegated like `fillSymbolTable`; anything else
      (a number literal) is an unnamed argument of dimension 0. */
  function GetFuncRParam(n: PrimaryNode, expParam: AddExp -> FuncRParam, lvalParam: LVal -> FuncRParam): (r: FuncRParam)
    ensures n.exp.Some? ==> r == expParam(n.exp.value)
    ensures n.exp.None? && n.lval.Some? ==> r == lvalParam(n.lval.value)
    ensures n.exp.None? && n.lval.None? ==> r == FuncRParam(None, 0)
  {
    if n.exp.Some? then expParam(n.exp.value)
    else if n.lval.Some? then lvalParam(n.lval.value)
    else FuncRParam(None, 0)
  }

  /** What filling the symbol table means for each alternative of the sum. */
  function AlternativeFill(p: PrimaryExp, t: SymTab.Table,
                           expFill: (AddExp, SymTab.Table) -> SymTab.Table,
                           lvalFill: (LVal, SymTab.Table) -> SymTab.Table): SymTab.Table
  {
    match p
    case Paren(_, e, _) => expFill(e, t)
    case LValExp(lv) => lvalFill(lv, t)
    case Number(_) => t
  }

  /** The argument each alternative of the sum describes. */
  function AlternativeParam(p: PrimaryExp, expParam: AddExp -> FuncRParam, lvalParam: LVal -> FuncRParam): FuncRParam
  {
    match p
    case Paren(_, e, _) => expParam(e)
    case LValExp(lv) => lvalParam(lv)
    case Number(_) => FuncRParam(None, 0)
  }

  /** On a built node, `fillSymbolTable` and `getFuncRParam` act on the
      alternative it holds: the expression, the l-value, or, for a number,
      no change and an unnamed scalar. */
  lemma DelegatesToAlternative(p: PrimaryExp, t: SymTab.Table,
                               expFill: (AddExp, SymTab.Table) -> SymTab.Table,
                               lvalFill: (LVal, SymTab.Table) -> SymTab.Table,
                               expParam: AddExp -> FuncRParam, lvalParam: LVal -> FuncRParam)
    ensures FillSymbolTable(Node(p), t, expFill, lvalFill) == AlternativeFill(p, t, expFill, lvalFill)
    ensures GetFuncRParam(Node(p), expParam, lvalParam) == AlternativeParam(p, expParam, lvalParam)
  {
  }

  /** A literal passed as an argument is unnamed and scalar, whatever the
      child nodes would say, and it leaves the symbol table as it is. */
  lemma LiteralArgument(t: Token, st: SymTab.Table,
                        expFill: (AddExp, SymTab.Table) -> SymTab.Table,
                        lvalFill: (LVal, SymTab.Table) -> SymTab.Table,
                        expParam: AddExp -> FuncRParam, lvalParam: LVal -> FuncRParam)
    ensures GetFuncRParam(Node(Number(t)), expParam, lvalParam) == FuncRParam(None, 0)
    ensures FillSymbolTable(Node(Number(t)), st, expFill, lvalFill) == st
  {
  }
}
