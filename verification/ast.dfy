/** Tokens and the expression part of the syntax tree, shared by the parser,
    the node classes and the IR builder. The parser builds every binary
    level as a list of operands and the list of operator tokens between
    them. */
module Ast {
  import opened Base

  /** The token kinds the parser and the IR builder test for. `EOF` is not a
      token kind of the lexer: it is what this model reads past the last
      token. */
  datatype TokenType =
    | IDENFR | INTCON | STRCON
    | MAINTK | CONSTTK | INTTK | VOIDTK | BREAKTK | CONTINUETK | IFTK | ELSETK
    | WHILETK | GETINTTK | PRINTFTK | RETURNTK
    | NOT | AND | OR | PLUS | MINU | MULT | DIV | MOD
    | LSS | LEQ | GRE | GEQ | EQL | NEQ | ASSIGN
    | SEMICN | COMMA | LPARENT | RPARENT | LBRACK | RBRACK | LBRACE | RBRACE
    | EOF

  datatype Token = Token(kind: TokenType, line: int, content: string)

  /** `AddExp -> MulExp { ('+' | '-') MulExp }` */
  datatype AddExp = AddExp(operands: seq<MulExp>, ops: seq<Token>)

  /** `MulExp -> UnaryExp { ('*' | '/' | '%') UnaryExp }` */
  datatype MulExp = MulExp(operands: seq<UnaryExp>, ops: seq<Token>)

  /** `UnaryExp -> PrimaryExp | Ident '(' [FuncRParams] ')' | UnaryOp UnaryExp` */
  datatype UnaryExp =
    | Primary(primary: PrimaryExp)
    | Call(ident: Token, lparen: Token, params: RParams, rparen: Token)
    | Unary(op: Token, operand: UnaryExp)

  /** `FuncRParams -> Exp { ',' Exp }`, or `NoParams` where the call has
      none (a null `FuncRParamsNode`). */
  datatype RParams = NoParams | RParams(exps: seq<AddExp>, commas: seq<Token>)

  /** `PrimaryExpNode`: exactly one of a parenthesised expression, an
      l-value or a number literal. */
  datatype PrimaryExp =
    | Paren(lparen: Token, exp: AddExp, rparen: Token)
    | LValExp(lval: LVal)
    | Number(literal: Token)

  /** `LVal -> Ident {'[' Exp ']'}` */
  datatype LVal = LVal(ident: Token, lbracks: seq<Token>, indices: seq<AddExp>, rbracks: seq<Token>)

  /** `RelExp`, `EqExp`, `LAndExp` and `LOrExp` */
  datatype RelExp = RelExp(operands: seq<AddExp>, ops: seq<Token>)
  datatype EqExp = EqExp(operands: seq<RelExp>, ops: seq<Token>)
  datatype LAndExp = LAndExp(operands: seq<EqExp>, ops: seq<Token>)
  datatype LOrExp = LOrExp(operands: seq<LAndExp>, ops: seq<Token>)
}
